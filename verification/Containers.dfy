/**
 The three containers of the page cache: which pages they hold, that a page in use is never
 evicted, and that the LRU list is exactly the tail of the recency order.
 */
module Containers {
  import opened Sequences
  import opened Storage
  import opened CacheModel

  /**
   The page list and the hash hold the same pages, once each; the LRU holds those of them that no
   request is using. `pins` are the pages fetched and not yet released.
   */
  ghost predicate Shape(s: Cache, pins: set<nat>) {
    && NoDup(s.list)
    && (forall p: nat :: p in s.list <==> p in s.frames)
    && NoDup(s.lru)
    && (forall p: nat :: p in s.lru <==> p in s.frames && p !in pins)
    && (forall p: nat :: p in pins ==> p in s.frames)
  }

  lemma GetPageShape(c: Cipher, s: Cache, pins: set<nat>, p: nat)
    requires Shape(s, pins)
    ensures Shape(GetPage(c, s, p), pins + {p})
    ensures GetPage(c, s, p).lru == Remove(s.lru, p)
    ensures GetPage(c, s, p).list == s.list + if p in s.frames then [] else [p]
    ensures forall q: nat :: q in s.frames ==> q in GetPage(c, s, p).frames && GetPage(c, s, p).frames[q] == s.frames[q]
  {
    RemoveNoDup(s.lru, p);
  }

  lemma DeletePageShape(c: Cipher, s: Cache, pins: set<nat>, p: nat)
    requires Shape(s, pins) && p in pins
    ensures Shape(DeletePage(c, s, p), pins - {p})
  {
    RemoveNoDup(s.list, p);
  }

  lemma {:induction false} EvictShape(c: Cipher, s: Cache, pins: set<nat>, max: nat)
    requires Shape(s, pins)
    ensures Shape(Evict(c, s, max), pins)
    ensures Evict(c, s, max).lru == Last(s.lru, max)
    ensures forall q: nat :: q in pins ==> Evict(c, s, max).frames[q] == s.frames[q]
    decreases |s.lru|
  {
    if |s.lru| > max {
      var p, t := s.lru[0], s.(lru := s.lru[1..]);
      OldestPinned(s, pins);
      DeletePageShape(c, t, pins + {p}, p);
      assert pins + {p} - {p} == pins;
      var d := DeletePage(c, t, p);
      assert d.lru == t.lru && d.frames == s.frames - {p};
      assert forall q: nat :: q in pins ==> q in s.frames;
      LastOfTail(s.lru, max);
      hide Shape, DeletePage, NoDup, Last;
      EvictShape(c, d, pins, max);
    }
  }

  /** Taken off the LRU list, the oldest page is in use until it is deleted. */
  lemma OldestPinned(s: Cache, pins: set<nat>)
    requires Shape(s, pins) && s.lru != []
    ensures Shape(s.(lru := s.lru[1..]), pins + {s.lru[0]}) && s.lru[0] !in pins
  {
    var p, t := s.lru[0], s.(lru := s.lru[1..]);
    assert s.lru == [p] + t.lru;
    forall q: nat ensures q in t.lru <==> q in t.frames && q !in pins + {p} {
      assert q in s.lru <==> q in s.frames && q !in pins;
    }
  }

  /** Releasing a page trims the LRU to its capacity and leaves every page still in use cached. */
  lemma ReleaseShape(c: Cipher, s: Cache, pins: set<nat>, p: nat, max: nat)
    requires Shape(s, pins) && p in pins
    ensures Shape(ReleasePage(c, s, p, max), pins - {p})
    ensures ReleasePage(c, s, p, max).lru == Last(s.lru + [p], max)
    ensures |ReleasePage(c, s, p, max).lru| <= max
    ensures forall q: nat :: q in pins && q != p ==> ReleasePage(c, s, p, max).frames[q] == s.frames[q]
  {
    assert p !in s.lru;
    EvictShape(c, s.(lru := s.lru + [p]), pins - {p}, max);
  }

  lemma PokeShape(s: Cache, pins: set<nat>, p: nat, at: nat, bytes: seq<byte>)
    requires Shape(s, pins) && p in s.frames && at + |bytes| <= PAGE_SIZE
    ensures Shape(Poke(s, p, at, bytes), pins)
  {
  }

  // ----- requests -----

  function RemoveAll(s: seq<nat>, ps: seq<nat>): (r: seq<nat>)
    decreases |ps|
  {
    if ps == [] then s else RemoveAll(Remove(s, ps[0]), ps[1..])
  }

  lemma {:induction false} GetPagesShape(c: Cipher, s: Cache, pins: set<nat>, ps: seq<nat>)
    requires Shape(s, pins)
    ensures Shape(GetPages(c, s, ps), pins + Elements(ps))
    ensures GetPages(c, s, ps).lru == RemoveAll(s.lru, ps)
    decreases |ps|
  {
    if ps == [] {
      assert pins + Elements(ps) == pins;
    } else {
      GetPageShape(c, s, pins, ps[0]);
      GetPagesShape(c, GetPage(c, s, ps[0]), pins + {ps[0]}, ps[1..]);
      ElementsCons(pins, ps);
    }
  }

  lemma ElementsCons(pins: set<nat>, ps: seq<nat>)
    requires ps != []
    ensures pins + {ps[0]} + Elements(ps[1..]) == pins + Elements(ps)
  {
    assert ps == [ps[0]] + ps[1..];
  }

  /** The pieces of a request name consecutive pages. */
  lemma {:induction false} PiecesConsecutive(pos: nat, size: nat, inArg: nat, i: nat)
    requires i < |Pieces(pos, size, inArg)|
    ensures Pieces(pos, size, inArg)[i].pgno == pos / PAGE_SIZE + i
    decreases size
  {
    var len := Min(size, PAGE_SIZE - pos % PAGE_SIZE);
    if i > 0 {
      PiecesConsecutive(pos + len, size - len, inArg + len, i - 1);
      assert (pos + len) / PAGE_SIZE == pos / PAGE_SIZE + 1;
    }
  }

  /** `ps` are the pieces of the request for `size` bytes at `pos`, placed from `inArg` on. */
  ghost predicate Tiles(ps: seq<Piece>, pos: nat, size: nat, inArg: nat)
    decreases |ps|
  {
    if size == 0 then ps == []
    else
      && ps != []
      && ps[0] == Piece(pos / PAGE_SIZE, pos % PAGE_SIZE, inArg, Min(size, PAGE_SIZE - pos % PAGE_SIZE))
      && Tiles(ps[1..], pos + ps[0].len, size - ps[0].len, inArg + ps[0].len)
  }

  lemma {:induction false} PiecesTiles(pos: nat, size: nat, inArg: nat)
    ensures Tiles(Pieces(pos, size, inArg), pos, size, inArg)
    decreases size
  {
    hide Fit;
    if size > 0 {
      var len := Min(size, PAGE_SIZE - pos % PAGE_SIZE);
      PiecesTiles(pos + len, size - len, inArg + len);
      assert Pieces(pos, size, inArg)[1..] == Pieces(pos + len, size - len, inArg + len);
    }
  }

  /** How many pages a request touches. */
  lemma {:induction false} TilesCount(ps: seq<Piece>, pos: nat, size: nat, inArg: nat)
    requires size > 0 && Tiles(ps, pos, size, inArg)
    ensures |ps| == (pos + size - 1) / PAGE_SIZE - pos / PAGE_SIZE + 1
    decreases |ps|
  {
    var len := ps[0].len;
    if size > len {
      TilesCount(ps[1..], pos + len, size - len, inArg + len);
      assert (pos + len) / PAGE_SIZE == pos / PAGE_SIZE + 1;
    } else {
      assert ps[1..] == [] && (pos + size - 1) / PAGE_SIZE == pos / PAGE_SIZE;
    }
  }

  lemma {:induction false} TileAt(ps: seq<Piece>, pos: nat, size: nat, inArg: nat, i: nat)
    requires i < |ps| && Tiles(ps, pos, size, inArg)
    ensures ps[i].len > 0 && ps[i].inPage + ps[i].len <= PAGE_SIZE
    ensures ps[i].pgno * PAGE_SIZE + ps[i].inPage + inArg == pos + ps[i].inArg
    ensures ps[i].inArg + ps[i].len == if i + 1 < |ps| then ps[i + 1].inArg else inArg + size
    decreases |ps|
  {
    if i > 0 {
      TileAt(ps[1..], pos + ps[0].len, size - ps[0].len, inArg + ps[0].len, i - 1);
      assert ps[1..][i - 1] == ps[i];
    }
  }

  /**
   getPages cuts a request exactly: one piece for each page it touches, the pieces following one
   another in the caller's buffer without gap or overlap until nothing remains, each not empty,
   inside one page, and placed where its bytes lie in the file.
   */
  lemma PiecesTile(pos: nat, size: nat, i: nat)
    requires i < |Pieces(pos, size, 0)|
    ensures var ps := Pieces(pos, size, 0);
      && |ps| == (pos + size - 1) / PAGE_SIZE - pos / PAGE_SIZE + 1
      && ps[i].len > 0 && ps[i].inPage + ps[i].len <= PAGE_SIZE
      && ps[i].pgno == pos / PAGE_SIZE + i
      && ps[i].pgno * PAGE_SIZE + ps[i].inPage == pos + ps[i].inArg
      && ps[0].inArg == 0
      && ps[i].inArg + ps[i].len == if i + 1 < |ps| then ps[i + 1].inArg else size
  {
    var ps := Pieces(pos, size, 0);
    PiecesTiles(pos, size, 0);
    TilesCount(ps, pos, size, 0);
    TileAt(ps, pos, size, 0, i);
    PiecesConsecutive(pos, size, 0, i);
  }

  lemma PagesNoDup(pos: nat, size: nat, inArg: nat)
    ensures NoDup(Pages(Pieces(pos, size, inArg)))
  {
    var ps := Pieces(pos, size, inArg);
    forall i, j | 0 <= i < j < |ps| ensures ps[i].pgno != ps[j].pgno {
      PiecesConsecutive(pos, size, inArg, i);
      PiecesConsecutive(pos, size, inArg, j);
    }
  }

  lemma PinTail(ps: seq<nat>)
    requires NoDup(ps) && ps != []
    ensures NoDup(ps[1..]) && ps[0] in Elements(ps)
    ensures Elements(ps) - {ps[0]} == Elements(ps[1..])
  {
    assert ps == [ps[0]] + ps[1..];
  }

  /** One turn of a copy loop, seen by the containers: the first page in use is released. */
  lemma ReleaseFirst(c: Cipher, s: Cache, pages: seq<nat>, max: nat)
    requires pages != [] && NoDup(pages) && Shape(s, Elements(pages))
    ensures Shape(ReleasePage(c, s, pages[0], max), Elements(pages[1..]))
    ensures ReleasePage(c, s, pages[0], max).lru == Last(s.lru + [pages[0]], max)
  {
    PinTail(pages);
    ReleaseShape(c, s, Elements(pages), pages[0], max);
  }

  lemma {:induction false} ReadPiecesShape(c: Cipher, s: Cache, ps: seq<Piece>, max: nat)
    requires InPages(ps)
    requires NoDup(Pages(ps)) && Shape(s, Elements(Pages(ps)))
    ensures Shape(ReadPieces(c, s, ps, max).0, {})
    ensures ps != [] ==> ReadPieces(c, s, ps, max).0.lru == Last(s.lru + Pages(ps), max)
    decreases |ps|
  {
    if ps == [] {
      assert Elements(Pages(ps)) == {};
    } else {
      ReleaseFirst(c, s, Pages(ps), max);
      PagesTail(ps);
      ReadPiecesShape(c, ReleasePage(c, s, ps[0].pgno, max), ps[1..], max);
      LastOfConcat(s.lru, Pages(ps), max);
    }
  }

  lemma PagesTail(ps: seq<Piece>)
    requires ps != []
    ensures Pages(ps)[1..] == Pages(ps[1..])
    ensures NoDup(Pages(ps)) ==> NoDup(Pages(ps[1..]))
  {
  }

  lemma LastOfConcat(s: seq<nat>, t: seq<nat>, k: nat)
    requires t != []
    ensures Last(s + t, k) == Last(Last(s + [t[0]], k) + t[1..], k)
    ensures t[1..] == [] ==> Last(s + t, k) == Last(s + [t[0]], k)
  {
    assert s + t == s + [t[0]] + t[1..];
  }

  lemma {:induction false} WritePiecesShape(c: Cipher, s: Cache, ps: seq<Piece>, data: seq<byte>, max: nat)
    requires Fit(ps, |data|)
    requires NoDup(Pages(ps)) && Shape(s, Elements(Pages(ps)))
    ensures Shape(WritePieces(c, s, ps, data, max), {})
    ensures ps != [] ==> WritePieces(c, s, ps, data, max).lru == Last(s.lru + Pages(ps), max)
    decreases |ps|
  {
    if ps == [] {
      assert Elements(Pages(ps)) == {};
    } else {
      var p, at, bytes := ps[0].pgno, ps[0].inPage, data[ps[0].inArg..ps[0].inArg + ps[0].len];
      var t := Poke(s, p, at, bytes);
      assert p == Pages(ps)[0] && p in s.frames;
      PokeShape(s, Elements(Pages(ps)), p, at, bytes);
      ReleaseFirst(c, t, Pages(ps), max);
      PagesTail(ps);
      WritePiecesShape(c, ReleasePage(c, t, p, max), ps[1..], data, max);
      LastOfConcat(s.lru, Pages(ps), max);
    }
  }

  // ----- a page in use is never evicted -----

  /** At each turn of the read loop the page about to be copied from is still cached. */
  ghost predicate ReadServed(c: Cipher, s: Cache, ps: seq<Piece>, max: nat)
    decreases |ps|
  {
    ps == [] || (ps[0].pgno in s.frames && ReadServed(c, ReleasePage(c, s, ps[0].pgno, max), ps[1..], max))
  }

  /** At each turn of the write loop the page about to be copied into is still cached. */
  ghost predicate WriteServed(c: Cipher, s: Cache, ps: seq<Piece>, data: seq<byte>, max: nat)
    requires Fit(ps, |data|)
    decreases |ps|
  {
    ps == [] || (ps[0].pgno in s.frames &&
      var t := Poke(s, ps[0].pgno, ps[0].inPage, data[ps[0].inArg..ps[0].inArg + ps[0].len]);
      WriteServed(c, ReleasePage(c, t, ps[0].pgno, max), ps[1..], data, max))
  }

  lemma {:induction false} PinnedReadServed(c: Cipher, s: Cache, ps: seq<Piece>, max: nat)
    requires NoDup(Pages(ps)) && Shape(s, Elements(Pages(ps)))
    ensures ReadServed(c, s, ps, max)
    decreases |ps|
  {
    if ps != [] {
      assert Pages(ps)[0] in Elements(Pages(ps));
      ReleaseFirst(c, s, Pages(ps), max);
      PagesTail(ps);
      PinnedReadServed(c, ReleasePage(c, s, ps[0].pgno, max), ps[1..], max);
    }
  }

  lemma {:induction false} PinnedWriteServed(c: Cipher, s: Cache, ps: seq<Piece>, data: seq<byte>, max: nat)
    requires Fit(ps, |data|) && NoDup(Pages(ps)) && Shape(s, Elements(Pages(ps)))
    ensures WriteServed(c, s, ps, data, max)
    decreases |ps|
  {
    if ps != [] {
      var p, at, bytes := ps[0].pgno, ps[0].inPage, data[ps[0].inArg..ps[0].inArg + ps[0].len];
      assert Pages(ps)[0] in Elements(Pages(ps));
      PokeShape(s, Elements(Pages(ps)), p, at, bytes);
      ReleaseFirst(c, Poke(s, p, at, bytes), Pages(ps), max);
      PagesTail(ps);
      PinnedWriteServed(c, ReleasePage(c, Poke(s, p, at, bytes), p, max), ps[1..], data, max);
    }
  }

  /** Fetching the pages of a request keeps every one of them cached until its piece is copied. */
  lemma RequestServed(c: Cipher, s: Cache, pos: nat, data: seq<byte>, max: nat)
    requires Shape(s, {})
    ensures var ps := Pieces(pos, |data|, 0);
      && ReadServed(c, GetPages(c, s, Pages(ps)), ps, max)
      && WriteServed(c, GetPages(c, s, Pages(ps)), ps, data, max)
  {
    var ps := Pieces(pos, |data|, 0);
    PagesNoDup(pos, |data|, 0);
    GetPagesShape(c, s, {}, Pages(ps));
    assert {} + Elements(Pages(ps)) == Elements(Pages(ps));
    PinnedReadServed(c, GetPages(c, s, Pages(ps)), ps, max);
    PinnedWriteServed(c, GetPages(c, s, Pages(ps)), ps, data, max);
  }

  // ----- flush leaves the containers alone -----

  lemma {:induction false} FlushAllShape(c: Cipher, s: Cache, pins: set<nat>, ps: seq<nat>)
    requires Shape(s, pins)
    ensures Shape(FlushAll(c, s, ps), pins)
    ensures FlushAll(c, s, ps).lru == s.lru && FlushAll(c, s, ps).list == s.list
    decreases |ps|
  {
    if ps != [] {
      FlushAllShape(c, FlushPage(c, s, ps[0]), pins, ps[1..]);
    }
  }

  // ----- the LRU list is the recency order, cut to the capacity -----

  /** The recency order: pages in the order of their last use, latest last. */
  function Touch(order: seq<nat>, ps: seq<nat>): (r: seq<nat>) {
    RemoveAll(order, ps) + ps
  }

  function PagesOf(op: Op): (r: seq<nat>) {
    match op
    case Read(pos, size) => Pages(Pieces(pos, size, 0))
    case Write(pos, data) => Pages(Pieces(pos, |data|, 0))
    case Flush => []
    case Reopen(_) => []
  }

  function Recency(order: seq<nat>, ops: seq<Op>): (r: seq<nat>)
    decreases |ops|
  {
    if ops == [] then order else Recency(Touch(order, PagesOf(ops[0])), ops[1..])
  }

  lemma {:induction false} RemoveAllNoDup(s: seq<nat>, ps: seq<nat>)
    requires NoDup(s)
    ensures NoDup(RemoveAll(s, ps))
    ensures forall y: nat :: y in RemoveAll(s, ps) <==> y in s && y !in ps
    decreases |ps|
  {
    if ps != [] {
      RemoveNoDup(s, ps[0]);
      RemoveAllNoDup(Remove(s, ps[0]), ps[1..]);
      assert ps == [ps[0]] + ps[1..];
    }
  }

  lemma LastRemoveBoth(s: seq<nat>, t: seq<nat>, p: nat, k: nat)
    requires NoDup(s) && NoDup(t) && k > 0 && Last(s, k) == Last(t, k)
    ensures NoDup(Remove(s, p)) && NoDup(Remove(t, p))
    ensures Last(Remove(s, p), k - 1) == Last(Remove(t, p), k - 1)
  {
    LastRemove(s, t, p, k);
    RemoveNoDup(s, p);
    RemoveNoDup(t, p);
  }

  lemma {:induction false} LastRemoveAll(s: seq<nat>, t: seq<nat>, ps: seq<nat>, k: nat)
    requires NoDup(s) && NoDup(t) && |ps| <= k && Last(s, k) == Last(t, k)
    ensures Last(RemoveAll(s, ps), k - |ps|) == Last(RemoveAll(t, ps), k - |ps|)
    decreases |ps|
  {
    hide NoDup, Last, Remove;
    if ps != [] {
      LastRemoveBoth(s, t, ps[0], k);
      LastRemoveAll(Remove(s, ps[0]), Remove(t, ps[0]), ps[1..], k - 1);
    }
  }

  lemma LastTouch(s: seq<nat>, t: seq<nat>, ps: seq<nat>, k: nat)
    requires NoDup(s) && NoDup(t) && Last(s, k) == Last(t, k)
    ensures Last(Touch(s, ps), k) == Last(Touch(t, ps), k)
  {
    if |ps| <= k {
      LastRemoveAll(s, t, ps, k);
    }
    LastSplit(RemoveAll(s, ps), ps, k);
    LastSplit(RemoveAll(t, ps), ps, k);
  }

  lemma LastSplit(s: seq<nat>, ps: seq<nat>, k: nat)
    ensures |ps| <= k ==> Last(s + ps, k) == Last(s, k - |ps|) + ps
    ensures |ps| > k ==> Last(s + ps, k) == Last(ps, k)
  {
  }

  lemma StepShape(c: Cipher, y: System, op: Op)
    requires Sized(op) && !op.Reopen? && Shape(y.cache, {}) && |y.cache.lru| <= y.capacity
    ensures Shape(Step(c, y, op).0.cache, {})
    ensures Step(c, y, op).0.capacity == y.capacity
    ensures Step(c, y, op).0.cache.lru == Last(Touch(y.cache.lru, PagesOf(op)), y.capacity)
  {
    match op
    case Read(pos, size) =>
      var ps := Pieces(pos, size, 0);
      PagesNoDup(pos, size, 0);
      GetPagesShape(c, y.cache, {}, Pages(ps));
      assert {} + Elements(Pages(ps)) == Elements(Pages(ps));
      ReadPiecesShape(c, GetPages(c, y.cache, Pages(ps)), ps, y.capacity);
    case Write(pos, data) =>
      var ps := Pieces(pos, |data|, 0);
      PagesNoDup(pos, |data|, 0);
      GetPagesShape(c, y.cache, {}, Pages(ps));
      assert {} + Elements(Pages(ps)) == Elements(Pages(ps));
      WritePiecesShape(c, GetPages(c, y.cache, Pages(ps)), ps, data, y.capacity);
    case Flush =>
      FlushAllShape(c, y.cache, {}, Sorted(DirtyOf(y.cache, y.cache.list)));
      assert y.cache.lru + [] == y.cache.lru;
  }

  /**
   LRU exactness: between requests the cached pages are the `capacity` most recently used ones,
   in recency order, whatever the capacity.
   */
  lemma {:induction false} LruExact(c: Cipher, y: System, ops: seq<Op>, order: seq<nat>)
    requires forall i :: 0 <= i < |ops| ==> Sized(ops[i]) && !ops[i].Reopen?
    requires Shape(y.cache, {}) && NoDup(order) && y.cache.lru == Last(order, y.capacity)
    ensures var z := Run(c, y, ops).0;
      && Shape(z.cache, {})
      && z.cache.lru == Last(Recency(order, ops), y.capacity)
      && z.cache.frames.Keys == Elements(Last(Recency(order, ops), y.capacity))
    decreases |ops|
  {
    if ops == [] {
      assert y.cache.frames.Keys == Elements(y.cache.lru);
    } else {
      var y1 := Step(c, y, ops[0]).0;
      var ps := PagesOf(ops[0]);
      StepShape(c, y, ops[0]);
      LastTouch(y.cache.lru, order, ps, y.capacity);
      TouchNoDup(order, ops[0]);
      LruExact(c, y1, ops[1..], Touch(order, ps));
    }
  }

  lemma TouchNoDup(order: seq<nat>, op: Op)
    requires NoDup(order)
    ensures NoDup(Touch(order, PagesOf(op)))
  {
    var ps := PagesOf(op);
    RemoveAllNoDup(order, ps);
    match op {
      case Read(pos, size) => PagesNoDup(pos, size, 0);
      case Write(pos, data) => PagesNoDup(pos, |data|, 0);
      case Flush =>
      case Reopen(_) =>
    }
    NoDupConcat(RemoveAll(order, ps), ps);
  }

  lemma NoDupConcat(s: seq<nat>, t: seq<nat>)
    requires NoDup(s) && NoDup(t) && forall x :: x in s ==> x !in t
    ensures NoDup(s + t)
  {
    var r := s + t;
    forall i, j | 0 <= i < j < |r| ensures r[i] != r[j] {
      if i < |s| <= j {
        assert r[i] in s && r[j] in t;
      }
    }
  }

  /** A cache opened with capacity k holds, after any requests, the k most recently used pages, in recency order. */
  lemma OpenedLru(c: Cipher, disk: seq<Slot>, k: nat, ops: seq<Op>)
    requires forall i :: 0 <= i < |ops| ==> Sized(ops[i]) && !ops[i].Reopen?
    ensures var s := Run(c, Open(disk, k), ops).0.cache;
      && s.lru == Last(Recency([], ops), k)
      && s.frames.Keys == Elements(Last(Recency([], ops), k))
  {
    LruExact(c, Open(disk, k), ops, []);
  }

  /** The same after reopening with capacity k, whatever the cache was before. */
  lemma ReopenedLru(c: Cipher, y: System, k: nat, ops: seq<Op>)
    requires forall i :: 0 <= i < |ops| ==> Sized(ops[i]) && !ops[i].Reopen?
    ensures var s := Run(c, y, [Reopen(k)] + ops).0.cache;
      && s.lru == Last(Recency([], ops), k)
      && s.frames.Keys == Elements(Last(Recency([], ops), k))
  {
    hide Run, Recency, Last;
    RunReopen(c, y, k, ops);
    OpenedLru(c, Destroy(c, y.cache).disk, k, ops);
  }

  lemma RunReopen(c: Cipher, y: System, k: nat, ops: seq<Op>)
    requires forall i :: 0 <= i < |ops| ==> Sized(ops[i])
    ensures Run(c, y, [Reopen(k)] + ops).0 == Run(c, Open(Destroy(c, y.cache).disk, k), ops).0
  {
    hide Destroy, Open;
    assert ([Reopen(k)] + ops)[1..] == ops;
  }

  /** Inclusion: fed the same requests, a larger cache always holds the pages of a smaller one. */
  lemma LruInclusion(c: Cipher, disk: seq<Slot>, ops: seq<Op>, small: nat, large: nat)
    requires forall i :: 0 <= i < |ops| ==> Sized(ops[i]) && !ops[i].Reopen?
    requires small <= large
    ensures Run(c, Open(disk, small), ops).0.cache.frames.Keys
         <= Run(c, Open(disk, large), ops).0.cache.frames.Keys
  {
    hide Run, Open, Recency;
    OpenedLru(c, disk, small, ops);
    OpenedLru(c, disk, large, ops);
    var r := Recency([], ops);
    assert Last(r, small) == Last(Last(r, large), small);
  }

  // ----- truncate's walk -----

  lemma {:induction false} KeepUpToNoDup(s: seq<nat>, bound: nat)
    requires NoDup(s)
    ensures NoDup(KeepUpTo(s, bound))
    ensures forall p: nat :: p in KeepUpTo(s, bound) <==> p in s && p <= bound
  {
    if s != [] {
      KeepUpToNoDup(s[1..], bound);
      assert s == [s[0]] + s[1..];
      assert s[0] !in s[1..];
      NoDupConcat(if s[0] <= bound then [s[0]] else [], KeepUpTo(s[1..], bound));
    }
  }

  lemma KeepUpToFirst(s: seq<nat>, bound: nat)
    ensures KeepUpTo([], bound) == []
    ensures s != [] ==> KeepUpTo(s, bound) == (if s[0] <= bound then [s[0]] else []) + KeepUpTo(s[1..], bound)
  {
  }

  lemma {:induction false} KeepUpToSnoc(s: seq<nat>, p: nat, bound: nat)
    ensures KeepUpTo(s + [p], bound) == KeepUpTo(s, bound) + if p <= bound then [p] else []
  {
    hide KeepUpTo;
    var t := s + [p];
    KeepUpToFirst(s, bound);
    KeepUpToFirst(t, bound);
    if s == [] {
      assert t[1..] == [];
    } else {
      assert t[1..] == s[1..] + [p] && t[0] == s[0];
      KeepUpToSnoc(s[1..], p, bound);
    }
  }

  /** The pages that stay keep their order on the page list and on the LRU list. */
  lemma DropAboveOrder(s: Cache, p: nat, q: nat, bound: nat)
    ensures var t, u := DropAbove(s, bound), DropAbove(s.(list := s.list + [p], lru := s.lru + [q]), bound);
      && u.list == t.list + (if p <= bound then [p] else [])
      && u.lru == t.lru + (if q <= bound then [q] else [])
    ensures s.list == [] && s.lru == [] ==> DropAbove(s, bound).list == [] && DropAbove(s, bound).lru == []
  {
    KeepUpToSnoc(s.list, p, bound);
    KeepUpToSnoc(s.lru, q, bound);
  }

  /** The walk drops exactly the pages above the bound and writes nothing back. */
  lemma DropAboveShape(s: Cache, bound: nat)
    requires Shape(s, {})
    ensures var t := DropAbove(s, bound);
      && Shape(t, {})
      && t.disk == s.disk
      && t.frames.Keys == (set p | p in s.frames && p <= bound)
      && forall p: nat :: p in t.frames ==> t.frames[p] == s.frames[p]
  {
    KeepUpToNoDup(s.list, bound);
    KeepUpToNoDup(s.lru, bound);
  }
}
