/**
 The order in which flush writes: every dirty page once, in increasing page order, so that after each
 single write the file has no hole that it did not have before.
 */
module FlushOrders {
  import opened Sequences
  import opened Storage
  import opened CacheModel
  import opened Coherence
  import opened Containers

  // ----- writing pages back, as a value -----

  lemma {:induction false} FlushAllCoherent(c: Cipher, s: Cache, f: seq<byte>, gap: Gap, ps: seq<nat>)
    requires Coherent(c, s, f, gap)
    ensures Coherent(c, FlushAll(c, s, ps), f, gap)
    ensures forall p: nat :: IsDirty(FlushAll(c, s, ps), p) <==> IsDirty(s, p) && p !in ps
    ensures |s.disk| <= |FlushAll(c, s, ps).disk|
    ensures forall p :: p in ps && IsDirty(s, p) ==> p < |FlushAll(c, s, ps).disk|
    decreases |ps|
  {
    if ps != [] {
      var t := FlushPage(c, s, ps[0]);
      FlushPageCoherent(c, s, f, gap, ps[0]);
      FlushAllCoherent(c, t, f, gap, ps[1..]);
      assert ps == [ps[0]] + ps[1..];
      assert forall p: nat :: IsDirty(t, p) <==> IsDirty(s, p) && p != ps[0];
    }
  }

  lemma {:induction false} FlushAllSnoc(c: Cipher, s: Cache, ps: seq<nat>, p: nat)
    ensures FlushAll(c, s, ps + [p]) == FlushPage(c, FlushAll(c, s, ps), p)
    decreases |ps|
  {
    if ps == [] {
      assert ps + [p] == [p];
      assert FlushAll(c, FlushPage(c, s, p), []) == FlushPage(c, s, p);
    } else {
      assert (ps + [p])[1..] == ps[1..] + [p];
      FlushAllSnoc(c, FlushPage(c, s, ps[0]), ps[1..], p);
    }
  }

  lemma FlushAllNone(c: Cipher, s: Cache, ps: seq<nat>)
    requires ps == []
    ensures FlushAll(c, s, ps) == s
  {
  }

  // ----- sorting the dirty pages -----

  ghost predicate Increasing(s: seq<nat>) {
    forall i, j :: 0 <= i < j < |s| ==> s[i] < s[j]
  }

  lemma IncreasingCons(x: nat, s: seq<nat>)
    requires Increasing(s) && forall q :: q in s ==> x < q
    ensures Increasing([x] + s)
  {
    var r := [x] + s;
    forall i, j | 0 <= i < j < |r| ensures r[i] < r[j] {
      assert r[j] in s;
    }
  }

  lemma IncreasingTail(s: seq<nat>)
    requires Increasing(s) && s != []
    ensures Increasing(s[1..]) && s == [s[0]] + s[1..] && forall q :: q in s[1..] ==> s[0] < q
  {
  }

  lemma {:induction false} InsertIncreasing(p: nat, s: seq<nat>)
    requires Increasing(s) && p !in s
    ensures Increasing(Insert(p, s))
    ensures forall q :: q in Insert(p, s) <==> q == p || q in s
  {
    if s == [] {
      assert Insert(p, s) == [p];
    } else {
      hide Increasing;
      IncreasingTail(s);
      if p < s[0] {
        IncreasingCons(p, s);
      } else {
        InsertIncreasing(p, s[1..]);
        IncreasingCons(s[0], Insert(p, s[1..]));
      }
    }
  }

  lemma {:induction false} SortedIncreasing(s: seq<nat>)
    requires NoDup(s)
    ensures Increasing(Sorted(s))
    ensures forall q :: q in Sorted(s) <==> q in s
  {
    if s != [] {
      assert s == [s[0]] + s[1..];
      assert s[0] !in s[1..];
      SortedIncreasing(s[1..]);
      InsertIncreasing(s[0], Sorted(s[1..]));
    }
  }

  lemma {:induction false} DirtyOfNoDup(s: Cache, list: seq<nat>)
    requires NoDup(list)
    ensures NoDup(DirtyOf(s, list))
    ensures forall q :: q in DirtyOf(s, list) <==> q in list && IsDirty(s, q)
  {
    if list != [] {
      assert list == [list[0]] + list[1..];
      assert list[0] !in list[1..];
      DirtyOfNoDup(s, list[1..]);
      NoDupConcat(if IsDirty(s, list[0]) then [list[0]] else [], DirtyOf(s, list[1..]));
    }
  }

  /** Every dirty page, once, in increasing page order. */
  ghost predicate DirtyInOrder(s: Cache, order: seq<nat>) {
    Increasing(order) && forall p: nat :: p in order <==> IsDirty(s, p)
  }

  lemma SortedDirtyInOrder(s: Cache)
    requires NoDup(s.list) && forall p: nat :: p in s.frames ==> p in s.list
    ensures DirtyInOrder(s, Sorted(DirtyOf(s, s.list)))
  {
    DirtyOfNoDup(s, s.list);
    SortedIncreasing(DirtyOf(s, s.list));
  }

  lemma SmallerComeFirst(order: seq<nat>, k: nat)
    requires Increasing(order) && k < |order|
    ensures forall q :: q in order[..k] <==> q in order && q < order[k]
  {
    forall q | q in order && q < order[k] ensures q in order[..k] {
      var j :| 0 <= j < |order| && order[j] == q;
      assert order[..k][j] == q;
    }
  }

  // ----- after each write -----

  /** In page order, the next page written is never past the end of what is on the disk by then. */
  lemma FlushNextInReach(c: Cipher, s: Cache, f: seq<byte>, order: seq<nat>, k: nat)
    requires Coherent(c, s, f, NO_GAP) && DirtyInOrder(s, order) && k < |order|
    ensures order[k] <= |FlushAll(c, s, order[..k]).disk|
    ensures IsDirty(FlushAll(c, s, order[..k]), order[k])
  {
    hide FlushAll, Increasing, PageOf;
    FlushAllCoherent(c, s, f, NO_GAP, order[..k]);
    SmallerComeFirst(order, k);
    assert order[k] in order;
    if order[k] > 0 {
      var below: nat := order[k] - 1;
      assert Settled(c, s.disk, f, below) || IsDirty(s, below);
    }
  }

  /** Each slot is settled for the array or exactly what it was at first. */
  ghost predicate NoNewHole(c: Cipher, first: seq<Slot>, disk: seq<Slot>, f: seq<byte>) {
    forall q: nat :: q < |disk| ==> Settled(c, disk, f, q) || (q < |first| && disk[q] == first[q])
  }

  lemma {:induction false} FlushPrefix(c: Cipher, s: Cache, f: seq<byte>, order: seq<nat>, k: nat)
    requires Coherent(c, s, f, NO_GAP) && DirtyInOrder(s, order) && k <= |order|
    ensures NoNewHole(c, s.disk, FlushAll(c, s, order[..k]).disk, f)
    decreases k
  {
    hide FlushAll, PageOf, PageCount, NoNewHole, DirtyInOrder;
    if k > 0 {
      var p, t := order[k - 1], FlushAll(c, s, order[..k - 1]);
      FlushPrefix(c, s, f, order, k - 1);
      FlushNextInReach(c, s, f, order, k - 1);
      FlushAllCoherent(c, s, f, NO_GAP, order[..k - 1]);
      assert order[..k - 1] + [p] == order[..k];
      FlushAllSnoc(c, s, order[..k - 1], p);
      assert FlushPage(c, t, p).disk == SlotWrite(t.disk, p, c.enc(p, PageOf(f, p)));
      OneMoreSettled(c, s.disk, t.disk, f, p);
    } else {
      FlushAllNone(c, s, order[..k]);
      NothingWritten(c, s.disk, f);
    }
  }

  lemma NothingWritten(c: Cipher, first: seq<Slot>, f: seq<byte>)
    ensures NoNewHole(c, first, first, f)
  {
  }

  /** Writing page p in reach settles it and leaves every other slot alone. */
  lemma OneMoreSettled(c: Cipher, first: seq<Slot>, disk: seq<Slot>, f: seq<byte>, p: nat)
    requires p <= |disk| && NoNewHole(c, first, disk, f)
    ensures NoNewHole(c, first, SlotWrite(disk, p, c.enc(p, PageOf(f, p))), f)
  {
    hide PageOf;
    var d := SlotWrite(disk, p, c.enc(p, PageOf(f, p)));
    forall q: nat | q < |d| ensures Settled(c, d, f, q) || (q < |first| && d[q] == first[q]) {
      if q != p { assert Settled(c, disk, f, q) || (q < |first| && disk[q] == first[q]); }
    }
  }

  // ----- the writes themselves -----

  /** The writes that store these pages, in this order. */
  ghost function PageWrites(c: Cipher, s: Cache, order: seq<nat>): (puts: seq<Put>)
    ensures |puts| == |order|
  {
    seq(|order|, i requires 0 <= i < |order| => PageWrite(c, s, order[i]))
  }

  ghost function PageWrite(c: Cipher, s: Cache, p: nat): (w: Put) {
    Put(p * PAGE_SIZE_DISK, c.enc(p, Buffer(s, p)))
  }

  /** These writes store every dirty page once, in increasing page order, and nothing else. */
  ghost predicate StoresDirty(c: Cipher, s: Cache, puts: seq<Put>) {
    exists order: seq<nat> :: DirtyInOrder(s, order) && puts == PageWrites(c, s, order)
  }

  lemma PageWritesMore(c: Cipher, s: Cache, order: seq<nat>, k: nat)
    requires k < |order|
    ensures PageWrites(c, s, order)[..k + 1] == PageWrites(c, s, order)[..k] + [PageWrite(c, s, order[k])]
    ensures PageWrites(c, s, order[..k + 1]) == PageWrites(c, s, order)[..k + 1]
  {
  }

  /** What destroying these pages one after another writes: those that are dirty. */
  ghost function WriteBacks(c: Cipher, s: Cache, list: seq<nat>): (puts: seq<Put>) {
    PageWrites(c, s, DirtyOf(s, list))
  }

  /** One write for each dirty page, in the order of the list. */
  lemma WriteBacksInOrder(c: Cipher, s: Cache, list: seq<nat>, p: nat)
    ensures WriteBacks(c, s, list + [p]) == WriteBacks(c, s, list)
         + if p in s.frames && s.frames[p].dirty then [Put(p * 4128, c.enc(p, s.frames[p].buffer))] else []
    ensures WriteBacks(c, s, []) == []
  {
    DirtyOfSnoc(s, list, p);
  }

  lemma {:induction false} DirtyOfSnoc(s: Cache, list: seq<nat>, p: nat)
    ensures DirtyOf(s, list + [p]) == DirtyOf(s, list) + if IsDirty(s, p) then [p] else []
  {
    if list == [] {
      assert (list + [p])[1..] == [];
    } else {
      assert (list + [p])[1..] == list[1..] + [p];
      DirtyOfSnoc(s, list[1..], p);
    }
  }

  lemma {:induction false} WriteBacksSame(c: Cipher, s: Cache, t: Cache, list: seq<nat>)
    requires forall p :: p in list ==> Buffer(s, p) == Buffer(t, p) && (IsDirty(s, p) <==> IsDirty(t, p))
    ensures WriteBacks(c, s, list) == WriteBacks(c, t, list)
  {
    hide Buffer, WriteBacks, IsDirty;
    if list == [] {
      WriteBacksNone(c, s, list);
      WriteBacksNone(c, t, list);
    } else {
      assert list == [list[0]] + list[1..];
      WriteBacksSame(c, s, t, list[1..]);
      WriteBacksHead(c, s, list);
      WriteBacksHead(c, t, list);
    }
  }

  lemma WriteBacksNone(c: Cipher, s: Cache, list: seq<nat>)
    requires list == []
    ensures WriteBacks(c, s, list) == []
  {
  }

  lemma WriteBacksHead(c: Cipher, s: Cache, list: seq<nat>)
    requires list != []
    ensures WriteBacks(c, s, list)
         == (if IsDirty(s, list[0]) then [PageWrite(c, s, list[0])] else []) + WriteBacks(c, s, list[1..])
  {
  }

  /** Destroying the first page of a list leaves the others to be written. */
  lemma DeleteHeadWrites(c: Cipher, s: Cache, t: Cache, list: seq<nat>)
    requires list != [] && NoDup(list) && t.frames == s.frames - {list[0]}
    ensures WriteBacks(c, s, list)
         == (if IsDirty(s, list[0]) then [PageWrite(c, s, list[0])] else []) + WriteBacks(c, t, list[1..])
  {
    hide WriteBacks;
    WriteBacksHead(c, s, list);
    assert forall p :: p in list[1..] ==> p != list[0];
    WriteBacksSame(c, s, t, list[1..]);
  }

  /** Replaying the first k writes on the file does to its slots what writing back the first k pages does. */
  lemma {:induction false} WritesStore(c: Cipher, s: Cache, data: seq<byte>, f: seq<byte>, order: seq<nat>, k: nat)
    requires Aligned(data) && s.disk == SlotsOf(data) && Coherent(c, s, f, NO_GAP)
    requires DirtyInOrder(s, order) && k <= |order|
    ensures var now := Replay(data, PageWrites(c, s, order)[..k]);
      Aligned(now) && SlotsOf(now) == FlushAll(c, s, order[..k]).disk
    decreases k
  {
    hide FlushAll, PageOf, PageCount, DirtyInOrder, SlotsOf, FileWrite, PageWrites, SlotWrite, Replay;
    var puts := PageWrites(c, s, order);
    if k > 0 {
      var p, t := order[k - 1], FlushAll(c, s, order[..k - 1]);
      var before := Replay(data, puts[..k - 1]);
      WritesStore(c, s, data, f, order, k - 1);
      FlushNextInReach(c, s, f, order, k - 1);
      FlushAllCoherent(c, s, f, NO_GAP, order[..k - 1]);
      assert order[..k - 1] + [p] == order[..k];
      FlushAllSnoc(c, s, order[..k - 1], p);
      PageWritesMore(c, s, order, k - 1);
      ReplayMore(data, puts[..k - 1], PageWrite(c, s, p));
      assert t.frames[p].buffer == PageOf(f, p) && IsDirty(s, p);
      assert s.frames[p].buffer == PageOf(f, p);
      FileWriteIsSlotWrite(before, p, c.enc(p, PageOf(f, p)));
    } else {
      FlushAllNone(c, s, order[..k]);
      ReplayNone(data, puts[..k]);
    }
  }

  lemma ReplayNone(data: seq<byte>, puts: seq<Put>)
    requires puts == []
    ensures Replay(data, puts) == data
  {
  }

  /**
   Whatever moment of these writes the file is looked at, the next write starts at or before its end, and
   each of its slots is settled for the array or what it was before the first write.
   */
  ghost predicate OpensNoHole(c: Cipher, data: seq<byte>, puts: seq<Put>, f: seq<byte>) {
    Aligned(data) &&
    forall k: nat :: k <= |puts| ==>
      var now := Replay(data, puts[..k]);
      && Aligned(now) && NoNewHole(c, SlotsOf(data), SlotsOf(now), f)
      && (k < |puts| ==> puts[k].offset <= |now|)
  }

  /**
   Storing the dirty pages in page order never opens a hole, even when earlier evictions have left some.
   */
  lemma FlushOpensNoHole(c: Cipher, s: Cache, data: seq<byte>, f: seq<byte>, puts: seq<Put>)
    requires Aligned(data) && s.disk == SlotsOf(data) && Coherent(c, s, f, NO_GAP)
    requires StoresDirty(c, s, puts)
    ensures OpensNoHole(c, data, puts, f)
  {
    var order: seq<nat> :| DirtyInOrder(s, order) && puts == PageWrites(c, s, order);
    forall k: nat | k <= |puts|
      ensures var now := Replay(data, puts[..k]);
        && Aligned(now) && NoNewHole(c, SlotsOf(data), SlotsOf(now), f)
        && (k < |puts| ==> puts[k].offset <= |now|)
    {
      FlushMoment(c, s, data, f, order, k);
    }
  }

  lemma FlushMoment(c: Cipher, s: Cache, data: seq<byte>, f: seq<byte>, order: seq<nat>, k: nat)
    requires Aligned(data) && s.disk == SlotsOf(data) && Coherent(c, s, f, NO_GAP)
    requires DirtyInOrder(s, order) && k <= |order|
    ensures var now := Replay(data, PageWrites(c, s, order)[..k]);
      && Aligned(now) && NoNewHole(c, SlotsOf(data), SlotsOf(now), f)
      && (k < |order| ==> PageWrites(c, s, order)[k].offset <= |now|)
  {
    hide FlushAll, Coherent, DirtyInOrder, NoNewHole, Replay, IsDirty;
    WritesStore(c, s, data, f, order, k);
    FlushPrefix(c, s, f, order, k);
    if k < |order| {
      FlushNextInReach(c, s, f, order, k);
      var now := Replay(data, PageWrites(c, s, order)[..k]);
      assert order[k] * PAGE_SIZE_DISK <= |SlotsOf(now)| * PAGE_SIZE_DISK;
    }
  }
}
