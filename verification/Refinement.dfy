/**
 The main results about the cache: whole requests and whole runs agree with a flat byte array,
 flush and the destructor leave the same complete file, and reopening loses nothing. A write that
 starts past the end of the array is the one exception, and its exact extent is proved.
 */
module Refinement {
  import opened Sequences
  import opened Storage
  import opened CacheModel
  import opened Coherence
  import opened Containers
  import opened FlushOrders

  // ----- requests -----

  lemma {:induction false} GetPagesCoherent(c: Cipher, s: Cache, f: seq<byte>, gap: Gap, ps: seq<nat>)
    requires c.Lawful() && Coherent(c, s, f, gap)
    ensures Coherent(c, GetPages(c, s, ps), f, gap)
    decreases |ps|
  {
    if ps != [] {
      GetPageCoherent(c, s, f, gap, ps[0]);
      GetPagesCoherent(c, GetPage(c, s, ps[0]), f, gap, ps[1..]);
    }
  }

  lemma FlatReadSplit(f: seq<byte>, pos: nat, a: nat, b: nat)
    ensures FlatRead(f, pos, a) + FlatRead(f, pos + a, b) == FlatRead(f, pos, a + b)
  {
  }

  lemma FlatWriteSplit(f: seq<byte>, pos: nat, a: seq<byte>, b: seq<byte>)
    requires a != [] && b != []
    ensures FlatWrite(FlatWrite(f, pos, a), pos + |a|, b) == FlatWrite(f, pos, a + b)
  {
    var g := FlatWrite(f, pos, a);
    var h, k := FlatWrite(g, pos + |a|, b), FlatWrite(f, pos, a + b);
    assert WriteEnd(pos + |a|, |b|) == WriteEnd(pos, |a + b|);
    assert WriteEnd(pos, |a|) <= WriteEnd(pos, |a + b|);
    forall i | 0 <= i < |h| ensures h[i] == k[i] {
      assert h[i] == ByteAt(h, i) && k[i] == ByteAt(k, i);
    }
  }

  /** One turn of the read loop copies out bytes of the array. */
  lemma ReadOnePiece(c: Cipher, s: Cache, pos: nat, len: nat, f: seq<byte>, max: nat)
    requires pos / PAGE_SIZE in s.frames && Coherent(c, s, f, NO_GAP)
    requires len <= PAGE_SIZE - pos % PAGE_SIZE
    ensures Coherent(c, ReleasePage(c, s, pos / PAGE_SIZE, max), f, NO_GAP)
    ensures Buffer(s, pos / PAGE_SIZE)[pos % PAGE_SIZE..pos % PAGE_SIZE + len] == FlatRead(f, pos, len)
  {
    PageOfPiece(f, pos / PAGE_SIZE, pos % PAGE_SIZE, len);
    ReleaseCoherent(c, s, f, NO_GAP, pos / PAGE_SIZE, max);
  }

  lemma {:induction false} ReadPiecesFlat(c: Cipher, s: Cache, ps: seq<Piece>, pos: nat, size: nat, inArg: nat,
      f: seq<byte>, max: nat)
    requires InPages(ps) && Tiles(ps, pos, size, inArg)
    requires ReadServed(c, s, ps, max) && Coherent(c, s, f, NO_GAP)
    ensures Coherent(c, ReadPieces(c, s, ps, max).0, f, NO_GAP)
    ensures ReadPieces(c, s, ps, max).1 == FlatRead(f, pos, size)
    decreases |ps|
  {
    hide Coherent, ReleasePage, ByteAt, PageOf;
    if size > 0 {
      var len, t := ps[0].len, ReleasePage(c, s, pos / PAGE_SIZE, max);
      ReadOnePiece(c, s, pos, len, f, max);
      ReadPiecesFlat(c, t, ps[1..], pos + len, size - len, inArg + len, f, max);
      FlatReadSplit(f, pos, len, size - len);
    }
  }

  /** One turn of the write loop stores one piece into the array. */
  lemma WriteOnePiece(c: Cipher, s: Cache, pos: nat, bytes: seq<byte>, f: seq<byte>, gap: Gap, max: nat)
    requires pos / PAGE_SIZE in s.frames && Coherent(c, s, f, gap)
    requires bytes != [] && |bytes| <= PAGE_SIZE - pos % PAGE_SIZE
    requires gap == NO_GAP || (gap.hi <= pos / PAGE_SIZE <= PageCount(f))
    ensures Coherent(c, ReleasePage(c, Poke(s, pos / PAGE_SIZE, pos % PAGE_SIZE, bytes), pos / PAGE_SIZE, max),
                     FlatWrite(f, pos, bytes), SkippedBy(f, gap, pos / PAGE_SIZE))
  {
    var p := pos / PAGE_SIZE;
    PokeCoherent(c, s, f, gap, p, pos % PAGE_SIZE, bytes);
    ReleaseCoherent(c, Poke(s, p, pos % PAGE_SIZE, bytes), FlatWrite(f, pos, bytes), SkippedBy(f, gap, p), p, max);
  }

  /** What the first turn of the write loop copies, and what it leaves to the others. */
  lemma FirstPiece(c: Cipher, s: Cache, ps: seq<Piece>, pos: nat, data: seq<byte>, inArg: nat, max: nat)
    requires inArg < |data| && Fit(ps, |data|) && Tiles(ps, pos, |data| - inArg, inArg)
    requires WriteServed(c, s, ps, data, max)
    ensures ps != [] && pos / PAGE_SIZE in s.frames && 0 < ps[0].len <= PAGE_SIZE - pos % PAGE_SIZE
    ensures inArg + ps[0].len <= |data| && Fit(ps[1..], |data|)
    ensures var len, p := ps[0].len, pos / PAGE_SIZE;
      var t := ReleasePage(c, Poke(s, p, pos % PAGE_SIZE, data[inArg..inArg + len]), p, max);
      && WritePieces(c, s, ps, data, max) == WritePieces(c, t, ps[1..], data, max)
      && WriteServed(c, t, ps[1..], data, max)
      && Tiles(ps[1..], pos + len, |data| - (inArg + len), inArg + len)
      && (inArg + len < |data| ==> len == PAGE_SIZE - pos % PAGE_SIZE)
  {
    hide ReleasePage, Poke;
  }

  lemma NoPieceLeft(c: Cipher, s: Cache, ps: seq<Piece>, pos: nat, data: seq<byte>, inArg: nat, max: nat)
    requires inArg == |data| && Fit(ps, |data|) && Tiles(ps, pos, 0, inArg)
    ensures WritePieces(c, s, ps, data, max) == s
  {
  }

  lemma {:induction false} WritePiecesFlat(c: Cipher, s: Cache, ps: seq<Piece>, pos: nat, data: seq<byte>, inArg: nat,
      f: seq<byte>, gap: Gap, max: nat)
    requires inArg < |data| && Fit(ps, |data|) && Tiles(ps, pos, |data| - inArg, inArg)
    requires WriteServed(c, s, ps, data, max)
    requires Coherent(c, s, f, gap)
    requires gap == NO_GAP || (gap.hi <= pos / PAGE_SIZE <= PageCount(f))
    ensures Coherent(c, WritePieces(c, s, ps, data, max), FlatWrite(f, pos, data[inArg..]),
                     SkippedBy(f, gap, pos / PAGE_SIZE))
    decreases |ps|
  {
    hide Coherent, ReleasePage, Poke, FlatWrite, ByteAt, PageOf, SkippedBy, PageCount, Fit, Tiles, WriteServed,
         WritePieces;
    FirstPiece(c, s, ps, pos, data, inArg, max);
    var len, p := ps[0].len, pos / PAGE_SIZE;
    var bytes, rest := data[inArg..inArg + len], data[inArg + len..];
    var t, g := ReleasePage(c, Poke(s, p, pos % PAGE_SIZE, bytes), p, max), FlatWrite(f, pos, bytes);
    WriteOnePiece(c, s, pos, bytes, f, gap, max);
    assert data[inArg..] == bytes + rest;
    if rest == [] {
      assert data[inArg..] == bytes;
      NoPieceLeft(c, t, ps[1..], pos + len, data, inArg + len, max);
    } else {
      NextPage(f, gap, pos, bytes);
      FlatWriteSplit(f, pos, bytes, rest);
      WritePiecesFlat(c, t, ps[1..], pos + len, data, inArg + len, g, SkippedBy(f, gap, p), max);
    }
  }

  /** After a piece that fills its page to the end, the next page is not past the end and skips nothing. */
  lemma NextPage(f: seq<byte>, gap: Gap, pos: nat, bytes: seq<byte>)
    requires bytes != [] && |bytes| == PAGE_SIZE - pos % PAGE_SIZE && gap.hi <= pos / PAGE_SIZE
    ensures var g, next := FlatWrite(f, pos, bytes), (pos + |bytes|) / PAGE_SIZE;
      var skipped := SkippedBy(f, gap, pos / PAGE_SIZE);
      next == pos / PAGE_SIZE + 1 && skipped.hi <= next <= PageCount(g) && SkippedBy(g, skipped, next) == skipped
  {
    assert WriteEnd(pos, |bytes|) == (pos / PAGE_SIZE + 1) * PAGE_SIZE;
  }

  /** A whole read: the bytes of the array, and the array unchanged. */
  lemma ReadFlat(c: Cipher, s: Cache, pos: nat, size: nat, f: seq<byte>, max: nat)
    requires c.Lawful() && Shape(s, {}) && Coherent(c, s, f, NO_GAP)
    ensures Coherent(c, ReadRequest(c, s, pos, size, max).0, f, NO_GAP)
    ensures ReadRequest(c, s, pos, size, max).1 == FlatRead(f, pos, size)
  {
    hide Coherent, Shape, FlatRead, Tiles, ReadServed, ReadPieces, GetPages, Pieces, Pages;
    var ps := Pieces(pos, size, 0);
    RequestServed(c, s, pos, Zeros(size), max);
    GetPagesCoherent(c, s, f, NO_GAP, Pages(ps));
    PiecesTiles(pos, size, 0);
    ReadPiecesFlat(c, GetPages(c, s, Pages(ps)), ps, pos, size, 0, f, max);
  }

  /** A whole write: the array with the bytes stored, and the pages it skipped past the end. */
  lemma WriteFlat(c: Cipher, s: Cache, pos: nat, data: seq<byte>, f: seq<byte>, max: nat)
    requires c.Lawful() && Shape(s, {}) && Coherent(c, s, f, NO_GAP) && data != []
    ensures Coherent(c, WriteRequest(c, s, pos, data, max), FlatWrite(f, pos, data),
                     SkippedBy(f, NO_GAP, pos / PAGE_SIZE))
  {
    hide Coherent, Shape, FlatWrite, Fit, Tiles, WriteServed, WritePieces, GetPages, Pieces, Pages;
    var ps := Pieces(pos, |data|, 0);
    RequestServed(c, s, pos, data, max);
    GetPagesCoherent(c, s, f, NO_GAP, Pages(ps));
    PiecesTiles(pos, |data|, 0);
    WritePiecesFlat(c, GetPages(c, s, Pages(ps)), ps, pos, data, 0, f, NO_GAP, max);
    assert data[0..] == data;
  }

  // ----- flush -----

  lemma FlushClean(c: Cipher, s: Cache, f: seq<byte>, gap: Gap)
    requires Shape(s, {}) && Coherent(c, s, f, gap)
    ensures Shape(FlushCache(c, s), {}) && Coherent(c, FlushCache(c, s), f, gap)
    ensures forall p: nat :: !IsDirty(FlushCache(c, s), p)
  {
    SortedDirtyInOrder(s);
    FlushAllShape(c, s, {}, Sorted(DirtyOf(s, s.list)));
    FlushAllCoherent(c, s, f, gap, Sorted(DirtyOf(s, s.list)));
  }

  // ----- the complete file -----

  /** The disk holds exactly the pages of the array, each encrypted in its slot. */
  ghost predicate Complete(c: Cipher, disk: seq<Slot>, f: seq<byte>) {
    |f| % PAGE_SIZE == 0 && |disk| == PageCount(f) && forall p: nat :: p < |disk| ==> Settled(c, disk, f, p)
  }

  lemma CleanIsComplete(c: Cipher, s: Cache, f: seq<byte>)
    requires Coherent(c, s, f, NO_GAP) && forall p: nat :: !IsDirty(s, p)
    ensures Complete(c, s.disk, f)
  {
    var n := PageCount(f);
    if n > 0 {
      var p: nat := n - 1;
      assert !IsDirty(s, p);
      assert Settled(c, s.disk, f, p);
    }
  }

  lemma {:induction false} DestroyCoherent(c: Cipher, s: Cache, pins: set<nat>, f: seq<byte>, gap: Gap)
    requires Shape(s, pins) && Coherent(c, s, f, gap)
    ensures Coherent(c, Destroy(c, s), f, gap)
    ensures Destroy(c, s).frames == map[]
    decreases |s.list|
  {
    if s.list == [] {
      assert s.frames.Keys == {};
    } else {
      var p, t := s.list[0], s.(lru := Remove(s.lru, s.list[0]));
      assert p in s.list;
      RemoveNoDup(s.lru, p);
      assert Shape(t, pins + {p});
      assert forall q: nat :: IsDirty(t, q) <==> IsDirty(s, q);
      DeletePageCoherent(c, t, f, gap, p);
      DeletePageShape(c, t, pins + {p}, p);
      DestroyCoherent(c, DeletePage(c, t, p), pins + {p} - {p}, f, gap);
    }
  }

  /** Flush and the destructor leave the same file, complete for the array. */
  lemma FlushAndDestroyComplete(c: Cipher, s: Cache, f: seq<byte>)
    requires Shape(s, {}) && Coherent(c, s, f, NO_GAP)
    ensures Complete(c, FlushCache(c, s).disk, f)
    ensures Destroy(c, s).disk == FlushCache(c, s).disk
    ensures SizeOfFile(|FlushCache(c, s).disk| * PAGE_SIZE_DISK) == |f|
  {
    FlushClean(c, s, f, NO_GAP);
    CleanIsComplete(c, FlushCache(c, s), f);
    DestroyCoherent(c, s, {}, f, NO_GAP);
    CleanIsComplete(c, Destroy(c, s), f);
    CompleteUnique(c, Destroy(c, s).disk, FlushCache(c, s).disk, f);
  }

  lemma CompleteUnique(c: Cipher, d: seq<Slot>, e: seq<Slot>, f: seq<byte>)
    requires Complete(c, d, f) && Complete(c, e, f)
    ensures d == e
  {
    forall p: nat | p < |d| ensures d[p] == e[p] {
      assert Settled(c, d, f, p) && Settled(c, e, f, p);
    }
  }

  lemma OpenCoherent(c: Cipher, disk: seq<Slot>, f: seq<byte>, capacity: nat)
    requires Complete(c, disk, f)
    ensures Sync(c, Open(disk, capacity), f)
  {
  }

  // ----- whole runs -----

  /** The open cache stands for the array f, and its file_size is the length of f. */
  ghost predicate Sync(c: Cipher, y: System, f: seq<byte>) {
    && Coherent(c, y.cache, f, NO_GAP) && Shape(y.cache, {})
    && |y.cache.lru| <= y.capacity && y.fileSize == |f|
  }

  function FlatStep(f: seq<byte>, op: Op): (r: (seq<byte>, seq<byte>))
    requires Sized(op)
  {
    match op
    case Read(pos, size) => (f, FlatRead(f, pos, size))
    case Write(pos, data) => (FlatWrite(f, pos, data), [])
    case Flush => (f, [])
    case Reopen(_) => (f, [])
  }

  function FlatRun(f: seq<byte>, ops: seq<Op>): (r: (seq<byte>, seq<seq<byte>>))
    requires forall i :: 0 <= i < |ops| ==> Sized(ops[i])
    decreases |ops|
  {
    if ops == [] then (f, [])
    else
      var (g, out) := FlatStep(f, ops[0]);
      var (h, outs) := FlatRun(g, ops[1..]);
      (h, [out] + outs)
  }

  /** A write may start anywhere in the array, or in the first page past its end. */
  ghost predicate Allowed(f: seq<byte>, op: Op) {
    op.Write? ==> op.pos / PAGE_SIZE <= PageCount(f)
  }

  ghost predicate RunAllowed(f: seq<byte>, ops: seq<Op>)
    requires forall i :: 0 <= i < |ops| ==> Sized(ops[i])
    decreases |ops|
  {
    ops == [] || (Allowed(f, ops[0]) && RunAllowed(FlatStep(f, ops[0]).0, ops[1..]))
  }

  lemma StepSync(c: Cipher, y: System, f: seq<byte>, op: Op)
    requires c.Lawful() && Sized(op) && Sync(c, y, f) && Allowed(f, op)
    ensures Sync(c, Step(c, y, op).0, FlatStep(f, op).0)
    ensures Step(c, y, op).1 == FlatStep(f, op).1
  {
    match op
    case Read(pos, size) =>
      ReadFlat(c, y.cache, pos, size, f, y.capacity);
      StepShape(c, y, op);
    case Write(pos, data) =>
      WriteFlat(c, y.cache, pos, data, f, y.capacity);
      StepShape(c, y, op);
    case Flush =>
      FlushClean(c, y.cache, f, NO_GAP);
      StepShape(c, y, op);
    case Reopen(capacity) =>
      FlushAndDestroyComplete(c, y.cache, f);
      OpenCoherent(c, Destroy(c, y.cache).disk, f, capacity);
  }

  /** `y'` and `out` answer the operation for every array that `y` stands for, as the flat array does. */
  ghost predicate Answers(c: Cipher, y: System, op: Op, y': System, out: seq<byte>)
    requires Sized(op)
  {
    forall f: seq<byte> :: Sync(c, y, f) && Allowed(f, op) ==>
      Sync(c, y', FlatStep(f, op).0) && out == FlatStep(f, op).1
  }

  lemma StepAnswers(c: Cipher, y: System, op: Op)
    requires c.Lawful() && Sized(op)
    ensures Answers(c, y, op, Step(c, y, op).0, Step(c, y, op).1)
  {
    hide Sync, Step, FlatStep;
    forall f: seq<byte> | Sync(c, y, f) && Allowed(f, op)
      ensures Sync(c, Step(c, y, op).0, FlatStep(f, op).0) && Step(c, y, op).1 == FlatStep(f, op).1
    {
      StepSync(c, y, f, op);
    }
  }

  /**
   Refinement: for every sequence of reads, writes, flushes and reopenings, with any capacities,
   each operation returns what the flat array returns, and the cache still stands for that array.
   */
  lemma {:induction false} RunRefinesFlatArray(c: Cipher, y: System, f: seq<byte>, ops: seq<Op>)
    requires c.Lawful() && Sync(c, y, f)
    requires (forall i :: 0 <= i < |ops| ==> Sized(ops[i])) && RunAllowed(f, ops)
    ensures Run(c, y, ops).1 == FlatRun(f, ops).1
    ensures Sync(c, Run(c, y, ops).0, FlatRun(f, ops).0)
    decreases |ops|
  {
    if ops != [] {
      StepSync(c, y, f, ops[0]);
      RunRefinesFlatArray(c, Step(c, y, ops[0]).0, FlatStep(f, ops[0]).0, ops[1..]);
    }
  }

  /** The i-th answer of a run is the answer to the i-th operation, where the first i operations have led. */
  lemma {:induction false} AnswersInTurn(c: Cipher, y: System, f: seq<byte>, ops: seq<Op>, i: nat)
    requires (forall j :: 0 <= j < |ops| ==> Sized(ops[j])) && i < |ops|
    ensures |Run(c, y, ops).1| == |FlatRun(f, ops).1| == |ops|
    ensures Run(c, y, ops).1[i] == Step(c, Run(c, y, ops[..i]).0, ops[i]).1
    ensures FlatRun(f, ops).1[i] == FlatStep(FlatRun(f, ops[..i]).0, ops[i]).1
    decreases |ops|
  {
    hide Step, FlatStep;
    var y1, f1 := Step(c, y, ops[0]).0, FlatStep(f, ops[0]).0;
    RunLengths(c, y, f, ops);
    if i > 0 {
      AnswersInTurn(c, y1, f1, ops[1..], i - 1);
      assert ops[..i][0] == ops[0] && ops[..i][1..] == ops[1..][..i - 1];
    }
  }

  lemma {:induction false} RunLengths(c: Cipher, y: System, f: seq<byte>, ops: seq<Op>)
    requires forall j :: 0 <= j < |ops| ==> Sized(ops[j])
    ensures |Run(c, y, ops).1| == |FlatRun(f, ops).1| == |ops|
    decreases |ops|
  {
    hide Step, FlatStep;
    if ops != [] {
      RunLengths(c, Step(c, y, ops[0]).0, FlatStep(f, ops[0]).0, ops[1..]);
    }
  }

  // ----- starting from a file -----

  /** Every slot of the file is the encryption of some page. */
  ghost predicate WellFormed(c: Cipher, disk: seq<Slot>) {
    forall p: nat :: p < |disk| ==> disk[p] == c.enc(p, c.dec(p, disk[p]))
  }

  function Contents(c: Cipher, disk: seq<Slot>): (f: seq<byte>) {
    seq(|disk| * PAGE_SIZE, i requires 0 <= i < |disk| * PAGE_SIZE =>
      c.dec(i / PAGE_SIZE, disk[i / PAGE_SIZE])[i % PAGE_SIZE])
  }

  lemma ContentsComplete(c: Cipher, disk: seq<Slot>)
    requires WellFormed(c, disk)
    ensures Complete(c, disk, Contents(c, disk))
  {
    var f := Contents(c, disk);
    forall p: nat | p < |disk| ensures Settled(c, disk, f, p) {
      forall i | 0 <= i < PAGE_SIZE ensures PageOf(f, p)[i] == c.dec(p, disk[p])[i] {
        assert p * PAGE_SIZE + i < |disk| * PAGE_SIZE;
        assert (p * PAGE_SIZE + i) / PAGE_SIZE == p && (p * PAGE_SIZE + i) % PAGE_SIZE == i;
      }
      assert PageOf(f, p) == c.dec(p, disk[p]);
    }
  }

  /** A file that is complete for an array is well-formed, and opening it gives that array back. */
  lemma CompleteContents(c: Cipher, disk: seq<Slot>, f: seq<byte>)
    requires c.Lawful() && Complete(c, disk, f)
    ensures WellFormed(c, disk) && Contents(c, disk) == f
  {
    forall p: nat | p < |disk| ensures c.dec(p, disk[p]) == PageOf(f, p) && disk[p] == c.enc(p, PageOf(f, p)) {
      assert Settled(c, disk, f, p);
    }
    forall i | 0 <= i < |f| ensures Contents(c, disk)[i] == f[i] {
      assert i / PAGE_SIZE < |disk| && i == i / PAGE_SIZE * PAGE_SIZE + i % PAGE_SIZE;
    }
  }

  /** From a well-formed file, under any capacity, every run behaves as the decrypted array does. */
  lemma OpenedFileRefines(c: Cipher, disk: seq<Slot>, capacity: nat, ops: seq<Op>)
    requires c.Lawful() && WellFormed(c, disk)
    requires (forall i :: 0 <= i < |ops| ==> Sized(ops[i])) && RunAllowed(Contents(c, disk), ops)
    ensures Run(c, Open(disk, capacity), ops).1 == FlatRun(Contents(c, disk), ops).1
    ensures Run(c, Open(disk, capacity), ops).0.fileSize == |FlatRun(Contents(c, disk), ops).0|
  {
    ContentsComplete(c, disk);
    OpenCoherent(c, disk, Contents(c, disk), capacity);
    RunRefinesFlatArray(c, Open(disk, capacity), Contents(c, disk), ops);
  }

  /**
   Holes are always shadowed: after any run, each page below file_size is cached and dirty or validly
   encrypted in its slot, no slot lies past the last page, and a clean cached page is what its slot decrypts to.
   */
  lemma HolesAlwaysShadowed(c: Cipher, disk: seq<Slot>, capacity: nat, ops: seq<Op>, p: nat)
    requires c.Lawful() && WellFormed(c, disk)
    requires (forall i :: 0 <= i < |ops| ==> Sized(ops[i])) && RunAllowed(Contents(c, disk), ops)
    ensures var y := Run(c, Open(disk, capacity), ops).0;
      var s, pages := y.cache, y.fileSize / PAGE_SIZE;
      && y.fileSize == pages * PAGE_SIZE && |s.disk| <= pages
      && (p < pages && !IsDirty(s, p) ==> p < |s.disk| && s.disk[p] == c.enc(p, c.dec(p, s.disk[p])))
      && (p in s.frames && !IsDirty(s, p) ==> s.frames[p].buffer == SlotRead(c, s.disk, p))
  {
    var f := Contents(c, disk);
    ContentsComplete(c, disk);
    OpenCoherent(c, disk, f, capacity);
    RunRefinesFlatArray(c, Open(disk, capacity), f, ops);
    var y, g := Run(c, Open(disk, capacity), ops).0, FlatRun(f, ops).0;
    if p < PageCount(g) {
      assert Settled(c, y.cache.disk, g, p) || IsDirty(y.cache, p);
    } else {
      PageBeyondEnd(g, p);
    }
  }

  // ----- writes past the end -----

  /** Closing after a write that skipped page p leaves p as a hole. */
  lemma SkippedPageIsHole(c: Cipher, y: System, f: seq<byte>, pos: nat, data: seq<byte>, p: nat)
    requires c.Lawful() && Sync(c, y, f) && Sized(Op.Write(pos, data))
    requires PageCount(f) <= p < pos / PAGE_SIZE
    ensures SlotRead(c, Destroy(c, Step(c, y, Op.Write(pos, data)).0.cache).disk, p) == c.dec(p, HOLE)
  {
    var s := WriteRequest(c, y.cache, pos, data, y.capacity);
    var g, gap := FlatWrite(f, pos, data), SkippedBy(f, NO_GAP, pos / PAGE_SIZE);
    WriteFlat(c, y.cache, pos, data, f, y.capacity);
    StepShape(c, y, Op.Write(pos, data));
    DestroyCoherent(c, s, {}, g, gap);
    var last: nat := PageCount(g) - 1;
    assert !gap.Has(last) && gap.Has(p);
    assert !IsDirty(Destroy(c, s), last);
    assert Settled(c, Destroy(c, s).disk, g, last);
  }

  lemma ReadWholePage(c: Cipher, disk: seq<Slot>, capacity: nat, p: nat)
    requires p <= MAX_PAGE
    ensures Step(c, Open(disk, capacity), Op.Read(p * PAGE_SIZE, PAGE_SIZE)).1 == SlotRead(c, disk, p)
  {
    var s, x := Opened(disk), SlotRead(c, disk, p);
    var ps := Pieces(p * PAGE_SIZE, PAGE_SIZE, 0);
    assert ps == [Piece(p, 0, 0, PAGE_SIZE)];
    assert Pages(ps) == [p] && Pages(ps)[1..] == [] && ps[1..] == [];
    var t := GetPage(c, s, p);
    assert GetPages(c, s, Pages(ps)) == GetPages(c, t, []) == t;
    assert Buffer(t, p) == x && x[0..PAGE_SIZE] == x;
    assert ReadPieces(c, ReleasePage(c, t, p, capacity), [], capacity).1 == [];
  }

  /** Every read returns what the array returns. */
  ghost predicate ReadsAs(c: Cipher, y: System, f: seq<byte>) {
    forall at: nat, size: nat :: Sized(Op.Read(at, size)) ==> Step(c, y, Op.Read(at, size)).1 == FlatRead(f, at, size)
  }

  lemma SyncReadsAs(c: Cipher, y: System, f: seq<byte>)
    requires c.Lawful() && Sync(c, y, f)
    ensures ReadsAs(c, y, f)
  {
    hide Sync, Step, Sized, FlatRead;
    forall at: nat, size: nat | Sized(Op.Read(at, size))
      ensures Step(c, y, Op.Read(at, size)).1 == FlatRead(f, at, size)
    {
      StepSync(c, y, f, Op.Read(at, size));
    }
  }

  lemma SkippedPageIsLost(c: Cipher, y: System, f: seq<byte>, pos: nat, data: seq<byte>, capacity: nat)
    requires c.Lawful() && Sync(c, y, f) && Sized(Op.Write(pos, data))
    requires PageCount(f) < pos / PAGE_SIZE && c.dec(PageCount(f), HOLE) != ZERO_PAGE
    ensures !ReadsAs(c, Step(c, Step(c, y, Op.Write(pos, data)).0, Reopen(capacity)).0, FlatWrite(f, pos, data))
  {
    assert |f| % PAGE_SIZE == 0;
    hide Sync, Step, Sized, Destroy, FlatWrite, FlatRead, SlotRead;
    var y1, p := Step(c, y, Op.Write(pos, data)).0, PageCount(f);
    SkippedPageIsHole(c, y, f, pos, data, p);
    SkippedPageIsZero(f, pos, data);
    StepReopen(c, y1, capacity);
    ReadWholePage(c, Destroy(c, y1.cache).disk, capacity, p);
  }

  lemma StepReopen(c: Cipher, y: System, capacity: nat)
    ensures Step(c, y, Reopen(capacity)).0 == Open(Destroy(c, y.cache).disk, capacity)
  {
  }

  /** In the array, the first page that a write skips holds zeros. */
  lemma SkippedPageIsZero(f: seq<byte>, pos: nat, data: seq<byte>)
    requires Sized(Op.Write(pos, data)) && PageCount(f) < pos / PAGE_SIZE && |f| % PAGE_SIZE == 0
    ensures Sized(Op.Read(PageCount(f) * PAGE_SIZE, PAGE_SIZE)) && PageCount(f) <= MAX_PAGE
    ensures FlatRead(FlatWrite(f, pos, data), PageCount(f) * PAGE_SIZE, PAGE_SIZE) == ZERO_PAGE
  {
    assert (PageCount(f) + 1) * PAGE_SIZE <= pos;
  }

  /**
   For a cipher that does not happen to decrypt a hole to zeros, a write followed by closing and
   reopening reads back as the array everywhere exactly when the write did not start beyond the
   first page past the end.
   */
  lemma WriteSurvivesReopenExactly(c: Cipher, y: System, f: seq<byte>, pos: nat, data: seq<byte>, capacity: nat)
    requires c.Lawful() && Sync(c, y, f) && Sized(Op.Write(pos, data))
    requires forall p: nat :: c.dec(p, HOLE) != ZERO_PAGE
    ensures ReadsAs(c, Run(c, y, [Op.Write(pos, data), Reopen(capacity)]).0, FlatWrite(f, pos, data))
       <==> pos / PAGE_SIZE <= PageCount(f)
  {
    hide Sync, Step, Run, FlatWrite, ReadsAs;
    var w := Op.Write(pos, data);
    RunTwo(c, y, w, Reopen(capacity));
    if pos / PAGE_SIZE <= PageCount(f) {
      StepSync(c, y, f, w);
      StepSync(c, Step(c, y, w).0, FlatWrite(f, pos, data), Reopen(capacity));
      SyncReadsAs(c, Step(c, Step(c, y, w).0, Reopen(capacity)).0, FlatWrite(f, pos, data));
    } else {
      SkippedPageIsLost(c, y, f, pos, data, capacity);
    }
  }

  lemma RunTwo(c: Cipher, y: System, a: Op, b: Op)
    requires Sized(a) && Sized(b)
    ensures Run(c, y, [a, b]).0 == Step(c, Step(c, y, a).0, b).0
  {
    var y1 := Step(c, y, a).0;
    assert [a, b][1..] == [b] && [b][1..] == [];
    assert Run(c, Step(c, y1, b).0, []).0 == Step(c, y1, b).0;
    assert Run(c, y1, [b]).0 == Step(c, y1, b).0;
  }

  // ----- a run that loses a page -----

  function Flip(x: Page): (y: Page)
    ensures forall i :: 0 <= i < PAGE_SIZE ==> y[i] == 255 - x[i]
  {
    var y := seq(PAGE_SIZE, i requires 0 <= i < PAGE_SIZE => 255 - x[i]);
    y
  }

  /** A toy cipher that complements every byte. */
  const FLIP_CIPHER := Cipher((p: nat, x: Page) => Flip(x) + Zeros(32), (p: nat, s: Slot) => Flip(s[..PAGE_SIZE]))

  lemma FlipLawful()
    ensures FLIP_CIPHER.Lawful()
    ensures forall p: nat :: FLIP_CIPHER.dec(p, HOLE) != ZERO_PAGE
  {
    forall p: nat, x: Page ensures FLIP_CIPHER.dec(p, FLIP_CIPHER.enc(p, x)) == x {
      assert FLIP_CIPHER.enc(p, x)[..PAGE_SIZE] == Flip(x);
      assert Flip(Flip(x)) == x;
    }
    forall p: nat ensures FLIP_CIPHER.dec(p, HOLE) != ZERO_PAGE {
      assert FLIP_CIPHER.dec(p, HOLE)[0] == 255;
    }
  }

  /** One byte written to page 1 of an empty file: after reopening, page 0 does not read as zeros. */
  lemma SkippedPageReadsAsGarbage(capacity: nat)
    ensures var y := Open([], capacity);
      var z := Run(FLIP_CIPHER, y, [Op.Write(PAGE_SIZE, [7]), Reopen(capacity)]).0;
      && FLIP_CIPHER.Lawful() && Sync(FLIP_CIPHER, y, [])
      && FlatRead(FlatWrite([], PAGE_SIZE, [7]), 0, PAGE_SIZE) == ZERO_PAGE
      && Step(FLIP_CIPHER, z, Op.Read(0, PAGE_SIZE)).1 == seq(PAGE_SIZE, _ => 255)
  {
    var c, y, w := FLIP_CIPHER, Open([], capacity), Op.Write(PAGE_SIZE, [7]);
    FlipLawful();
    OpenCoherent(c, [], [], capacity);
    hide Sync, Step, Run, Destroy, Open, FlatWrite, FlatRead;
    RunTwo(c, y, w, Reopen(capacity));
    SkippedPageIsHole(c, y, [], PAGE_SIZE, [7], 0);
    ReadWholePage(c, Destroy(c, Step(c, y, w).0.cache).disk, capacity, 0);
    StepReopen(c, Step(c, y, w).0, capacity);
    SkippedPageIsZero([], PAGE_SIZE, [7]);
    assert HOLE[..PAGE_SIZE] == ZERO_PAGE;
  }
}
