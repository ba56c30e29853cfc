/**
 The byte-level face of the cache: reads and writes at any position are cut into page pieces.
 Mirrors aes_vfs/DiskCache.cc.
 */
module DiskCaches {
  import opened Sequences
  import opened Storage
  import opened CacheModel
  import opened DiskPages
  import opened PageCaches
  import opened Containers
  import opened FlushOrders
  import opened Refinement

  datatype PgInfo = PgInfo(pg: DiskPage, pgno: nat, inPage: nat, inArg: nat, len: nat)

  /** memcpy into the caller's buffer. */
  method Memcpy(buf: array<byte>, at: nat, bytes: seq<byte>)
    requires at + |bytes| <= buf.Length
    modifies buf
    ensures buf[..at + |bytes|] == old(buf[..at]) + bytes
    ensures forall k :: at + |bytes| <= k < buf.Length ==> buf[k] == old(buf[k])
  {
    forall k | 0 <= k < |bytes| {
      buf[at + k] := bytes[k];
    }
  }

  lemma ConcatAssociates(a: seq<byte>, b: seq<byte>, c: seq<byte>)
    ensures (a + b) + c == a + (b + c)
  {
  }

  class DiskCache {
    const pc: PageCache
    var fileSize: nat

    ghost predicate Valid()
      reads this, pc, pc.fd, pc.pageHash.Values
    {
      pc.Valid() && Shape(pc.Abs(), {}) && |pc.pageLru| <= pc.maxPages
    }

    ghost function Abs(): (y: System)
      requires Valid()
      reads this, pc, pc.fd, pc.pageHash.Values
    {
      System(pc.Abs(), pc.maxPages, fileSize)
    }

    constructor (fd: DiskFile, maxPages: nat, cipher: Cipher)
      requires Aligned(fd.data)
      ensures Valid() && fresh(pc) && pc.fd == fd && pc.cipher == cipher && pc.maxPages == maxPages
      ensures Abs() == Open(SlotsOf(fd.data), maxPages)
      ensures WellFormed(cipher, SlotsOf(fd.data)) ==> Sync(cipher, Abs(), Contents(cipher, SlotsOf(fd.data)))
    {
      pc := new PageCache(fd, maxPages, cipher);
      fileSize := SizeOfFile(|fd.data|);
      new;
      if WellFormed(cipher, SlotsOf(fd.data)) {
        ContentsComplete(cipher, SlotsOf(fd.data));
        OpenCoherent(cipher, SlotsOf(fd.data), Contents(cipher, SlotsOf(fd.data)), maxPages);
      }
    }

    /** The pieces of a request, each with the page that holds it, fetched into the cache. */
    method GetPages(pos0: nat, size0: nat) returns (pgs: seq<PgInfo>)
      requires pc.Valid() && size0 > 0 && (pos0 + size0 - 1) / PAGE_SIZE <= MAX_PAGE
      modifies pc, pc.fd`position
      ensures pc.Valid()
      ensures pc.Abs() == CacheModel.GetPages(pc.cipher, old(pc.Abs()), Pages(Pieces(pos0, size0, 0)))
      ensures Holds(pgs, Pieces(pos0, size0, 0), 0)
      ensures forall x :: x in pc.pageList ==> x in old(pc.pageList) || fresh(x)
    {
      hide Pieces, Pages, PageCache.Valid, PageCache.Abs, CacheModel.GetPages, Fetched;
      ghost var ps := Pieces(pos0, size0, 0);
      var pos: nat, size: nat := pos0, size0;
      var endOffset := pos + size - 1;
      var startPage, endPage := pos / PAGE_SIZE, endOffset / PAGE_SIZE;
      var inArg: nat, pgno: nat := 0, startPage;
      pgs := [];
      FetchedNone(pos, size);
      ghost var total := CacheModel.GetPages(pc.cipher, pc.Abs(), Pages(ps));
      while pgno <= endPage
        invariant pc.Valid() && Fetched(pgs, ps, pos, size, inArg, total)
        invariant pos + size == pos0 + size0
        invariant if size > 0 then pgno == pos / PAGE_SIZE else pgno == endPage + 1
        invariant forall x :: x in pc.pageList ==> x in old(pc.pageList) || fresh(x)
        decreases endPage + 1 - pgno
      {
        var pi := GetPiece(pgno, pos, size, inArg, pgs, ps, total);
        pos := pos + pi.len;
        size := size - pi.len;
        inArg := inArg + pi.len;
        pgs := pgs + [pi];
        pgno := pgno + 1;
      }
      FetchedAll(pgs, ps, pos, inArg, total);
    }

    /** One turn of getPages: the page, and how much of the request lies in it. */
    method GetPiece(pgno: nat, pos: nat, size: nat, inArg: nat, ghost pgs: seq<PgInfo>, ghost ps: seq<Piece>,
                    ghost total: Cache)
      returns (pi: PgInfo)
      requires pc.Valid() && size > 0 && pgno == pos / PAGE_SIZE <= MAX_PAGE
      requires Fetched(pgs, ps, pos, size, inArg, total)
      modifies pc, pc.fd`position
      ensures pc.Valid() && 0 < pi.len <= size
      ensures pi.len == Min(size, PAGE_SIZE - pos % PAGE_SIZE)
      ensures Fetched(pgs + [pi], ps, pos + pi.len, size - pi.len, inArg + pi.len, total)
      ensures forall x :: x in pc.pageList ==> x in old(pc.pageList) || fresh(x)
    {
      hide Pieces, Pages, PageCache.Valid, PageCache.Abs, CacheModel.GetPage, CacheModel.GetPages;
      ghost var rest := ps[|pgs|..];
      assert rest[0] == ps[|pgs|] && rest[1..] == ps[|pgs| + 1..];
      GetPagesStep(pc.cipher, pc.Abs(), rest);
      var pg := pc.GetPage(pgno);
      var inPage := pos % PAGE_SIZE;
      var remainingInPage := PAGE_SIZE - inPage;
      var len := if size > remainingInPage then remainingInPage else size;
      pi := PgInfo(pg, pgno, inPage, inArg, len);
    }

    /** The infos so far are the first pieces; fetching the pages of the others gives the total. */
    ghost predicate Fetched(pgs: seq<PgInfo>, ps: seq<Piece>, pos: nat, size: nat, inArg: nat, total: Cache)
      requires pc.Valid()
      reads this, pc, pc.fd, pc.pageHash.Values
    {
      && |pgs| <= |ps| && Tiles(ps[|pgs|..], pos, size, inArg)
      && CacheModel.GetPages(pc.cipher, pc.Abs(), Pages(ps[|pgs|..])) == total
      && (forall i :: 0 <= i < |pgs| ==> PieceOf(pgs[i]) == ps[i])
      && (forall i :: 0 <= i < |pgs| ==> pgs[i].pgno in pc.pageHash && pc.pageHash[pgs[i].pgno] == pgs[i].pg)
    }

    lemma FetchedNone(pos: nat, size: nat)
      requires pc.Valid()
      ensures var ps := Pieces(pos, size, 0);
        Fetched([], ps, pos, size, 0, CacheModel.GetPages(pc.cipher, pc.Abs(), Pages(ps)))
    {
      hide Pieces, Pages, PageCache.Abs, CacheModel.GetPages;
      PiecesTiles(pos, size, 0);
      assert Pieces(pos, size, 0)[0..] == Pieces(pos, size, 0);
    }

    lemma FetchedAll(pgs: seq<PgInfo>, ps: seq<Piece>, pos: nat, inArg: nat, total: Cache)
      requires pc.Valid() && Fetched(pgs, ps, pos, 0, inArg, total)
      ensures pc.Abs() == total && Holds(pgs, ps, 0)
    {
      hide PageCache.Abs, CacheModel.GetPages, Pages;
      GetPagesEnd(pc.cipher, pc.Abs());
    }

    lemma GetPagesStep(c: Cipher, s: Cache, rest: seq<Piece>)
      requires rest != []
      ensures CacheModel.GetPages(c, s, Pages(rest))
           == CacheModel.GetPages(c, CacheModel.GetPage(c, s, rest[0].pgno), Pages(rest[1..]))
    {
      assert Pages(rest)[1..] == Pages(rest[1..]);
    }

    lemma GetPagesEnd(c: Cipher, s: Cache)
      ensures CacheModel.GetPages(c, s, Pages([])) == s
    {
    }

    static function PieceOf(pi: PgInfo): (p: Piece) {
      Piece(pi.pgno, pi.inPage, pi.inArg, pi.len)
    }

    /** From index i on, the infos are the pieces, and each page still cached is the one they name. */
    ghost predicate Holds(pgs: seq<PgInfo>, ps: seq<Piece>, i: nat)
      reads pc
    {
      && |pgs| == |ps|
      && (forall j :: 0 <= j < |pgs| ==> PieceOf(pgs[j]) == ps[j])
      && (forall j :: i <= j < |pgs| && pgs[j].pgno in pc.pageHash ==> pc.pageHash[pgs[j].pgno] == pgs[j].pg)
    }

    /** The body of the read loop: copy one piece out of its page and release the page. */
    method CopyOut(pi: PgInfo, buf: array<byte>)
      requires pc.Valid() && pi.pgno in pc.pageHash && pc.pageHash[pi.pgno] == pi.pg
      requires pi.inPage + pi.len <= PAGE_SIZE && pi.inArg + pi.len <= buf.Length
      modifies pc, pc.fd, pc.pageList, buf
      ensures pc.Valid()
      ensures pc.Abs() == CacheModel.ReleasePage(pc.cipher, old(pc.Abs()), pi.pgno, pc.maxPages)
      ensures buf[..pi.inArg + pi.len]
           == old(buf[..pi.inArg]) + Buffer(old(pc.Abs()), pi.pgno)[pi.inPage..pi.inPage + pi.len]
      ensures forall k :: pi.inArg + pi.len <= k < buf.Length ==> buf[k] == old(buf[k])
      ensures forall x :: x in pc.pageList ==> x in old(pc.pageList)
      ensures forall p :: p in pc.pageHash ==> p in old(pc.pageHash) && pc.pageHash[p] == old(pc.pageHash[p])
    {
      hide PageCache.Linked, PageCache.Abs, CacheModel.ReleasePage;
      pc.FramesAre(pi.pgno);
      Memcpy(buf, pi.inArg, pi.pg.buffer[pi.inPage..pi.inPage + pi.len]);
      pc.ReleasePage(pi.pg);
    }

    /** One turn of the read loop: what is copied out so far and what remains still make the total. */
    method ReadTurn(pgs: seq<PgInfo>, ind: nat, buf: array<byte>, ghost ps: seq<Piece>, ghost left: nat,
                    ghost out: seq<byte>, ghost total: (Cache, seq<byte>))
      returns (ghost left': nat, ghost out': seq<byte>)
      requires pc.Valid() && ind < |pgs| && Holds(pgs, ps, ind)
      requires Reading(pc.cipher, pc.Abs(), ps, ind, pc.maxPages, left, out, total)
      requires left + |out| <= buf.Length && buf[..|out|] == out
      modifies pc, pc.fd, pc.pageList, buf
      ensures pc.Valid() && Holds(pgs, ps, ind + 1)
      ensures Reading(pc.cipher, pc.Abs(), ps, ind + 1, pc.maxPages, left', out', total)
      ensures left' + |out'| == left + |out| && buf[..|out'|] == out'
      ensures forall k :: left + |out| <= k < buf.Length ==> buf[k] == old(buf[k])
      ensures forall x :: x in pc.pageList ==> x in old(pc.pageList)
    {
      hide PageCache.Valid, PageCache.Abs, Reading, CacheModel.ReleasePage, Buffer;
      var pi := pgs[ind];
      assert ps[ind] == PieceOf(pi);
      ReadingTurn(pc.cipher, pc.Abs(), ps, ind, pc.maxPages, left, out, total);
      pc.FramesAre(pi.pgno);
      left', out' := left - pi.len, out + Buffer(pc.Abs(), pi.pgno)[pi.inPage..pi.inPage + pi.len];
      CopyOut(pi, buf);
    }

    /** Reads `size` bytes at `pos` into the front of the caller's buffer. */
    method Read(pos: nat, buf: array<byte>, size: nat) returns (n: nat)
      requires Valid() && size <= buf.Length && Sized(Op.Read(pos, size))
      modifies pc, pc.fd, pc.pageList, buf
      ensures Valid() && n == size
      ensures Abs() == Step(pc.cipher, old(Abs()), Op.Read(pos, size)).0
      ensures buf[..size] == Step(pc.cipher, old(Abs()), Op.Read(pos, size)).1
      ensures forall k :: size <= k < buf.Length ==> buf[k] == old(buf[k])
      ensures pc.cipher.Lawful() ==> Answers(pc.cipher, old(Abs()), Op.Read(pos, size), Abs(), buf[..size])
    {
      hide Pieces, PageCache.Valid, PageCache.Abs, Shape, Reading, CacheModel.GetPages, Answers, Holds;
      ghost var c, y, max := pc.cipher, Abs(), pc.maxPages;
      ghost var ps := Pieces(pos, size, 0);
      pc.FramesAre(0);
      StepShape(c, y, Op.Read(pos, size));
      ReadingStart(c, y.cache, pos, size, max);
      var pgs := GetPages(pos, size);
      HoldsAll(pgs, ps, 0);
      ghost var total := ReadRequest(c, y.cache, pos, size, max);
      ghost var left: nat, out: seq<byte> := size, [];
      assert buf[..0] == out;
      for ind := 0 to |pgs|
        invariant pc.Valid() && |pgs| == |ps| && Holds(pgs, ps, ind)
        invariant left + |out| == size && buf[..|out|] == out
        invariant Reading(c, pc.Abs(), ps, ind, max, left, out, total)
        invariant forall k :: size <= k < buf.Length ==> buf[k] == old(buf[k])
        invariant forall x :: x in pc.pageList ==> x in old(pc.pageList) || fresh(x)
      {
        assert forall i :: 0 <= i < |pc.pageList| ==> pc.pageList[i] in pc.pageList;
        left, out := ReadTurn(pgs, ind, buf, ps, left, out, total);
      }
      ReadingEnd(c, pc.Abs(), ps, max, left, out, total);
      pc.FramesAre(0);
      if c.Lawful() { StepAnswers(c, y, Op.Read(pos, size)); }
      n := size;
    }

    lemma HoldsAll(pgs: seq<PgInfo>, ps: seq<Piece>, i: nat)
      requires Holds(pgs, ps, i)
      ensures |pgs| == |ps|
      ensures forall j :: 0 <= j < |pgs| ==> PieceOf(pgs[j]) == ps[j]
    {
    }

    /** The body of the write loop: copy one piece into its page, mark it dirty, release it. */
    method CopyIn(pi: PgInfo, data: seq<byte>)
      requires pc.Valid() && pi.pgno in pc.pageHash && pc.pageHash[pi.pgno] == pi.pg
      requires pi.inPage + pi.len <= PAGE_SIZE && pi.inArg + pi.len <= |data|
      modifies pc, pc.fd, pc.pageList
      ensures pc.Valid()
      ensures var t := Poke(old(pc.Abs()), pi.pgno, pi.inPage, data[pi.inArg..pi.inArg + pi.len]);
        pc.Abs() == CacheModel.ReleasePage(pc.cipher, t, pi.pgno, pc.maxPages)
      ensures forall x :: x in pc.pageList ==> x in old(pc.pageList)
      ensures forall p :: p in pc.pageHash ==> p in old(pc.pageHash) && pc.pageHash[p] == old(pc.pageHash[p])
    {
      hide PageCache.Linked, PageCache.Abs, CacheModel.ReleasePage, Poke;
      pc.FramesAre(pi.pgno);
      pc.CopyIn(pi.pg, pi.inPage, data[pi.inArg..pi.inArg + pi.len]);
      pc.ReleasePage(pi.pg);
    }

    /** One turn of the write loop: writing the pieces to come still leads to the total. */
    method WriteTurn(pgs: seq<PgInfo>, ind: nat, data: seq<byte>, ghost ps: seq<Piece>, ghost total: Cache)
      requires pc.Valid() && ind < |pgs| && Holds(pgs, ps, ind)
      requires Writing(pc.cipher, pc.Abs(), ps, ind, data, pc.maxPages, total)
      modifies pc, pc.fd, pc.pageList
      ensures pc.Valid() && Holds(pgs, ps, ind + 1)
      ensures Writing(pc.cipher, pc.Abs(), ps, ind + 1, data, pc.maxPages, total)
      ensures forall x :: x in pc.pageList ==> x in old(pc.pageList)
    {
      hide PageCache.Valid, PageCache.Abs, Writing, CacheModel.ReleasePage, Poke;
      var pi := pgs[ind];
      assert ps[ind] == PieceOf(pi);
      WritingTurn(pc.cipher, pc.Abs(), ps, ind, data, pc.maxPages, total);
      pc.FramesAre(pi.pgno);
      CopyIn(pi, data);
    }

    /** file_size grows to the end of the highest page written. */
    method Extend(highestPage: nat)
      requires pc.Valid() && highestPage <= MAX_PAGE
      modifies this`fileSize
      ensures pc.Valid() && pc.Abs() == old(pc.Abs())
      ensures fileSize == Max(old(fileSize), (highestPage + 1) * PAGE_SIZE)
    {
      HighestOffsetExact(highestPage);
      var highestOffset := HighestOffset(highestPage);
      if highestOffset > fileSize {
        fileSize := highestOffset;
      }
    }

    /** The write loop: every piece into its page; also the highest page touched. */
    method WritePages(pgs: seq<PgInfo>, data: seq<byte>, ghost pos: nat, ghost total: Cache) returns (highestPage: nat)
      requires pc.Valid() && data != [] && Holds(pgs, Pieces(pos, |data|, 0), 0)
      requires Writing(pc.cipher, pc.Abs(), Pieces(pos, |data|, 0), 0, data, pc.maxPages, total)
      modifies pc, pc.fd, pc.pageList
      ensures pc.Valid() && pc.Abs() == total
      ensures highestPage == (pos + |data| - 1) / PAGE_SIZE
    {
      hide Pieces, PageCache.Valid, PageCache.Abs, Writing, Holds;
      ghost var ps := Pieces(pos, |data|, 0);
      HoldsAll(pgs, ps, 0);
      highestPage := 0;
      for ind := 0 to |pgs|
        invariant pc.Valid() && Holds(pgs, ps, ind)
        invariant Writing(pc.cipher, pc.Abs(), ps, ind, data, pc.maxPages, total)
        invariant highestPage == if ind == 0 then 0 else pos / PAGE_SIZE + ind - 1
        invariant forall x :: x in pc.pageList ==> x in old(pc.pageList)
      {
        PiecesConsecutive(pos, |data|, 0, ind);
        assert PieceOf(pgs[ind]) == ps[ind];
        assert forall i :: 0 <= i < |pc.pageList| ==> pc.pageList[i] in pc.pageList;
        WriteTurn(pgs, ind, data, ps, total);
        if pgs[ind].pgno > highestPage {
          highestPage := pgs[ind].pgno;
        }
      }
      PieceCount(pos, |data|);
      WritingEnd(pc.cipher, pc.Abs(), ps, data, pc.maxPages, total);
    }

    /** Writes `data` at `pos` and extends file_size to the end of the last page touched. */
    method Write(pos: nat, data: seq<byte>) returns (n: nat)
      requires Valid() && Sized(Op.Write(pos, data))
      modifies this, pc, pc.fd, pc.pageList
      ensures Valid() && n == |data|
      ensures Abs() == Step(pc.cipher, old(Abs()), Op.Write(pos, data)).0
      ensures pc.cipher.Lawful() ==> Answers(pc.cipher, old(Abs()), Op.Write(pos, data), Abs(), [])
    {
      hide Pieces, PageCache.Valid, PageCache.Abs, Shape, Writing, CacheModel.GetPages, Answers, Holds;
      ghost var c, y, max := pc.cipher, Abs(), pc.maxPages;
      pc.FramesAre(0);
      StepShape(c, y, Op.Write(pos, data));
      WritingStart(c, y.cache, pos, data, max);
      ghost var total := WriteRequest(c, y.cache, pos, data, max);
      var pgs := GetPages(pos, |data|);
      assert forall i :: 0 <= i < |pc.pageList| ==> pc.pageList[i] in pc.pageList;
      var highestPage := WritePages(pgs, data, pos, total);
      pc.FramesAre(0);
      Extend(highestPage);
      if c.Lawful() { StepAnswers(c, y, Op.Write(pos, data)); }
      n := |data|;
    }

    /** Writes the dirty pages back; at no moment of it does the file have a hole that it did not have before. */
    method Flush()
      requires Valid()
      modifies pc.fd, pc.pageList
      ensures Valid() && Abs() == Step(pc.cipher, old(Abs()), Op.Flush).0
      ensures pc.cipher.Lawful() ==> Answers(pc.cipher, old(Abs()), Op.Flush, Abs(), [])
      ensures old(pc.fd.log) <= pc.fd.log
      ensures var puts := pc.fd.log[|old(pc.fd.log)|..];
        && StoresDirty(pc.cipher, old(Abs()).cache, puts)
        && pc.fd.data == Replay(old(pc.fd.data), puts)
        && forall f: seq<byte> :: Sync(pc.cipher, old(Abs()), f) ==> OpensNoHole(pc.cipher, old(pc.fd.data), puts, f)
    {
      hide PageCache.Linked, PageCache.Abs, Shape, FlushCache, Answers, StoresDirty, OpensNoHole, Replay, SlotsOf;
      ghost var c, y := pc.cipher, Abs();
      pc.FramesAre(0);
      StepShape(c, y, Op.Flush);
      if c.Lawful() { StepAnswers(c, y, Op.Flush); }
      pc.Flush();
      pc.FramesAre(0);
      ghost var puts := pc.fd.log[|old(pc.fd.log)|..];
      forall f: seq<byte> | Sync(c, y, f) ensures OpensNoHole(c, old(pc.fd.data), puts, f) {
        FlushOpensNoHole(c, y.cache, old(pc.fd.data), f, puts);
      }
    }

    /** The destructor, which is its page cache's: the file is complete for the array the cache stood for. */
    method Close()
      requires Valid()
      modifies pc, pc.fd, pc.pageList
      ensures Aligned(pc.fd.data)
      ensures SlotsOf(pc.fd.data) == CacheModel.Destroy(pc.cipher, old(Abs()).cache).disk
      ensures pc.fd.log == old(pc.fd.log) + WriteBacks(pc.cipher, old(Abs()).cache, old(Abs()).cache.list)
      ensures forall f: seq<byte> :: Sync(pc.cipher, old(Abs()), f) ==> Complete(pc.cipher, SlotsOf(pc.fd.data), f)
      ensures forall f: seq<byte> :: pc.cipher.Lawful() && Sync(pc.cipher, old(Abs()), f) ==>
        WellFormed(pc.cipher, SlotsOf(pc.fd.data)) && Contents(pc.cipher, SlotsOf(pc.fd.data)) == f
    {
      hide PageCache.Linked, PageCache.Abs, CacheModel.Destroy, FlushCache, Complete, Shape, Contents, WellFormed,
           WriteBacks;
      pc.FramesAre(0);
      ghost var c, y := pc.cipher, Abs();
      ghost var disk := CacheModel.Destroy(c, y.cache).disk;
      forall f: seq<byte> | Sync(c, y, f)
        ensures Complete(c, disk, f) && (c.Lawful() ==> WellFormed(c, disk) && Contents(c, disk) == f)
      {
        FlushAndDestroyComplete(c, y.cache, f);
        if c.Lawful() { CompleteContents(c, disk, f); }
      }
      pc.Destroy();
      pc.FramesAre(0);
    }
  }

  lemma PieceCount(pos: nat, size: nat)
    requires size > 0
    ensures var ps := Pieces(pos, size, 0);
      |ps| == (pos + size - 1) / PAGE_SIZE - pos / PAGE_SIZE + 1
  {
    PiecesTiles(pos, size, 0);
    TilesCount(Pieces(pos, size, 0), pos, size, 0);
  }

  // ----- the write loop, as a value -----

  /** Before turn i: the pages to come are served, and writing them leads to the total. */
  ghost predicate Writing(c: Cipher, s: Cache, ps: seq<Piece>, i: nat, data: seq<byte>, max: nat, total: Cache)
    requires i <= |ps|
  {
    && Fit(ps, |data|) && WriteServed(c, s, ps[i..], data, max)
    && WritePieces(c, s, ps[i..], data, max) == total
  }

  lemma WritingStart(c: Cipher, s: Cache, pos: nat, data: seq<byte>, max: nat)
    requires Shape(s, {})
    ensures Writing(c, GetPages(c, s, Pages(Pieces(pos, |data|, 0))), Pieces(pos, |data|, 0), 0, data, max,
                    WriteRequest(c, s, pos, data, max))
  {
    var ps := Pieces(pos, |data|, 0);
    RequestServed(c, s, pos, data, max);
    assert ps[0..] == ps;
  }

  lemma WritingTurn(c: Cipher, s: Cache, ps: seq<Piece>, i: nat, data: seq<byte>, max: nat, total: Cache)
    requires i < |ps| && Writing(c, s, ps, i, data, max, total)
    ensures ps[i].pgno in s.frames && ps[i].inPage + ps[i].len <= PAGE_SIZE && ps[i].inArg + ps[i].len <= |data|
    ensures var t := Poke(s, ps[i].pgno, ps[i].inPage, data[ps[i].inArg..ps[i].inArg + ps[i].len]);
      Writing(c, ReleasePage(c, t, ps[i].pgno, max), ps, i + 1, data, max, total)
  {
    hide ReleasePage, Poke;
    assert ps[i..][0] == ps[i] && ps[i..][1..] == ps[i + 1..];
  }

  lemma WritingEnd(c: Cipher, s: Cache, ps: seq<Piece>, data: seq<byte>, max: nat, total: Cache)
    requires Writing(c, s, ps, |ps|, data, max, total)
    ensures s == total
  {
    assert ps[|ps|..] == [];
  }

  // ----- the read loop, as a value -----

  /** Before turn i: the pages to come are served, and what is copied out and what remains make the total. */
  ghost predicate Reading(c: Cipher, s: Cache, ps: seq<Piece>, i: nat, max: nat, left: nat, out: seq<byte>,
                          total: (Cache, seq<byte>))
    requires i <= |ps|
  {
    && InPages(ps) && ReadServed(c, s, ps[i..], max)
    && (exists pos: nat :: Tiles(ps[i..], pos, left, |out|))
    && ReadPieces(c, s, ps[i..], max).0 == total.0
    && out + ReadPieces(c, s, ps[i..], max).1 == total.1
  }

  lemma ReadingStart(c: Cipher, s: Cache, pos: nat, size: nat, max: nat)
    requires Shape(s, {})
    ensures Reading(c, GetPages(c, s, Pages(Pieces(pos, size, 0))), Pieces(pos, size, 0), 0, max, size, [],
                    ReadRequest(c, s, pos, size, max))
  {
    var ps := Pieces(pos, size, 0);
    PiecesTiles(pos, size, 0);
    RequestServed(c, s, pos, Zeros(size), max);
    assert ps[0..] == ps;
  }

  lemma ReadingTurn(c: Cipher, s: Cache, ps: seq<Piece>, i: nat, max: nat, left: nat, out: seq<byte>,
                    total: (Cache, seq<byte>))
    requires i < |ps| && Reading(c, s, ps, i, max, left, out, total)
    ensures ps[i].inArg == |out| && ps[i].len <= left
    ensures ps[i].pgno in s.frames && ps[i].inPage + ps[i].len <= PAGE_SIZE
    ensures Reading(c, ReleasePage(c, s, ps[i].pgno, max), ps, i + 1, max, left - ps[i].len,
                    out + Buffer(s, ps[i].pgno)[ps[i].inPage..ps[i].inPage + ps[i].len], total)
  {
    hide ReleasePage, Buffer;
    var pos: nat :| Tiles(ps[i..], pos, left, |out|);
    var t := ReleasePage(c, s, ps[i].pgno, max);
    var bytes := Buffer(s, ps[i].pgno)[ps[i].inPage..ps[i].inPage + ps[i].len];
    assert ps[i..][0] == ps[i] && ps[i..][1..] == ps[i + 1..];
    assert Tiles(ps[i + 1..], pos + ps[i].len, left - ps[i].len, |out + bytes|);
    ConcatAssociates(out, bytes, ReadPieces(c, t, ps[i + 1..], max).1);
  }

  lemma ReadingEnd(c: Cipher, s: Cache, ps: seq<Piece>, max: nat, left: nat, out: seq<byte>, total: (Cache, seq<byte>))
    requires Reading(c, s, ps, |ps|, max, left, out, total)
    ensures left == 0 && s == total.0 && out == total.1
  {
    assert ps[|ps|..] == [];
  }
}
