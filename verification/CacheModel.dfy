/**
 The page cache as a value: what each operation of DiskPage, PageCache and DiskCache does to
 the disk slots, the page list, the LRU list and the cached frames. The classes in DiskPage.dfy,
 PageCache.dfy and DiskCache.dfy are proved to step exactly as these functions do.
 */
module CacheModel {
  import opened Sequences
  import opened Storage

  datatype Frame = Frame(buffer: Page, dirty: bool)

  /** `list` and `lru` hold page numbers in list order; the hash is the domain of `frames`. */
  datatype Cache = Cache(disk: seq<Slot>, list: seq<nat>, lru: seq<nat>, frames: map<nat, Frame>)

  function Opened(disk: seq<Slot>): (s: Cache) {
    Cache(disk, [], [], map[])
  }

  function Buffer(s: Cache, p: nat): (x: Page) {
    if p in s.frames then s.frames[p].buffer else ZERO_PAGE
  }

  // ----- DiskPage -----

  function FlushPage(c: Cipher, s: Cache, p: nat): (s': Cache) {
    if p in s.frames && s.frames[p].dirty
    then s.(disk := SlotWrite(s.disk, p, c.enc(p, s.frames[p].buffer)),
            frames := s.frames[p := Frame(s.frames[p].buffer, false)])
    else s
  }

  /** Unlinking a page from the list and the hash and destroying it, which writes it back. */
  function DeletePage(c: Cipher, s: Cache, p: nat): (s': Cache) {
    s.(disk := FlushPage(c, s, p).disk, list := Remove(s.list, p), frames := s.frames - {p})
  }

  // ----- PageCache -----

  function GetPage(c: Cipher, s: Cache, p: nat): (s': Cache) {
    if p in s.frames
    then s.(lru := Remove(s.lru, p))
    else s.(list := s.list + [p], frames := s.frames[p := Frame(SlotRead(c, s.disk, p), false)])
  }

  function Evict(c: Cipher, s: Cache, max: nat): (s': Cache)
    decreases |s.lru|
  {
    if |s.lru| <= max then s
    else Evict(c, DeletePage(c, s.(lru := s.lru[1..]), s.lru[0]), max)
  }

  function ReleasePage(c: Cipher, s: Cache, p: nat, max: nat): (s': Cache) {
    Evict(c, if p in s.lru then s else s.(lru := s.lru + [p]), max)
  }

  function FlushAll(c: Cipher, s: Cache, ps: seq<nat>): (s': Cache)
    decreases |ps|
  {
    if ps == [] then s else FlushAll(c, FlushPage(c, s, ps[0]), ps[1..])
  }

  function DirtyOf(s: Cache, list: seq<nat>): (r: seq<nat>) {
    if list == [] then []
    else (if list[0] in s.frames && s.frames[list[0]].dirty then [list[0]] else []) + DirtyOf(s, list[1..])
  }

  function Insert(p: nat, s: seq<nat>): (r: seq<nat>) {
    if s == [] || p < s[0] then [p] + s else [s[0]] + Insert(p, s[1..])
  }

  function Sorted(s: seq<nat>): (r: seq<nat>) {
    if s == [] then [] else Insert(s[0], Sorted(s[1..]))
  }

  function FlushCache(c: Cipher, s: Cache): (s': Cache) {
    FlushAll(c, s, Sorted(DirtyOf(s, s.list)))
  }

  /** The destructor: pages are destroyed in list order, head first. */
  function Destroy(c: Cipher, s: Cache): (s': Cache)
    decreases |s.list|
  {
    if s.list == [] then s
    else Destroy(c, DeletePage(c, s.(lru := Remove(s.lru, s.list[0])), s.list[0]))
  }

  /** truncate's walk: pages above the bound leave all containers and are not written back. */
  function DropAbove(s: Cache, bound: nat): (s': Cache) {
    s.(list := KeepUpTo(s.list, bound), lru := KeepUpTo(s.lru, bound),
       frames := map p | p in s.frames && p <= bound :: s.frames[p])
  }

  function KeepUpTo(s: seq<nat>, bound: nat): (r: seq<nat>) {
    if s == [] then [] else (if s[0] <= bound then [s[0]] else []) + KeepUpTo(s[1..], bound)
  }

  // ----- DiskCache -----

  /** One piece of a request: `len` bytes at `inPage` of page `pgno`, at `inArg` of the caller's buffer. */
  datatype Piece = Piece(pgno: nat, inPage: nat, inArg: nat, len: nat)

  ghost predicate Fit(ps: seq<Piece>, size: nat) {
    forall i :: 0 <= i < |ps| ==> ps[i].inPage + ps[i].len <= PAGE_SIZE && ps[i].inArg + ps[i].len <= size
  }

  function Pieces(pos: nat, size: nat, inArg: nat): (r: seq<Piece>)
    ensures Fit(r, inArg + size)
    decreases size
  {
    if size == 0 then []
    else
      var inPage := pos % PAGE_SIZE;
      var len := Min(size, PAGE_SIZE - inPage);
      [Piece(pos / PAGE_SIZE, inPage, inArg, len)] + Pieces(pos + len, size - len, inArg + len)
  }

  ghost predicate InPages(ps: seq<Piece>) {
    forall i :: 0 <= i < |ps| ==> ps[i].inPage + ps[i].len <= PAGE_SIZE
  }

  function Pages(ps: seq<Piece>): (r: seq<nat>)
    ensures |r| == |ps|
    ensures forall i :: 0 <= i < |r| ==> r[i] == ps[i].pgno
  {
    seq(|ps|, i requires 0 <= i < |ps| => ps[i].pgno)
  }

  function GetPages(c: Cipher, s: Cache, ps: seq<nat>): (s': Cache)
    decreases |ps|
  {
    if ps == [] then s else GetPages(c, GetPage(c, s, ps[0]), ps[1..])
  }

  /** The copy loop of read: the bytes copied out, and the cache after each page was released. */
  function ReadPieces(c: Cipher, s: Cache, ps: seq<Piece>, max: nat): (r: (Cache, seq<byte>))
    requires InPages(ps)
    decreases |ps|
  {
    if ps == [] then (s, [])
    else
      var bytes := Buffer(s, ps[0].pgno)[ps[0].inPage..ps[0].inPage + ps[0].len];
      var (t, rest) := ReadPieces(c, ReleasePage(c, s, ps[0].pgno, max), ps[1..], max);
      (t, bytes + rest)
  }

  function Splice(x: Page, at: nat, bytes: seq<byte>): (y: Page)
    requires at + |bytes| <= PAGE_SIZE
    ensures forall i :: 0 <= i < PAGE_SIZE ==> y[i] == if at <= i < at + |bytes| then bytes[i - at] else x[i]
  {
    x[..at] + bytes + x[at + |bytes|..]
  }

  function Poke(s: Cache, p: nat, at: nat, bytes: seq<byte>): (s': Cache)
    requires at + |bytes| <= PAGE_SIZE
  {
    s.(frames := s.frames[p := Frame(Splice(Buffer(s, p), at, bytes), true)])
  }

  /** The copy loop of write. */
  function WritePieces(c: Cipher, s: Cache, ps: seq<Piece>, data: seq<byte>, max: nat): (s': Cache)
    requires Fit(ps, |data|)
    decreases |ps|
  {
    if ps == [] then s
    else
      var t := Poke(s, ps[0].pgno, ps[0].inPage, data[ps[0].inArg..ps[0].inArg + ps[0].len]);
      WritePieces(c, ReleasePage(c, t, ps[0].pgno, max), ps[1..], data, max)
  }

  function ReadRequest(c: Cipher, s: Cache, pos: nat, size: nat, max: nat): (r: (Cache, seq<byte>)) {
    var ps := Pieces(pos, size, 0);
    ReadPieces(c, GetPages(c, s, Pages(ps)), ps, max)
  }

  function WriteRequest(c: Cipher, s: Cache, pos: nat, data: seq<byte>, max: nat): (s': Cache) {
    var ps := Pieces(pos, |data|, 0);
    WritePieces(c, GetPages(c, s, Pages(ps)), ps, data, max)
  }

  /** The end of the last page a write of `size` bytes at `pos` touches. */
  function WriteEnd(pos: nat, size: nat): (e: nat)
    requires size > 0
  {
    ((pos + size - 1) / PAGE_SIZE + 1) * PAGE_SIZE
  }

  /** The constructor's `st_size * PAGE_SIZE / PAGE_SIZE_DISK`. */
  function SizeOfFile(st_size: nat): (n: nat) {
    st_size * PAGE_SIZE / PAGE_SIZE_DISK
  }

  // ----- whole runs -----

  datatype Op = Read(pos: nat, size: nat) | Write(pos: nat, data: seq<byte>) | Flush | Reopen(capacity: nat)

  /** Requests carry at least one byte and end in a page whose slot `seek` can reach. */
  ghost predicate Sized(op: Op) {
    match op
    case Read(pos, size) => size > 0 && (pos + size - 1) / PAGE_SIZE <= MAX_PAGE
    case Write(pos, data) => data != [] && (pos + |data| - 1) / PAGE_SIZE <= MAX_PAGE
    case _ => true
  }

  /** An open DiskCache: its cache, its capacity and the `file_size` it keeps. */
  datatype System = System(cache: Cache, capacity: nat, fileSize: nat)

  function Open(disk: seq<Slot>, capacity: nat): (y: System) {
    System(Opened(disk), capacity, SizeOfFile(|disk| * PAGE_SIZE_DISK))
  }

  function Step(c: Cipher, y: System, op: Op): (r: (System, seq<byte>))
    requires Sized(op)
  {
    match op
    case Read(pos, size) =>
      var (s, bytes) := ReadRequest(c, y.cache, pos, size, y.capacity);
      (y.(cache := s), bytes)
    case Write(pos, data) =>
      (y.(cache := WriteRequest(c, y.cache, pos, data, y.capacity),
               fileSize := Max(y.fileSize, WriteEnd(pos, |data|))), [])
    case Flush => (y.(cache := FlushCache(c, y.cache)), [])
    case Reopen(capacity) => (Open(Destroy(c, y.cache).disk, capacity), [])
  }

  function Run(c: Cipher, y: System, ops: seq<Op>): (r: (System, seq<seq<byte>>))
    requires forall i :: 0 <= i < |ops| ==> Sized(ops[i])
    decreases |ops|
  {
    if ops == [] then (y, [])
    else
      var (y1, out) := Step(c, y, ops[0]);
      var (y2, outs) := Run(c, y1, ops[1..]);
      (y2, [out] + outs)
  }
}
