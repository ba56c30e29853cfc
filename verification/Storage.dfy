/**
 The encrypted file: 4096-byte pages kept in 4128-byte slots, the cipher as a pair of functions,
 and the POSIX view of a file as a byte sequence that can be written past its end.
 */
module Storage {
  import opened Sequences

  newtype byte = b: int | 0 <= b < 256

  const PAGE_SIZE: nat := 4096
  const PAGE_SIZE_DISK: nat := 4096 + 32
  const UINT32: nat := 0x1_0000_0000
  /** The last page whose slot offset fits an unsigned 32-bit product. */
  const MAX_PAGE: nat := 1040447

  function Zeros(n: nat): (z: seq<byte>) {
    seq(n, _ => 0)
  }

  type Page = s: seq<byte> | |s| == PAGE_SIZE witness Zeros(PAGE_SIZE)
  type Slot = s: seq<byte> | |s| == PAGE_SIZE_DISK witness Zeros(PAGE_SIZE_DISK)

  const ZERO_PAGE: Page := Zeros(PAGE_SIZE)
  /** What a file system returns for a slot that was skipped over by a seek past the end. */
  const HOLE: Slot := Zeros(PAGE_SIZE_DISK)

  /** Page encryption; decryption is total because the read path ignores the HMAC verdict. */
  datatype Cipher = Cipher(enc: (nat, Page) -> Slot, dec: (nat, Slot) -> Page) {
    ghost predicate Lawful() {
      forall p: nat, x: Page :: dec(p, enc(p, x)) == x
    }
  }

  // ----- the disk as numbered slots -----

  function SlotRead(c: Cipher, disk: seq<Slot>, p: nat): (x: Page) {
    if p < |disk| then c.dec(p, disk[p]) else ZERO_PAGE
  }

  /** Writing slot p past the end leaves holes in between. */
  function SlotWrite(disk: seq<Slot>, p: nat, x: Slot): (d: seq<Slot>)
    ensures |d| == Max(|disk|, p + 1)
    ensures d[p] == x
    ensures forall q :: 0 <= q < |disk| && q != p ==> d[q] == disk[q]
    ensures forall q :: |disk| <= q < p ==> d[q] == HOLE
  {
    if p < |disk| then disk[p := x] else disk + seq(p - |disk|, _ => HOLE) + [x]
  }

  // ----- the disk as bytes -----

  /** read(2) at an offset: short at the end of the file. */
  function FileRead(data: seq<byte>, offset: nat, n: nat): (r: seq<byte>) {
    if |data| <= offset then [] else data[offset..Min(offset + n, |data|)]
  }

  /** write(2) at an offset: a gap past the end of the file reads as zeros. */
  function FileWrite(data: seq<byte>, offset: nat, bytes: seq<byte>): (r: seq<byte>) {
    if |data| <= offset
    then data + Zeros(offset - |data|) + bytes
    else data[..offset] + bytes + if offset + |bytes| < |data| then data[offset + |bytes|..] else []
  }

  /** One write(2): where it starts, and its bytes. */
  datatype Put = Put(offset: nat, bytes: seq<byte>)

  /** The file after these writes, in this order. */
  function Replay(data: seq<byte>, puts: seq<Put>): (r: seq<byte>)
    decreases |puts|
  {
    if puts == [] then data else Replay(FileWrite(data, puts[0].offset, puts[0].bytes), puts[1..])
  }

  lemma {:induction false} ReplayMore(data: seq<byte>, puts: seq<Put>, w: Put)
    ensures Replay(data, puts + [w]) == FileWrite(Replay(data, puts), w.offset, w.bytes)
    decreases |puts|
  {
    hide FileWrite;
    if puts == [] {
      assert (puts + [w])[1..] == [];
    } else {
      assert (puts + [w])[1..] == puts[1..] + [w];
      ReplayMore(FileWrite(data, puts[0].offset, puts[0].bytes), puts[1..], w);
    }
  }

  ghost predicate Aligned(data: seq<byte>) {
    |data| % PAGE_SIZE_DISK == 0
  }

  function SlotsOf(data: seq<byte>): (d: seq<Slot>)
    requires Aligned(data)
    ensures |d| * PAGE_SIZE_DISK == |data|
    ensures forall p :: 0 <= p < |d| ==> d[p] == data[p * PAGE_SIZE_DISK..(p + 1) * PAGE_SIZE_DISK]
  {
    seq(|data| / PAGE_SIZE_DISK, p requires 0 <= p < |data| / PAGE_SIZE_DISK =>
      data[p * PAGE_SIZE_DISK..(p + 1) * PAGE_SIZE_DISK])
  }

  /** The offset DiskPage::seek passes to lseek: an unsigned 32-bit product. */
  function SeekOffset(p: nat): (o: nat) {
    (p * PAGE_SIZE_DISK) % UINT32
  }

  // ----- 32-bit arithmetic -----

  lemma SeekOffsetExact(p: nat)
    requires p < UINT32
    ensures SeekOffset(p) == p * PAGE_SIZE_DISK <==> p <= MAX_PAGE
    ensures SeekOffset(p) == p * 4128 <==> p <= 1040447
  {
  }

  ghost predicate SlotsOverlap(p: nat, q: nat) {
    SeekOffset(p) < SeekOffset(q) + PAGE_SIZE_DISK && SeekOffset(q) < SeekOffset(p) + PAGE_SIZE_DISK
  }

  /** A page number has a slot of its own among the addressable pages exactly up to MAX_PAGE. */
  lemma SlotsDisjointExactly(p: nat)
    requires p < UINT32
    ensures (forall q: nat :: q <= MAX_PAGE && q != p ==> !SlotsOverlap(p, q)) <==> p <= MAX_PAGE
  {
    if p > MAX_PAGE {
      var q := SeekOffset(p) / PAGE_SIZE_DISK;
      SeekOffsetExact(q);
      assert SlotsOverlap(p, q);
    } else {
      SeekOffsetExact(p);
      forall q: nat | q <= MAX_PAGE && q != p ensures !SlotsOverlap(p, q) {
        SeekOffsetExact(q);
        DistinctMultiples(p, q);
      }
    }
  }

  lemma DistinctMultiples(p: nat, q: nat)
    requires p != q
    ensures p * PAGE_SIZE_DISK + PAGE_SIZE_DISK <= q * PAGE_SIZE_DISK
         || q * PAGE_SIZE_DISK + PAGE_SIZE_DISK <= p * PAGE_SIZE_DISK
  {
  }

  /** DiskCache::write's end offset, `(highest_page + 1) * PAGE_SIZE` in unsigned 32 bits. */
  function HighestOffset(highestPage: nat): (o: nat) {
    ((highestPage + 1) % UINT32 * PAGE_SIZE) % UINT32
  }

  lemma HighestOffsetExact(p: nat)
    requires p < UINT32
    ensures HighestOffset(p) == (p + 1) * PAGE_SIZE <==> p < 0xF_FFFF
    ensures p <= MAX_PAGE ==> HighestOffset(p) == (p + 1) * PAGE_SIZE
  {
  }

  // ----- the byte view and the slot view agree -----

  lemma FileReadIsSlot(data: seq<byte>, p: nat)
    requires Aligned(data)
    ensures FileRead(data, p * PAGE_SIZE_DISK, PAGE_SIZE_DISK) == if p < |SlotsOf(data)| then SlotsOf(data)[p] else []
  {
    var n := |SlotsOf(data)|;
    if p < n {
      assert (p + 1) * PAGE_SIZE_DISK <= n * PAGE_SIZE_DISK;
    } else {
      assert p * PAGE_SIZE_DISK >= n * PAGE_SIZE_DISK;
    }
  }

  lemma FileWriteIsSlotWrite(data: seq<byte>, p: nat, x: Slot)
    requires Aligned(data)
    ensures Aligned(FileWrite(data, p * PAGE_SIZE_DISK, x))
    ensures SlotsOf(FileWrite(data, p * PAGE_SIZE_DISK, x)) == SlotWrite(SlotsOf(data), p, x)
  {
    var out := FileWrite(data, p * PAGE_SIZE_DISK, x);
    var n := |SlotsOf(data)|;
    assert |data| == n * PAGE_SIZE_DISK;
    assert |out| == Max(n, p + 1) * PAGE_SIZE_DISK;
    forall q | 0 <= q < Max(n, p + 1) ensures SlotsOf(out)[q] == SlotWrite(SlotsOf(data), p, x)[q] {
      if q != p { DistinctMultiples(p, q); }
      if q < n { assert (q + 1) * PAGE_SIZE_DISK <= n * PAGE_SIZE_DISK; }
      SlotOfWrite(data, p, x, q);
    }
  }

  lemma SlotOfWrite(data: seq<byte>, p: nat, x: Slot, q: nat)
    requires Aligned(data)
    requires q < Max(|SlotsOf(data)|, p + 1)
    requires (q + 1) * PAGE_SIZE_DISK <= |FileWrite(data, p * PAGE_SIZE_DISK, x)|
    ensures FileWrite(data, p * PAGE_SIZE_DISK, x)[q * PAGE_SIZE_DISK..(q + 1) * PAGE_SIZE_DISK]
         == SlotWrite(SlotsOf(data), p, x)[q]
  {
    var out := FileWrite(data, p * PAGE_SIZE_DISK, x);
    var n := |SlotsOf(data)|;
    var lo, hi := q * PAGE_SIZE_DISK, (q + 1) * PAGE_SIZE_DISK;
    if q == p {
      assert out[lo..hi] == x;
    } else if q < n {
      assert hi <= |data|;
      DistinctMultiples(p, q);
      assert out[lo..hi] == data[lo..hi];
    } else {
      assert n <= q < p;
      DistinctMultiples(p, q);
      assert out[lo..hi] == HOLE;
    }
  }
}
