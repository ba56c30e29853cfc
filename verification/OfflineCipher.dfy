/**
 The offline tool that encrypts a plain file into the cache's format and back. Mirrors the two
 loops of aes_vfs/dbcipher.cc.
 */
module OfflineCipher {
  import opened Sequences
  import opened Storage
  import opened CacheModel
  import opened Coherence
  import opened Refinement
  import opened DiskPages

  /** The file with its last page filled up with zeros. */
  function Padded(f: seq<byte>): (r: seq<byte>) {
    FlatRead(f, 0, PagesIn(f) * PAGE_SIZE)
  }

  function PagesIn(f: seq<byte>): (n: nat) {
    (|f| + PAGE_SIZE - 1) / PAGE_SIZE
  }

  /** One slot for each page; the page counter is an unsigned 32-bit word. */
  function Encoded(c: Cipher, f: seq<byte>, n: nat): (d: seq<Slot>)
    ensures |d| == n
    ensures forall p :: 0 <= p < n ==> d[p] == c.enc(p % UINT32, PageOf(f, p))
  {
    if n == 0 then [] else Encoded(c, f, n - 1) + [c.enc((n - 1) % UINT32, PageOf(f, n - 1))]
  }

  function Decoded(c: Cipher, d: seq<Slot>): (f: seq<byte>) {
    if d == [] then [] else Decoded(c, d[..|d| - 1]) + c.dec((|d| - 1) % UINT32, d[|d| - 1])
  }

  lemma {:induction false} DecodedAt(c: Cipher, d: seq<Slot>, i: nat)
    requires i < |d| * PAGE_SIZE
    ensures |Decoded(c, d)| == |d| * PAGE_SIZE
    ensures Decoded(c, d)[i] == c.dec(i / PAGE_SIZE % UINT32, d[i / PAGE_SIZE])[i % PAGE_SIZE]
  {
    var n := |d| - 1;
    DecodedLength(c, d[..n]);
    if i < n * PAGE_SIZE {
      DecodedAt(c, d[..n], i);
    }
  }

  lemma {:induction false} DecodedLength(c: Cipher, d: seq<Slot>)
    ensures |Decoded(c, d)| == |d| * PAGE_SIZE
  {
    if d != [] { DecodedLength(c, d[..|d| - 1]); }
  }

  /** Decrypting what was encrypted gives back the file, zero-padded to a whole page, for every length. */
  lemma RoundTrip(c: Cipher, f: seq<byte>)
    requires c.Lawful()
    ensures Decoded(c, Encoded(c, f, PagesIn(f))) == Padded(f)
  {
    hide Decoded, Encoded, Padded, PagesIn;
    var d := Encoded(c, f, PagesIn(f));
    DecodedLength(c, d);
    PaddedLength(f);
    forall i: nat | i < |d| * PAGE_SIZE ensures Decoded(c, d)[i] == Padded(f)[i] {
      RoundTripAt(c, f, i);
    }
  }

  lemma RoundTripAt(c: Cipher, f: seq<byte>, i: nat)
    requires c.Lawful() && i < PagesIn(f) * PAGE_SIZE
    ensures |Decoded(c, Encoded(c, f, PagesIn(f)))| == |Padded(f)| == PagesIn(f) * PAGE_SIZE
    ensures Decoded(c, Encoded(c, f, PagesIn(f)))[i] == Padded(f)[i]
  {
    hide Decoded, Encoded, Padded, PagesIn, PageOf;
    var d, p: nat := Encoded(c, f, PagesIn(f)), i / PAGE_SIZE;
    DecodedLength(c, d);
    DecodedAt(c, d, i);
    PaddedLength(f);
    PaddedAt(f, i);
    assert d[p] == c.enc(p % UINT32, PageOf(f, p));
  }

  lemma PaddedLength(f: seq<byte>)
    ensures |Padded(f)| == PagesIn(f) * PAGE_SIZE
  {
  }

  lemma PaddedAt(f: seq<byte>, i: nat)
    requires i < |Padded(f)|
    ensures Padded(f)[i] == PageOf(f, i / PAGE_SIZE)[i % PAGE_SIZE]
  {
    assert i / PAGE_SIZE * PAGE_SIZE + i % PAGE_SIZE == i;
  }

  lemma PaddedPage(f: seq<byte>, p: nat)
    ensures PageOf(Padded(f), p) == PageOf(f, p)
  {
    var g := Padded(f);
    forall i | 0 <= i < PAGE_SIZE ensures PageOf(g, p)[i] == PageOf(f, p)[i] {
      assert ByteAt(g, p * PAGE_SIZE + i) == ByteAt(f, p * PAGE_SIZE + i);
    }
  }

  /** A DiskCache opened on the tool's output stands for the padded file, with the matching file_size. */
  lemma EncodedOpens(c: Cipher, f: seq<byte>, capacity: nat)
    requires PagesIn(f) <= MAX_PAGE + 1
    ensures Sync(c, Open(Encoded(c, f, PagesIn(f)), capacity), Padded(f))
    ensures Open(Encoded(c, f, PagesIn(f)), capacity).fileSize == |Padded(f)|
  {
    var d := Encoded(c, f, PagesIn(f));
    forall p: nat | p < |d| ensures Settled(c, d, Padded(f), p) {
      PaddedPage(f, p);
    }
    OpenCoherent(c, d, Padded(f), capacity);
  }

  lemma EncodedStep(c: Cipher, f: seq<byte>, n: nat)
    ensures SlotWrite(Encoded(c, f, n), n, c.enc(n % UINT32, PageOf(f, n))) == Encoded(c, f, n + 1)
  {
    var x := c.enc(n % UINT32, PageOf(f, n));
    assert SlotWrite(Encoded(c, f, n), n, x) == Encoded(c, f, n) + [x];
  }

  /** What one read of the loop gets, filled up with zeros, is a page of the file. */
  lemma PageAtPosition(f: seq<byte>, n: nat)
    requires n <= PagesIn(f)
    ensures var r := FileRead(f, Min(n * PAGE_SIZE, |f|), PAGE_SIZE);
      && |r| <= PAGE_SIZE && r + Zeros(PAGE_SIZE - |r|) == PageOf(f, n)
      && (r == [] <==> n == PagesIn(f)) && |r| == Min((n + 1) * PAGE_SIZE, |f|) - Min(n * PAGE_SIZE, |f|)
  {
  }

  /** The 32-bit page counter after one more page. */
  lemma NextNumber(n: nat)
    ensures (n % UINT32 + 1) % UINT32 == (n + 1) % UINT32
  {
  }

  lemma DecodedStep(c: Cipher, d: seq<Slot>, n: nat)
    requires n < |d|
    ensures Decoded(c, d[..n + 1]) == Decoded(c, d[..n]) + c.dec(n % UINT32, d[n])
  {
    assert d[..n + 1][..n] == d[..n];
  }

  lemma NothingDecoded(c: Cipher, d: seq<Slot>)
    ensures Decoded(c, d[..0]) == []
  {
  }

  /** The encrypting loop. */
  method Encrypt(c: Cipher, input: DiskFile, output: DiskFile)
    requires input != output && input.position == 0 && output.data == [] && output.position == 0
    modifies input`position, output
    ensures Aligned(output.data)
    ensures SlotsOf(output.data) == Encoded(c, input.data, PagesIn(input.data))
  {
    hide SlotsOf, SlotWrite, FileRead, PageOf, Encoded;
    var pgno := 0;
    ghost var n: nat := 0;
    while true
      invariant pgno == n % UINT32 && n <= PagesIn(input.data)
      invariant input.position == Min(n * PAGE_SIZE, |input.data|)
      invariant Aligned(output.data) && output.position == |output.data|
      invariant SlotsOf(output.data) == Encoded(c, input.data, n)
      decreases PagesIn(input.data) - n
    {
      PageAtPosition(input.data, n);
      EncodedStep(c, input.data, n);
      var pageBuffer := input.Read(PAGE_SIZE);
      if |pageBuffer| != PAGE_SIZE {
        if |pageBuffer| == 0 {
          break;
        }
        pageBuffer := pageBuffer + Zeros(PAGE_SIZE - |pageBuffer|);
      }
      assert pageBuffer == PageOf(input.data, n);
      FileWriteIsSlotWrite(output.data, n, c.enc(pgno, pageBuffer));
      NextNumber(n);
      output.Write(c.enc(pgno, pageBuffer));
      n := n + 1;
      pgno := (pgno + 1) % UINT32;
    }
  }

  /** The file up to its last complete slot. */
  function WholeSlots(data: seq<byte>): (r: seq<byte>)
    ensures Aligned(r) && r <= data && |data| < |r| + PAGE_SIZE_DISK
  {
    data[..|data| - |data| % PAGE_SIZE_DISK]
  }

  lemma ReadSlotOfAny(data: seq<byte>, n: nat)
    requires n <= |SlotsOf(WholeSlots(data))|
    ensures var r, d := FileRead(data, n * PAGE_SIZE_DISK, PAGE_SIZE_DISK), SlotsOf(WholeSlots(data));
      if n < |d| then r == d[n] else |r| < PAGE_SIZE_DISK
  {
    FileReadIsSlot(WholeSlots(data), n);
    if n < |SlotsOf(WholeSlots(data))| {
      assert (n + 1) * PAGE_SIZE_DISK <= |WholeSlots(data)|;
    }
  }

  /** The decrypting loop; a trailing partial slot is dropped. */
  method Decrypt(c: Cipher, input: DiskFile, output: DiskFile)
    requires input != output && input.position == 0 && output.data == [] && output.position == 0
    modifies input`position, output
    ensures output.data == Decoded(c, SlotsOf(WholeSlots(input.data)))
  {
    hide SlotsOf, WholeSlots, Decoded, FileRead;
    var pgno := 0;
    ghost var n: nat := 0;
    ghost var d := SlotsOf(WholeSlots(input.data));
    NothingDecoded(c, d);
    while true
      invariant pgno == n % UINT32 && n <= |d|
      invariant input.position == n * PAGE_SIZE_DISK
      invariant output.position == |output.data| && output.data == Decoded(c, d[..n])
      decreases |d| - n
    {
      ReadSlotOfAny(input.data, n);
      var diskBuffer := input.Read(PAGE_SIZE_DISK);
      if |diskBuffer| != PAGE_SIZE_DISK {
        break;
      }
      DecodedStep(c, d, n);
      NextNumber(n);
      output.Write(c.dec(pgno, diskBuffer));
      n := n + 1;
      pgno := (pgno + 1) % UINT32;
    }
    assert d[..n] == d;
  }

  /** Both runs of the tool, one after the other. */
  method EncryptThenDecrypt(c: Cipher, input: DiskFile, middle: DiskFile, output: DiskFile)
    requires c.Lawful() && input != middle && middle != output && input != output
    requires input.position == 0 && middle.data == [] && middle.position == 0
    requires output.data == [] && output.position == 0
    modifies input`position, middle, output
    ensures output.data == Padded(input.data)
  {
    Encrypt(c, input, middle);
    assert WholeSlots(middle.data) == middle.data;
    middle.Lseek(0);
    Decrypt(c, middle, output);
    RoundTrip(c, input.data);
  }
}
