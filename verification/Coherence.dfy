/**
 The cache agrees with a flat byte array: every run of reads, writes, flushes and reopenings,
 under every capacity, returns the bytes that a zero-extended array would.
 */
module Coherence {
  import opened Sequences
  import opened Storage
  import opened CacheModel

  // ----- the flat array -----

  function ByteAt(f: seq<byte>, i: nat): (b: byte) {
    if i < |f| then f[i] else 0
  }

  function FlatRead(f: seq<byte>, pos: nat, size: nat): (r: seq<byte>) {
    seq(size, i requires 0 <= i < size => ByteAt(f, pos + i))
  }

  /** A write zero-extends the array to the end of the last page it touches. */
  function FlatWrite(f: seq<byte>, pos: nat, data: seq<byte>): (r: seq<byte>)
    requires data != []
    ensures |r| == Max(|f|, WriteEnd(pos, |data|))
    ensures forall i: nat :: ByteAt(r, i) == if pos <= i < pos + |data| then data[i - pos] else ByteAt(f, i)
  {
    seq(Max(|f|, WriteEnd(pos, |data|)),
        i requires 0 <= i => if pos <= i < pos + |data| then data[i - pos] else ByteAt(f, i))
  }

  function PageOf(f: seq<byte>, p: nat): (x: Page)
    ensures forall i :: 0 <= i < PAGE_SIZE ==> x[i] == ByteAt(f, p * PAGE_SIZE + i)
  {
    FlatRead(f, p * PAGE_SIZE, PAGE_SIZE)
  }

  function PageCount(f: seq<byte>): (n: nat) {
    |f| / PAGE_SIZE
  }

  lemma PageBeyondEnd(f: seq<byte>, p: nat)
    requires |f| % PAGE_SIZE == 0 && p >= PageCount(f)
    ensures PageOf(f, p) == ZERO_PAGE
  {
  }

  lemma PageOfPiece(f: seq<byte>, p: nat, at: nat, len: nat)
    requires at + len <= PAGE_SIZE
    ensures PageOf(f, p)[at..at + len] == FlatRead(f, p * PAGE_SIZE + at, len)
  {
  }

  lemma PageOfWrite(f: seq<byte>, p: nat, at: nat, data: seq<byte>, q: nat)
    requires data != [] && at + |data| <= PAGE_SIZE
    ensures PageOf(FlatWrite(f, p * PAGE_SIZE + at, data), q)
         == if q == p then Splice(PageOf(f, p), at, data) else PageOf(f, q)
  {
    var g := FlatWrite(f, p * PAGE_SIZE + at, data);
    if q < p {
      assert q * PAGE_SIZE + PAGE_SIZE <= p * PAGE_SIZE;
    } else if q > p {
      assert p * PAGE_SIZE + PAGE_SIZE <= q * PAGE_SIZE;
    }
    forall i | 0 <= i < PAGE_SIZE
      ensures PageOf(g, q)[i] == if q == p then Splice(PageOf(f, p), at, data)[i] else PageOf(f, q)[i]
    {
      assert PageOf(g, q)[i] == ByteAt(g, q * PAGE_SIZE + i);
    }
  }

  // ----- the invariant -----

  /** The pages lo, ..., hi - 1. */
  datatype Gap = Gap(lo: nat, hi: nat) {
    predicate Has(p: nat) {
      lo <= p < hi
    }
  }

  const NO_GAP := Gap(0, 0)

  /** What a write whose first page is p leaves unwritten past the end of the array. */
  function SkippedBy(f: seq<byte>, gap: Gap, p: nat): (g: Gap) {
    if PageCount(f) < p then Gap(PageCount(f), p) else gap
  }

  ghost predicate IsDirty(s: Cache, p: nat) {
    p in s.frames && s.frames[p].dirty
  }

  ghost predicate Settled(c: Cipher, disk: seq<Slot>, f: seq<byte>, p: nat) {
    p < |disk| && disk[p] == c.enc(p, PageOf(f, p))
  }

  /**
   Every page of the array is either cached and dirty or encrypted in its own slot, no slot lies past
   the last page, and every cached page holds its bytes of the array. The pages of `gap`, which a write
   past the end skipped, are clean and their slots, when on the disk at all, are holes.
   */
  ghost predicate Coherent(c: Cipher, s: Cache, f: seq<byte>, gap: Gap) {
    && |f| % PAGE_SIZE == 0
    && |s.disk| <= PageCount(f)
    && (forall p: nat :: p < PageCount(f) && !gap.Has(p) ==> Settled(c, s.disk, f, p) || IsDirty(s, p))
    && (forall p: nat :: p in s.frames && !gap.Has(p) ==> s.frames[p].buffer == PageOf(f, p))
    && (forall p: nat :: IsDirty(s, p) ==> p < PageCount(f) && !gap.Has(p))
    && (forall p: nat :: gap.Has(p) ==> p < PageCount(f) && (p < |s.disk| ==> s.disk[p] == HOLE))
  }

  // ----- every primitive step keeps it -----

  lemma FlushPageCoherent(c: Cipher, s: Cache, f: seq<byte>, gap: Gap, p: nat)
    requires Coherent(c, s, f, gap)
    ensures Coherent(c, FlushPage(c, s, p), f, gap)
  {
    var t := FlushPage(c, s, p);
    if IsDirty(s, p) {
      forall q: nat | q < PageCount(f) && !gap.Has(q) ensures Settled(c, t.disk, f, q) || IsDirty(t, q) {
        assert Settled(c, s.disk, f, q) || IsDirty(s, q);
      }
      forall q: nat | IsDirty(t, q) ensures q < PageCount(f) && !gap.Has(q) {
        assert IsDirty(s, q);
      }
    }
  }

  lemma DeletePageCoherent(c: Cipher, s: Cache, f: seq<byte>, gap: Gap, p: nat)
    requires Coherent(c, s, f, gap)
    ensures Coherent(c, DeletePage(c, s, p), f, gap)
  {
    var u := FlushPage(c, s, p);
    FlushPageCoherent(c, s, f, gap, p);
    var t := DeletePage(c, s, p);
    assert forall q: nat :: IsDirty(t, q) <==> IsDirty(u, q);
  }

  lemma GetPageCoherent(c: Cipher, s: Cache, f: seq<byte>, gap: Gap, p: nat)
    requires c.Lawful() && Coherent(c, s, f, gap)
    ensures Coherent(c, GetPage(c, s, p), f, gap)
  {
    var t := GetPage(c, s, p);
    assert forall q: nat :: IsDirty(t, q) <==> IsDirty(s, q);
    if p !in s.frames && !gap.Has(p) {
      if p < PageCount(f) {
        assert Settled(c, s.disk, f, p);
        assert SlotRead(c, s.disk, p) == PageOf(f, p);
      } else {
        PageBeyondEnd(f, p);
      }
    }
  }

  lemma {:induction false} EvictCoherent(c: Cipher, s: Cache, f: seq<byte>, gap: Gap, max: nat)
    requires Coherent(c, s, f, gap)
    ensures Coherent(c, Evict(c, s, max), f, gap)
    decreases |s.lru|
  {
    if |s.lru| > max {
      var t := s.(lru := s.lru[1..]);
      assert forall q: nat :: IsDirty(t, q) <==> IsDirty(s, q);
      DeletePageCoherent(c, t, f, gap, s.lru[0]);
      EvictCoherent(c, DeletePage(c, t, s.lru[0]), f, gap, max);
    }
  }

  lemma ReleaseCoherent(c: Cipher, s: Cache, f: seq<byte>, gap: Gap, p: nat, max: nat)
    requires Coherent(c, s, f, gap)
    ensures Coherent(c, ReleasePage(c, s, p, max), f, gap)
  {
    var t := s.(lru := s.lru + [p]);
    assert forall q: nat :: IsDirty(t, q) <==> IsDirty(s, q);
    assert Coherent(c, t, f, gap);
    EvictCoherent(c, t, f, gap, max);
    EvictCoherent(c, s, f, gap, max);
  }

  /** A write inside page p, seen page by page. */
  lemma WriteByPages(f: seq<byte>, p: nat, at: nat, data: seq<byte>)
    requires |f| % PAGE_SIZE == 0 && data != [] && at + |data| <= PAGE_SIZE
    ensures var g := FlatWrite(f, p * PAGE_SIZE + at, data);
      && |g| % PAGE_SIZE == 0 && PageCount(g) == Max(PageCount(f), p + 1)
      && forall q: nat :: PageOf(g, q) == if q == p then Splice(PageOf(f, p), at, data) else PageOf(f, q)
  {
    assert WriteEnd(p * PAGE_SIZE + at, |data|) == (p + 1) * PAGE_SIZE;
    forall q: nat
      ensures PageOf(FlatWrite(f, p * PAGE_SIZE + at, data), q)
           == if q == p then Splice(PageOf(f, p), at, data) else PageOf(f, q)
    {
      PageOfWrite(f, p, at, data, q);
    }
  }

  lemma PokeCoherent(c: Cipher, s: Cache, f: seq<byte>, gap: Gap, p: nat, at: nat, data: seq<byte>)
    requires Coherent(c, s, f, gap) && p in s.frames && gap.hi <= p
    requires gap == NO_GAP || p <= PageCount(f)
    requires data != [] && at + |data| <= PAGE_SIZE
    ensures Coherent(c, Poke(s, p, at, data), FlatWrite(f, p * PAGE_SIZE + at, data), SkippedBy(f, gap, p))
  {
    hide FlatWrite, ByteAt, PageOf, Splice, WriteEnd;
    var t := Poke(s, p, at, data);
    var g := FlatWrite(f, p * PAGE_SIZE + at, data);
    WriteByPages(f, p, at, data);
    assert forall q: nat :: IsDirty(t, q) <==> q == p || IsDirty(s, q);
    forall q: nat | q < PageCount(g) && !SkippedBy(f, gap, p).Has(q)
      ensures Settled(c, t.disk, g, q) || IsDirty(t, q)
    {
      if q != p {
        assert q < PageCount(f);
        assert Settled(c, s.disk, f, q) || IsDirty(s, q);
      }
    }
  }
}
