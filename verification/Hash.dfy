/**
 The chained hash DLL3::Hash: buckets of items that each remember their bucket and their owner, and
 a table that moves to the next prime size as it fills. Mirrors the Hash half of aes_vfs/dll3.tcc;
 a bucket is the sequence that LinkedLists.List implements.
 */
module Hashes {
  import opened Sequences
  import opened Storage

  const PRIMES: seq<nat> :=
    [97, 251, 499, 997, 1999, 4999, 9973, 24989, 49999, 99991, 249989, 499979, 999983, 2499997, 4999999, 9999991]

  /** The hash's part of an item; the key is the page number, which is its own hash. */
  class Item {
    const key: nat
    var hsh: Hash?
    var h: nat

    constructor (key: nat)
      ensures this.key == key && hsh == null
    {
      this.key := key;
      hsh, h := null, 0xFFFF_FFFF;
    }
  }

  // ----- the table as a value -----

  /** The table holds the items with the given keys, each once, in the bucket of its key. */
  ghost predicate Placed(table: seq<seq<Item>>, size: nat, items: map<nat, Item>, keys: set<nat>)
    requires size > 0
  {
    && |table| == size
    && (forall b :: 0 <= b < size ==> NoDup(table[b]))
    && (forall b, i :: 0 <= b < size && 0 <= i < |table[b]| ==> Fits(table[b][i], b, size, items, keys))
    && (forall k :: k in keys ==> k in items && items[k].key == k && items[k] in table[k % size])
  }

  ghost predicate Fits(x: Item, b: nat, size: nat, items: map<nat, Item>, keys: set<nat>)
    requires size > 0
  {
    x.key in keys && x.key in items && items[x.key] == x && x.key % size == b
  }

  lemma PutPlaced(table: seq<seq<Item>>, size: nat, items: map<nat, Item>, keys: set<nat>, x: Item)
    requires size > 0 && Placed(table, size, items, keys)
    requires x.key in items && items[x.key] == x && x.key !in keys
    ensures Placed(table[x.key % size := table[x.key % size] + [x]], size, items, keys + {x.key})
  {
    var b := x.key % size;
    assert x !in table[b];
    var t := table[b := table[b] + [x]];
    forall c, i | 0 <= c < size && 0 <= i < |t[c]| ensures Fits(t[c][i], c, size, items, keys + {x.key}) {
      if c != b || i < |table[b]| {
        assert Fits(table[c][i], c, size, items, keys);
      }
    }
    forall k | k in keys + {x.key} ensures k in items && items[k].key == k && items[k] in t[k % size] {
      if k in keys && k % size == b {
        assert items[k] in table[b];
      }
    }
  }

  lemma DropPlaced(table: seq<seq<Item>>, size: nat, items: map<nat, Item>, keys: set<nat>, x: Item)
    requires size > 0 && Placed(table, size, items, keys) && x.key in keys && items[x.key] == x
    ensures Placed(table[x.key % size := Remove(table[x.key % size], x)], size, items, keys - {x.key})
  {
    var b := x.key % size;
    var t := table[b := Remove(table[b], x)];
    RemoveNoDup(table[b], x);
    forall c, i | 0 <= c < size && 0 <= i < |t[c]| ensures Fits(t[c][i], c, size, items, keys - {x.key}) {
      var y := t[c][i];
      if c == b {
        RemoveMember(table[b], x, y);
      }
      assert y in table[c];
      var j :| 0 <= j < |table[c]| && table[c][j] == y;
      assert Fits(table[c][j], c, size, items, keys);
    }
    forall k | k in keys - {x.key} ensures k in items && items[k].key == k && items[k] in t[k % size] {
      assert items[k] in table[k % size];
    }
  }

  /** Taking the head of a bucket. */
  lemma TakePlaced(table: seq<seq<Item>>, size: nat, items: map<nat, Item>, keys: set<nat>, b: nat)
    requires size > 0 && Placed(table, size, items, keys) && b < size && table[b] != []
    ensures var x := table[b][0];
      Fits(x, b, size, items, keys) && Placed(table[b := table[b][1..]], size, items, keys - {x.key})
  {
    var x := table[b][0];
    assert Fits(x, b, size, items, keys);
    DropPlaced(table, size, items, keys, x);
    assert Remove(table[b], x) == table[b][1..];
  }

  lemma TableSize(table: seq<seq<Item>>, size: nat, items: map<nat, Item>, keys: set<nat>)
    requires size > 0 && Placed(table, size, items, keys)
    ensures |table| == size && forall k :: k in keys ==> k in items && items[k].key == k
  {
  }

  lemma EmptyPlaced(size: nat, items: map<nat, Item>)
    requires size > 0
    ensures Placed(Empty(size), size, items, {})
  {
  }

  lemma MorePlaced(table: seq<seq<Item>>, size: nat, items: map<nat, Item>, more: map<nat, Item>, keys: set<nat>)
    requires size > 0 && Placed(table, size, items, keys)
    requires forall k :: k in keys ==> k in more && k in items && more[k] == items[k]
    ensures Placed(table, size, more, keys)
  {
    forall b, i | 0 <= b < size && 0 <= i < |table[b]| ensures Fits(table[b][i], b, size, more, keys) {
      assert Fits(table[b][i], b, size, items, keys);
    }
  }

  lemma PutNew(table: seq<seq<Item>>, size: nat, items: map<nat, Item>, x: Item)
    requires size > 0 && Placed(table, size, items, items.Keys) && x.key !in items
    ensures Placed(table[x.key % size := table[x.key % size] + [x]], size, items[x.key := x], items[x.key := x].Keys)
    ensures |items[x.key := x]| == |items| + 1
  {
    assert items[x.key := x].Keys == items.Keys + {x.key};
    MorePlaced(table, size, items, items[x.key := x], items.Keys);
    PutPlaced(table, size, items[x.key := x], items.Keys, x);
  }

  lemma DropOld(table: seq<seq<Item>>, size: nat, items: map<nat, Item>, x: Item)
    requires size > 0 && Placed(table, size, items, items.Keys) && x.key in items && items[x.key] == x
    ensures Placed(table[x.key % size := Remove(table[x.key % size], x)], size, items - {x.key}, (items - {x.key}).Keys)
    ensures |items - {x.key}| == |items| - 1
  {
    assert (items - {x.key}).Keys == items.Keys - {x.key};
    DropPlaced(table, size, items, items.Keys, x);
    MorePlaced(table[x.key % size := Remove(table[x.key % size], x)], size, items, items - {x.key},
               items.Keys - {x.key});
    assert |items.Keys - {x.key}| == |items.Keys| - 1;
  }

  function Empty(size: nat): (t: seq<seq<Item>>) {
    seq(size, _ => [])
  }

  /** The order that rehash moves to. */
  function NextOrder(order: nat, cnt: nat): (n: nat)
    requires order < |PRIMES|
  {
    var average := cnt / PRIMES[order];
    if average > 5 then order + 1
    else if average == 0 && order > 0 then order - 1
    else order
  }

  lemma NextOrderIs(order: nat, cnt: nat)
    requires order < |PRIMES|
    ensures PRIMES[order] > 0
    ensures var average := cnt / PRIMES[order];
      && (average > 5 ==> NextOrder(order, cnt) == order + 1)
      && (average == 0 && order > 0 ==> NextOrder(order, cnt) == order - 1)
      && (average <= 5 && !(average == 0 && order > 0) ==> NextOrder(order, cnt) == order)
  {
  }

  /** Six times each prime exceeds the next one, so a table that has just grown is not too large. */
  lemma PrimesClose(i: nat)
    requires i + 1 < |PRIMES|
    ensures 0 < PRIMES[i] < PRIMES[i + 1] < 6 * PRIMES[i]
  {
  }

  lemma PrimesPositive(i: nat)
    requires i < |PRIMES|
    ensures PRIMES[i] > 0
  {
  }

  /** The one case in which rehash would index past the table of primes. */
  lemma RehashInRangeExactly(order: nat, cnt: nat)
    requires order < |PRIMES|
    ensures NextOrder(order, cnt) < |PRIMES| <==> !(order == 15 && cnt >= 6 * 9999991)
  {
    PrimesPositive(order);
  }

  // ----- the counters over whole runs of add and remove -----

  /** The order of the table, the live items and the items moved so far; cnt is live + moved. */
  datatype Tally = Tally(order: nat, live: nat, moved: nat)

  ghost predicate CanStep(y: Tally, add: bool) {
    && y.order < |PRIMES| && (add || y.live > 0)
    && NextOrder(y.order, if add then y.live + 1 + y.moved else y.live - 1 + y.moved) < |PRIMES|
  }

  function TallyStep(y: Tally, add: bool): (z: Tally)
    requires CanStep(y, add)
  {
    var live := if add then y.live + 1 else y.live - 1;
    var order := NextOrder(y.order, live + y.moved);
    Tally(order, live, if order == y.order then y.moved else y.moved + live)
  }

  ghost predicate IsRun(y: Tally, adds: seq<bool>)
    decreases |adds|
  {
    adds == [] || (CanStep(y, adds[0]) && IsRun(TallyStep(y, adds[0]), adds[1..]))
  }

  function TallyRun(y: Tally, adds: seq<bool>): (z: Tally)
    requires IsRun(y, adds)
    decreases |adds|
  {
    if adds == [] then y else TallyRun(TallyStep(y, adds[0]), adds[1..])
  }

  /** A table beyond the first order was reached by moving more items than it has buckets. */
  ghost predicate Enough(order: nat, moved: nat) {
    order < |PRIMES| && (order > 0 ==> moved >= 6 * PRIMES[order - 1])
  }

  lemma TallyStepGrows(y: Tally, add: bool)
    requires Enough(y.order, y.moved) && CanStep(y, add)
    ensures var z := TallyStep(y, add);
      Enough(z.order, z.moved) && y.order <= z.order && y.moved <= z.moved
  {
    hide NextOrder;
    var live := if add then y.live + 1 else y.live - 1;
    GrownStep(y.order, live, y.moved, NextOrder(y.order, live + y.moved));
  }

  /**
   Over every run of adds and removes the table only grows: the items that a growth counts a second
   time keep the count above the new size for good, so the shrinking branch is never taken.
   */
  lemma {:induction false} NeverShrinks(y: Tally, adds: seq<bool>)
    requires IsRun(y, adds) && Enough(y.order, y.moved)
    ensures var z := TallyRun(y, adds);
      Enough(z.order, z.moved) && y.order <= z.order && y.moved <= z.moved
    decreases |adds|
  {
    hide Enough, TallyStep;
    if adds != [] {
      TallyStepGrows(y, adds[0]);
      NeverShrinks(TallyStep(y, adds[0]), adds[1..]);
    }
  }

  /** Growing keeps `moved` above the new size, and then the count never falls below it again. */
  lemma GrownStep(order: nat, live: nat, before: nat, next: nat)
    requires Enough(order, before)
    requires next == NextOrder(order, live + before) < |PRIMES|
    ensures next == order || (next == order + 1 && before + live >= 6 * PRIMES[order])
  {
    PrimesPositive(order);
    if order > 0 {
      PrimesClose(order - 1);
      assert (live + before) / PRIMES[order] >= 1;
    }
  }

  // ----- exactly how far the table can grow -----

  /** The count at which the table grew to this order. */
  function Base(order: nat): (n: nat)
    requires order < |PRIMES|
  {
    if order == 0 then 0 else 6 * PRIMES[order - 1]
  }

  /** Each growth came when the count reached six times the size, and its moved items were counted again. */
  ghost predicate Tight(order: nat, live: nat, moved: nat) {
    order < |PRIMES| && moved == Base(order) && live + moved < 6 * PRIMES[order]
  }

  /** The most live items a hash can hold. */
  const ROOM: nat := 29999951

  /** The gaps between neighbouring primes of the table grow, so a table that has just grown does not grow at once. */
  lemma GapsGrow(i: nat)
    requires i < |PRIMES|
    ensures Base(i) < 6 * PRIMES[i] && PRIMES[i] > 0 && (i > 0 ==> Base(i) >= PRIMES[i])
    ensures if i + 1 < |PRIMES| then 12 * PRIMES[i] < Base(i) + 6 * PRIMES[i + 1] && 6 * PRIMES[i] <= Base(i) + ROOM
            else 6 * PRIMES[i] == Base(i) + ROOM + 1
  {
  }

  /** The count after one more addition or removal, seen by rehash. */
  lemma GrowsAtSix(order: nat, cnt: nat)
    requires order < |PRIMES| && Base(order) <= cnt <= 6 * PRIMES[order]
    ensures NextOrder(order, cnt) == if cnt == 6 * PRIMES[order] then order + 1 else order
  {
    NextOrderIs(order, cnt);
    GapsGrow(order);
    QuotientAtSix(cnt, PRIMES[order]);
  }

  lemma QuotientAtSix(cnt: nat, p: nat)
    requires 0 < p && cnt <= 6 * p
    ensures cnt / p > 5 <==> cnt == 6 * p
    ensures cnt >= p ==> cnt / p > 0
  {
  }

  /** `live` is the number of items after the step: rehash stays in its table exactly up to ROOM of them. */
  lemma TightStep(order: nat, before: nat, live: nat, moved: nat)
    requires Tight(order, before, moved) && live <= before + 1
    ensures var next := NextOrder(order, live + moved);
      && (next < |PRIMES| <==> live <= ROOM)
      && next == (if live + moved == 6 * PRIMES[order] then order + 1 else order)
      && (live <= ROOM ==> Tight(next, live, if next == order then moved else moved + live))
  {
    GrowsAtSix(order, live + moved);
    GapsGrow(order);
  }

  lemma TightRoom(order: nat, live: nat, moved: nat)
    requires Tight(order, live, moved)
    ensures live <= ROOM && order < |PRIMES| && live + moved < 6 * PRIMES[order]
  {
    GapsGrow(order);
  }

  /** The live items stay between 0 and n over the run. */
  ghost predicate LiveWithin(live: nat, adds: seq<bool>, n: nat)
    decreases |adds|
  {
    live <= n &&
    (adds == [] || ((adds[0] || live > 0) && LiveWithin(if adds[0] then live + 1 else live - 1, adds[1..], n)))
  }

  /**
   A run of adds and removes on an empty hash never indexes past the primes exactly when no more than ROOM items
   are ever live.
   */
  lemma RunsExactly(adds: seq<bool>)
    ensures IsRun(Tally(0, 0, 0), adds) <==> LiveWithin(0, adds, 29999951)
  {
    RunsExactlyFrom(Tally(0, 0, 0), adds);
  }

  lemma {:induction false} RunsExactlyFrom(y: Tally, adds: seq<bool>)
    requires Tight(y.order, y.live, y.moved)
    ensures IsRun(y, adds) <==> LiveWithin(y.live, adds, ROOM)
    ensures IsRun(y, adds) ==>
      Tight(TallyRun(y, adds).order, TallyRun(y, adds).live, TallyRun(y, adds).moved)
    decreases |adds|
  {
    hide Tight, NextOrder;
    TightRoom(y.order, y.live, y.moved);
    if adds != [] && (adds[0] || y.live > 0) {
      var live: nat := if adds[0] then y.live + 1 else y.live - 1;
      TightStep(y.order, y.live, live, y.moved);
      if live <= ROOM {
        RunsExactlyFrom(TallyStep(y, adds[0]), adds[1..]);
      }
    }
  }

  lemma {:induction false} WithinMore(live: nat, adds: seq<bool>, n: nat, m: nat)
    requires LiveWithin(live, adds, n) && n <= m
    ensures LiveWithin(live, adds, m)
    decreases |adds|
  {
    if adds != [] { WithinMore(if adds[0] then live + 1 else live - 1, adds[1..], n, m); }
  }

  /** So a hash of bounded size is safe under every run. */
  lemma SmallRunsStayInRange(y: Tally, adds: seq<bool>, n: nat)
    requires Tight(y.order, y.live, y.moved) && n <= ROOM && LiveWithin(y.live, adds, n)
    ensures IsRun(y, adds) && Tight(TallyRun(y, adds).order, TallyRun(y, adds).live, TallyRun(y, adds).moved)
  {
    WithinMore(y.live, adds, n, ROOM);
    RunsExactlyFrom(y, adds);
  }

  /** n additions, one after the other. */
  function Additions(n: nat): (adds: seq<bool>) {
    seq(n, _ => true)
  }

  lemma {:induction false} AdditionsWithin(live: nat, n: nat, m: nat)
    ensures LiveWithin(live, Additions(n), m) <==> live + n <= m
    decreases n
  {
    if n > 0 {
      assert Additions(n)[1..] == Additions(n - 1);
      AdditionsWithin(live + 1, n - 1, m);
    }
  }

  lemma {:induction false} AdditionsCount(y: Tally, n: nat)
    requires IsRun(y, Additions(n))
    ensures TallyRun(y, Additions(n)).live == y.live + n
    decreases n
  {
    if n > 0 {
      assert Additions(n)[1..] == Additions(n - 1);
      AdditionsCount(TallyStep(y, true), n - 1);
    }
  }

  /** n additions to an empty hash are served, and the next one makes rehash index past the primes. */
  ghost predicate Overruns(n: nat) {
    IsRun(Tally(0, 0, 0), Additions(n)) &&
    var y := TallyRun(Tally(0, 0, 0), Additions(n));
    y.order < |PRIMES| && NextOrder(y.order, y.live + 1 + y.moved) >= |PRIMES|
  }

  /** That happens after ROOM additions of distinct keys, and at no other number. */
  lemma OverrunReached(n: nat)
    ensures Overruns(n) <==> n == ROOM
  {
    var start := Tally(0, 0, 0);
    RunsExactlyFrom(start, Additions(n));
    hide LiveWithin, IsRun, TallyRun, Additions, Tight, NextOrder;
    AdditionsWithin(0, n, ROOM);
    if IsRun(start, Additions(n)) {
      var y := TallyRun(start, Additions(n));
      AdditionsCount(start, n);
      TightRoom(y.order, y.live, y.moved);
      TightStep(y.order, y.live, n + 1, y.moved);
    }
  }

  /** The cache's page numbers are few enough. */
  lemma PageNumbersFit(items: map<nat, Item>)
    requires forall k :: k in items ==> k <= MAX_PAGE
    ensures |items| <= MAX_PAGE + 1 <= ROOM
  {
    assert items.Keys <= Upto(MAX_PAGE + 1);
    SubsetSize(items.Keys, Upto(MAX_PAGE + 1));
  }

  ghost function Upto(n: nat): (s: set<nat>)
    ensures forall k: nat :: k in s <==> k < n
    ensures |s| == n
  {
    if n == 0 then {} else Upto(n - 1) + {n - 1}
  }

  lemma {:induction false} SubsetSize(a: set<nat>, b: set<nat>)
    requires a <= b
    ensures |a| <= |b|
  {
    if x :| x in a {
      SubsetSize(a - {x}, b - {x});
    }
  }

  /** Each key is in one of the two tables. */
  ghost predicate Parted(left: set<nat>, done: set<nat>, keys: set<nat>) {
    left !! done && left + done == keys
  }

  lemma Moved(left: set<nat>, done: set<nat>, keys: set<nat>, k: nat)
    requires Parted(left, done, keys) && k in left
    ensures Parted(left - {k}, done + {k}, keys) && |done + {k}| == |done| + 1 && k !in done && k in keys
  {
  }

  class Hash {
    var hash: seq<seq<Item>>
    var hashorder: nat
    var hashsize: nat
    var cnt: nat
    /** What the hash stands for: the item of each key. */
    ghost var items: map<nat, Item>
    /** How many items rehashes have moved so far; `_add` counts each of them again. */
    ghost var moved: nat

    /** Every item is in its bucket, and the count is that of the items and of those moved. */
    ghost predicate Filled()
      reads this, items.Values
    {
      && hashorder < |PRIMES| && hashsize == PRIMES[hashorder] > 0
      && Placed(hash, hashsize, items, items.Keys)
      && (forall k :: k in items ==> items[k].hsh == this && items[k].h == k % hashsize)
      && cnt == |items| + moved
    }

    ghost predicate Valid()
      reads this, items.Values
    {
      Filled() && Tight(hashorder, |items|, moved)
    }

    /** An addition finds its next order in the table exactly while there is room, a removal always does. */
    lemma InRange()
      requires Valid()
      ensures NextOrder(hashorder, cnt + 1) < |PRIMES| <==> |items| < ROOM
      ensures items != map[] ==> NextOrder(hashorder, cnt - 1) < |PRIMES|
    {
      hide NextOrder, Tight, Placed;
      TightRoom(hashorder, |items|, moved);
      TightStep(hashorder, |items|, |items| + 1, moved);
      if items != map[] {
        var k :| k in items;
        assert |items| > 0;
        TightStep(hashorder, |items|, |items| - 1, moved);
      }
    }

    constructor ()
      ensures Valid() && items == map[] && hashorder == 0
    {
      hashorder := 0;
      hashsize := PRIMES[0];
      hash := Empty(PRIMES[0]);
      cnt, items, moved := 0, map[], 0;
    }

    /** `_add`: append to the bucket of the item's key, take ownership, count. */
    method Append(x: Item)
      requires 0 < hashsize == |hash|
      modifies this`hash, this`cnt, x
      ensures hash == old(hash)[x.key % hashsize := old(hash)[x.key % hashsize] + [x]]
      ensures x.h == x.key % hashsize && x.hsh == this && cnt == old(cnt) + 1
    {
      x.h := x.key % hashsize;
      hash := hash[x.h := hash[x.h] + [x]];
      x.hsh := this;
      cnt := cnt + 1;
    }

    /** Midway through `_rehash`: the keys `left` are still in the old table, the keys `done` in the new one. */
    ghost predicate Moving(oldHash: seq<seq<Item>>, oldSize: nat, left: set<nat>, done: set<nat>, start: int)
      reads this, items.Values
    {
      && hashorder < |PRIMES| && hashsize == PRIMES[hashorder] > 0 && oldSize > 0
      && Parted(left, done, items.Keys) && cnt == start + |done|
      && Placed(oldHash, oldSize, items, left) && Placed(hash, hashsize, items, done)
      && (forall k :: k in done ==> items[k].hsh == this && items[k].h == k % hashsize)
    }

    /** One `_add(dequeue_head())`. */
    method MoveHead(oldHash: seq<seq<Item>>, oldSize: nat, h: nat,
                    ghost left: set<nat>, ghost done: set<nat>, ghost start: int)
      returns (rest: seq<seq<Item>>, ghost moving: nat)
      requires Moving(oldHash, oldSize, left, done, start)
      requires h < oldSize == |oldHash| && oldHash[h] != []
      modifies this`hash, this`cnt, items.Values
      ensures rest == oldHash[h := oldHash[h][1..]]
      ensures Moving(rest, oldSize, left - {moving}, done + {moving}, start)
    {
      hide Placed, Parted;
      var t := oldHash[h][0];
      moving := t.key;
      TakePlaced(oldHash, oldSize, items, left, h);
      Moved(left, done, items.Keys, t.key);
      PutPlaced(hash, hashsize, items, done, t);
      TableSize(hash, hashsize, items, done);
      rest := oldHash[h := oldHash[h][1..]];
      Append(t);
    }

    /** The new table, empty. */
    method NewTable(newOrder: nat)
      requires Filled() && newOrder < |PRIMES|
      modifies this`hash, this`hashorder, this`hashsize
      ensures hashorder == newOrder && |old(hash)| == old(hashsize)
      ensures Moving(old(hash), old(hashsize), items.Keys, {}, cnt)
    {
      hide Placed, Empty;
      PrimesPositive(newOrder);
      TableSize(hash, hashsize, items, items.Keys);
      hashorder := newOrder;
      hashsize := PRIMES[newOrder];
      hash := Empty(hashsize);
      EmptyPlaced(hashsize, items);
    }

    lemma MovingEnd(oldHash: seq<seq<Item>>, oldSize: nat, left: set<nat>, done: set<nat>, start: int)
      requires Moving(oldHash, oldSize, left, done, start)
      requires |oldHash| == oldSize && forall b :: 0 <= b < oldSize ==> oldHash[b] == []
      ensures hashorder < |PRIMES| && hashsize == PRIMES[hashorder] > 0 && cnt == start + |items|
      ensures Placed(hash, hashsize, items, items.Keys)
      ensures forall k :: k in items ==> items[k].hsh == this && items[k].h == k % hashsize
    {
      AllMoved(oldHash, oldSize, items, left);
      assert done == items.Keys;
    }

    /** `_rehash`: every item of the old table is moved to a new one of another size. */
    method RehashTo(newOrder: nat)
      requires Filled() && newOrder < |PRIMES|
      modifies this, items.Values
      ensures Filled() && items == old(items) && hashorder == newOrder
      ensures moved == old(moved) + |items|
    {
      hide Placed, Moving;
      var oldHash, oldHashSize := hash, hashsize;
      ghost var left, done: set<nat>, moving := items.Keys, {}, 0;
      NewTable(newOrder);
      for h := 0 to oldHashSize
        invariant hashorder == newOrder && items == old(items) && moved == old(moved)
        invariant Moving(oldHash, oldHashSize, left, done, old(cnt))
        invariant |oldHash| == oldHashSize && forall b :: 0 <= b < h ==> oldHash[b] == []
      {
        while oldHash[h] != []
          invariant hashorder == newOrder && items == old(items) && moved == old(moved)
          invariant Moving(oldHash, oldHashSize, left, done, old(cnt))
          invariant |oldHash| == oldHashSize && forall b :: 0 <= b < h ==> oldHash[b] == []
          decreases |oldHash[h]|
        {
          oldHash, moving := MoveHead(oldHash, oldHashSize, h, left, done, old(cnt));
          left, done := left - {moving}, done + {moving};
        }
      }
      MovingEnd(oldHash, oldHashSize, left, done, old(cnt));
      moved := moved + |items|;
    }

    lemma AllMoved(table: seq<seq<Item>>, size: nat, all: map<nat, Item>, left: set<nat>)
      requires size > 0 && Placed(table, size, all, left) && forall b :: 0 <= b < size ==> table[b] == []
      ensures left == {}
    {
      if k :| k in left {
        assert all[k] in table[k % size];
      }
    }

    /** `rehash`: grow when the average chain is over five, shrink when it is below one. */
    method Rehash()
      requires Filled() && NextOrder(hashorder, cnt) < |PRIMES|
      modifies this, items.Values
      ensures Filled() && items == old(items)
      ensures hashorder == NextOrder(old(hashorder), old(cnt))
      ensures moved == if hashorder == old(hashorder) then old(moved) else old(moved) + |items|
    {
      NextOrderIs(hashorder, cnt);
      hide Placed, NextOrder;
      var average := cnt / hashsize;
      if average > 5 && hashorder < |PRIMES| {
        RehashTo(hashorder + 1);
      }
      if average == 0 && hashorder > 0 {
        RehashTo(hashorder - 1);
      }
    }

    /** `add` up to its rehash. */
    method Put(x: Item)
      requires Filled() && x.hsh == null && x.key !in items
      modifies this`hash, this`cnt, this`items, x
      ensures Filled() && items == old(items)[x.key := x] && cnt == old(cnt) + 1
    {
      hide Placed;
      TableSize(hash, hashsize, items, items.Keys);
      PutNew(hash, hashsize, items, x);
      Append(x);
      items := items[x.key := x];
    }

    /** The table grows exactly when the items no longer fit: when the count reaches six times the size. */
    method Add(x: Item)
      requires Valid() && x.hsh == null && x.key !in items && |items| < ROOM
      modifies this, x, items.Values
      ensures Valid() && items == old(items)[x.key := x]
      ensures hashorder == old(hashorder) + if old(cnt) + 1 == 6 * old(hashsize) then 1 else 0
    {
      hide Placed, NextOrder, Tight;
      TightRoom(hashorder, |items|, moved);
      TightStep(hashorder, |items|, |items| + 1, moved);
      Put(x);
      Rehash();
    }

    /** `remove` up to its rehash. */
    method Unlink(x: Item)
      requires Filled() && x.key in items && items[x.key] == x
      modifies this`hash, this`cnt, this`items, x
      ensures Filled() && items == old(items) - {x.key} && x.hsh == null && cnt == old(cnt) - 1
    {
      hide Placed, Sequences.Remove;
      TableSize(hash, hashsize, items, items.Keys);
      DropOld(hash, hashsize, items, x);
      assert forall k :: k in items && k != x.key ==> items[k] != x;
      hash := hash[x.h := Sequences.Remove(hash[x.h], x)];
      x.hsh := null;
      cnt := cnt - 1;
      items := items - {x.key};
    }

    /** The table never shrinks. */
    method Remove(x: Item)
      requires Valid() && x.key in items && items[x.key] == x
      modifies this, items.Values
      ensures Valid() && items == old(items) - {x.key} && x.hsh == null
      ensures hashorder == old(hashorder)
    {
      hide Placed, NextOrder, Tight;
      TightRoom(hashorder, |items|, moved);
      TightStep(hashorder, |items|, |items| - 1, moved);
      Unlink(x);
      Rehash();
      assert x.hsh == null;
    }

    /** Lookup in the chain of the key's bucket is lookup in the map. */
    method Find(key: nat) returns (r: Item?)
      requires Valid()
      ensures r == if key in items then items[key] else null
    {
      var lst := hash[key % hashsize];
      assert key in items ==> items[key] in lst;
      for i := 0 to |lst|
        invariant forall j :: 0 <= j < i ==> lst[j].key != key
      {
        if lst[i].key == key {
          assert Fits(hash[key % hashsize][i], key % hashsize, hashsize, items, items.Keys);
          return lst[i];
        }
      }
      return null;
    }
  }
}
