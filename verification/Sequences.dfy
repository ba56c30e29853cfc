/** Facts about sequences without duplicates, shared by the other modules. */
module Sequences {

  ghost predicate NoDup<T>(s: seq<T>) {
    forall i, j :: 0 <= i < j < |s| ==> s[i] != s[j]
  }

  function Min(a: int, b: int): (m: int) {
    if a < b then a else b
  }

  function Max(a: int, b: int): (m: int) {
    if a < b then b else a
  }

  function Elements<T>(s: seq<T>): (r: set<T>) {
    set x | x in s
  }

  /** The sequence without the first occurrence of x, as unlinking x from a list does. */
  function Remove<T(==)>(s: seq<T>, x: T): (r: seq<T>)
    ensures x !in s ==> r == s
    ensures |r| == if x in s then |s| - 1 else |s|
  {
    if s == [] then [] else if s[0] == x then s[1..] else [s[0]] + Remove(s[1..], x)
  }

  lemma {:induction false} RemoveAt<T>(s: seq<T>, i: nat)
    requires NoDup(s) && i < |s|
    ensures Remove(s, s[i]) == s[..i] + s[i + 1..]
  {
    if i > 0 {
      RemoveAt(s[1..], i - 1);
      assert s[1..][i - 1] == s[i];
    }
  }

  lemma {:induction false} RemoveKeeps<T>(s: seq<T>, x: T, y: T)
    requires y != x
    ensures y in Remove(s, x) <==> y in s
  {
    if s != [] && s[0] != x {
      RemoveKeeps(s[1..], x, y);
      assert s == [s[0]] + s[1..];
    } else if s != [] {
      assert s == [x] + s[1..];
    }
  }

  lemma {:induction false} RemoveNoDup<T>(s: seq<T>, x: T)
    requires NoDup(s)
    ensures NoDup(Remove(s, x))
    ensures forall y :: y in Remove(s, x) <==> y in s && y != x
  {
    if s != [] && s[0] != x {
      RemoveNoDup(s[1..], x);
      assert s[0] !in s[1..];
    }
    forall y ensures y in Remove(s, x) <==> y in s && y != x {
      if y != x { RemoveKeeps(s, x, y); }
    }
  }

  lemma RemoveMember<T>(s: seq<T>, x: T, y: T)
    requires NoDup(s) && y in Remove(s, x)
    ensures y in s && y != x
  {
    RemoveNoDup(s, x);
  }

  /** The last k elements: what an LRU list of capacity k keeps of a recency order. */
  function Last<T>(s: seq<T>, k: nat): (r: seq<T>)
    ensures |r| == Min(|s|, k)
  {
    if |s| <= k then s else s[|s| - k..]
  }

  /** Dropping one element from two orders that agree on their last k leaves them agreeing on k - 1. */
  lemma LastRemove<T>(s: seq<T>, t: seq<T>, x: T, k: nat)
    requires NoDup(s) && NoDup(t) && k > 0 && Last(s, k) == Last(t, k)
    ensures Last(Remove(s, x), k - 1) == Last(Remove(t, x), k - 1)
  {
    if |s| < k || |t| < k {
      assert s == t;
    } else {
      LastRemoveOne(s, x, k);
      LastRemoveOne(t, x, k);
    }
  }

  lemma NoDupTail<T>(s: seq<T>)
    requires NoDup(s) && s != []
    ensures NoDup(s[1..]) && s[0] !in s[1..]
  {
  }

  lemma LastOfTail<T>(s: seq<T>, k: nat)
    requires k < |s|
    ensures Last(s[1..], k) == Last(s, k)
    ensures forall x :: x in Last(s, k) ==> x in s[1..]
  {
  }

  /** An element outside the last k does not disturb them; one inside is dropped from them. */
  lemma {:induction false} LastRemoveOne<T>(s: seq<T>, x: T, k: nat)
    requires NoDup(s) && 0 < k <= |s|
    ensures Last(Remove(s, x), k - 1) == Last(Remove(Last(s, k), x), k - 1)
  {
    hide NoDup;
    if |s| > k {
      NoDupTail(s);
      LastOfTail(s, k);
      if s[0] == x {
        assert x !in Last(s, k);
        LastOfLess(s[1..], k);
      } else {
        LastRemoveOne(s[1..], x, k);
        assert Remove(s, x) == [s[0]] + Remove(s[1..], x);
        LastOfCons(s[0], Remove(s[1..], x), k - 1);
      }
    }
  }

  lemma LastOfLess<T>(s: seq<T>, k: nat)
    requires k > 0
    ensures Last(s, k - 1) == Last(Last(s, k), k - 1)
  {
  }

  lemma LastOfCons<T>(x: T, s: seq<T>, k: nat)
    requires k <= |s|
    ensures Last([x] + s, k) == Last(s, k)
  {
  }
}
