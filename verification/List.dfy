/**
 The intrusive doubly linked list DLL3::List: links and an owner pointer live inside the items.
 Mirrors the List half of aes_vfs/dll3.tcc, each operation proved equal to one on sequences.
 */
module LinkedLists {
  import opened Sequences

  /** The part of an item that one list uses; an item on several lists has one of these for each. */
  class Links {
    var next: Links?
    var prev: Links?
    var lst: List?

    constructor ()
      ensures next == null && prev == null && lst == null
    {
      next, prev, lst := null, null, null;
    }
  }

  /** The sequence with x put in before position k. */
  ghost function Inserted(s: seq<Links>, k: nat, x: Links): (r: seq<Links>)
    requires k <= |s|
    ensures |r| == |s| + 1 && r[k] == x
    ensures forall i :: 0 <= i < k ==> r[i] == s[i]
    ensures forall i :: k < i <= |s| ==> r[i] == s[i - 1]
    ensures NoDup(s) && x !in s ==> NoDup(r)
  {
    s[..k] + [x] + s[k..]
  }

  /** The sequence without its element at position k. */
  ghost function Cut(s: seq<Links>, k: nat): (r: seq<Links>)
    requires k < |s|
    ensures |r| == |s| - 1
    ensures forall i :: 0 <= i < k ==> r[i] == s[i]
    ensures forall i :: k <= i < |r| ==> r[i] == s[i + 1]
    ensures NoDup(s) ==> NoDup(r)
  {
    s[..k] + s[k + 1..]
  }

  lemma InsertedHas(s: seq<Links>, k: nat, x: Links)
    requires k <= |s|
    ensures forall y :: y in Inserted(s, k, x) <==> y == x || y in s
  {
    assert s == s[..k] + s[k..];
  }

  lemma CutHas(s: seq<Links>, k: nat)
    requires k < |s| && NoDup(s)
    ensures forall y :: y in Cut(s, k) <==> y != s[k] && y in s
  {
    assert s == s[..k] + [s[k]] + s[k + 1..];
  }

  lemma AppendNoDup(s: seq<Links>, x: Links)
    ensures NoDup(s) && x !in s ==> NoDup(s + [x])
  {
  }

  lemma OnlyAt(s: seq<Links>, k: nat)
    requires NoDup(s) && k < |s|
    ensures forall i :: 0 <= i < |s| && i != k ==> s[i] != s[k]
  {
  }

  class List {
    var head: Links?
    var tail: Links?
    var cnt: int
    /** The items in list order. */
    ghost var nodes: seq<Links>

    ghost predicate Valid()
      reads this, nodes
    {
      && cnt == |nodes| && NoDup(nodes)
      && head == At(nodes, 0) && tail == At(nodes, |nodes| - 1)
      && (forall i {:trigger nodes[i].lst} :: 0 <= i < |nodes| ==> nodes[i].lst == this)
      && Chain(nodes)
    }

    /** Forward and backward links lead from each item to its neighbours. */
    static ghost predicate Chain(s: seq<Links>)
      reads s
    {
      && (forall i {:trigger s[i].prev} :: 0 <= i < |s| ==> s[i].prev == At(s, i - 1))
      && (forall i {:trigger s[i].next} :: 0 <= i < |s| ==> s[i].next == At(s, i + 1))
    }

    static ghost function At(s: seq<Links>, i: int): (x: Links?) {
      if 0 <= i < |s| then s[i] else null
    }

    /** An item whose owner is not this list is not among its nodes. */
    lemma NotHere(item: Links)
      requires Valid() && item.lst != this
      ensures item !in nodes
    {
    }

    /** An item that is on this list or on none is on no other list. */
    lemma NotElsewhere(item: Links)
      requires item.lst == this || item.lst == null
      ensures forall l: List :: l != this && l.Valid() ==> item !in l.nodes
    {
      forall l: List | l != this && l.Valid() ensures item !in l.nodes {
        l.NotHere(item);
      }
    }

    constructor ()
      ensures Valid() && nodes == []
      ensures forall items: set<Links> :: old(allocated(items)) ==> Owns(items)
    {
      head, tail, cnt, nodes := null, null, 0, [];
    }

    /** No item is on two lists: the owner pointers tell their nodes apart. */
    lemma Disjoint(other: List)
      requires Valid() && other.Valid() && other != this
      ensures forall x :: x in nodes ==> x !in other.nodes
    {
      forall x | x in nodes ensures x !in other.nodes {
        assert x.lst == this;
        other.NotHere(x);
      }
    }

    /** `_add_head` */
    method LinkHead(item: Links)
      requires Valid() && item.lst == null
      modifies this, item, head
      ensures Valid() && nodes == [item] + old(nodes)
      ensures forall x: Links :: old(allocated(x)) && x != item ==> x.lst == old(x.lst)
    {
      NotHere(item);
      item.next := head;
      item.prev := null;
      if head != null {
        head.prev := item;
      } else {
        tail := item;
      }
      head := item;
      cnt := cnt + 1;
      item.lst := this;
      nodes := [item] + nodes;
    }

    /** The body of add_tail. */
    method LinkTail(item: Links)
      requires Valid() && item.lst == null
      modifies this, item, tail
      ensures Valid() && nodes == old(nodes) + [item]
      ensures forall x: Links :: old(allocated(x)) && x != item ==> x.lst == old(x.lst)
    {
      ghost var s := nodes;
      if tail != null { OnlyAt(s, |s| - 1); }
      AppendNoDup(s, item);
      hide NoDup;
      NotHere(item);
      item.next := null;
      item.prev := tail;
      if tail != null {
        tail.next := item;
      } else {
        head := item;
      }
      tail := item;
      cnt := cnt + 1;
      item.lst := this;
      nodes := s + [item];
      ChainAppended(s, item);
    }

    /** Links that lead on from the last item to one more chain the items with it. */
    static lemma ChainAppended(s: seq<Links>, item: Links)
      requires item.prev == At(s, |s| - 1) && item.next == null
      requires forall i {:trigger s[i].prev} :: 0 <= i < |s| ==> s[i].prev == At(s, i - 1)
      requires forall i {:trigger s[i].next} :: 0 <= i < |s| ==>
        s[i].next == if i == |s| - 1 then item else At(s, i + 1)
      ensures Chain(s + [item])
    {
    }

    /** Links that lead through the item just before position k chain the items with it. */
    static lemma ChainInserted(s: seq<Links>, k: nat, item: Links)
      requires k < |s| && item.prev == At(s, k - 1) && item.next == s[k]
      requires forall i {:trigger s[i].prev} :: 0 <= i < |s| ==> s[i].prev == if i == k then item else At(s, i - 1)
      requires forall i {:trigger s[i].next} :: 0 <= i < |s| ==> s[i].next == if i == k - 1 then item else At(s, i + 1)
      ensures Chain(Inserted(s, k, item))
    {
      hide Inserted;
    }

    /** The part of add_before that sets the links. */
    method Insert(item: Links, existing: Links, ghost k: nat)
      requires Valid() && item.lst == null && k < |nodes| && nodes[k] == existing
      modifies this`head, item, existing, existing.prev
      ensures item.prev == At(nodes, k - 1) && item.next == existing && head == if k == 0 then item else nodes[0]
      ensures forall i {:trigger nodes[i].prev} :: 0 <= i < |nodes| ==>
        nodes[i].prev == if i == k then item else At(nodes, i - 1)
      ensures forall i {:trigger nodes[i].next} :: 0 <= i < |nodes| ==>
        nodes[i].next == if i == k - 1 then item else At(nodes, i + 1)
      ensures forall x: Links :: old(allocated(x)) ==> x.lst == old(x.lst)
    {
      NotHere(item);
      assert existing.prev == At(nodes, k - 1);
      item.prev := existing.prev;
      item.next := existing;
      existing.prev := item;
      if item.prev != null {
        item.prev.next := item;
      } else {
        head := item;
      }
    }

    /** `k` is where `existing` stands. */
    method LinkBefore(item: Links, existing: Links, ghost k: nat)
      requires Valid() && item.lst == null && k < |nodes| && nodes[k] == existing
      modifies this, item, existing, existing.prev
      ensures Valid() && nodes == Inserted(old(nodes), k, item)
      ensures forall x: Links :: old(allocated(x)) && x != item ==> x.lst == old(x.lst)
    {
      hide Inserted, NoDup, Chain;
      ghost var s := nodes;
      NotHere(item);
      Insert(item, existing, k);
      cnt := cnt + 1;
      item.lst := this;
      nodes := Inserted(s, k, item);
      ChainInserted(s, k, item);
    }

    /** Links that lead around position k chain the items without it. */
    static lemma ChainCut(s: seq<Links>, k: nat)
      requires k < |s|
      requires forall i {:trigger s[i].prev} :: 0 <= i < |s| && i != k ==>
        s[i].prev == if i == k + 1 then At(s, k - 1) else At(s, i - 1)
      requires forall i {:trigger s[i].next} :: 0 <= i < |s| && i != k ==>
        s[i].next == if i == k - 1 then At(s, k + 1) else At(s, i + 1)
      ensures Chain(Cut(s, k))
    {
      hide Cut;
    }

    /** The half of `_remove` that leads the links around the item. */
    method Bypass(item: Links, ghost k: nat)
      requires Valid() && k < |nodes| && nodes[k] == item
      modifies this`head, this`tail, item.prev, item.next
      ensures head == (if k == 0 then At(nodes, 1) else At(nodes, 0))
      ensures tail == (if k == |nodes| - 1 then At(nodes, k - 1) else At(nodes, |nodes| - 1))
      ensures forall i {:trigger nodes[i].prev} :: 0 <= i < |nodes| ==>
        nodes[i].prev == if i == k + 1 then At(nodes, k - 1) else At(nodes, i - 1)
      ensures forall i {:trigger nodes[i].next} :: 0 <= i < |nodes| ==>
        nodes[i].next == if i == k - 1 then At(nodes, k + 1) else At(nodes, i + 1)
      ensures forall x: Links :: old(allocated(x)) ==> x.lst == old(x.lst)
    {
      assert item.prev == At(nodes, k - 1) && item.next == At(nodes, k + 1);
      if item.next != null {
        item.next.prev := item.prev;
      } else {
        tail := item.prev;
      }
      if item.prev != null {
        item.prev.next := item.next;
      } else {
        head := item.next;
      }
    }

    /** Both halves of `_remove`. */
    method Detach(item: Links, ghost k: nat)
      requires Valid() && k < |nodes| && nodes[k] == item
      modifies this, item, item.prev, item.next
      ensures Valid() && nodes == Cut(old(nodes), k)
      ensures item.lst == null && item.next == null && item.prev == null
      ensures forall x: Links :: old(allocated(x)) && x != item ==> x.lst == old(x.lst)
    {
      hide Cut, NoDup, Chain;
      ghost var s := nodes;
      OnlyAt(s, k);
      Bypass(item, k);
      item.next, item.prev := null, null;
      cnt := cnt - 1;
      item.lst := null;
      nodes := Cut(s, k);
      ChainCut(s, k);
    }

    method AddHead(item: Links)
      requires Valid() && item.lst == null
      modifies this, item, head
      ensures Valid() && nodes == [item] + old(nodes)
      ensures forall x: Links :: old(allocated(x)) && x != item ==> x.lst == old(x.lst)
      ensures forall items: set<Links> :: old(allocated(items)) && old(Owns(items)) ==> Owns(items)
      ensures forall l: List :: old(allocated(l)) && l != this && old(l.Valid()) ==>
        l.Valid() && l.nodes == old(l.nodes)
    {
      hide Chain, NoDup;
      NotElsewhere(item);
      if head != null { NotElsewhere(head); }
      LinkHead(item);
    }

    method AddTail(item: Links)
      requires Valid() && item.lst == null
      modifies this, item, tail
      ensures Valid() && nodes == old(nodes) + [item]
      ensures forall x: Links :: old(allocated(x)) && x != item ==> x.lst == old(x.lst)
      ensures forall items: set<Links> :: old(allocated(items)) && old(Owns(items)) ==> Owns(items)
      ensures forall l: List :: old(allocated(l)) && l != this && old(l.Valid()) ==>
        l.Valid() && l.nodes == old(l.nodes)
    {
      hide Chain, NoDup;
      NotElsewhere(item);
      if tail != null { NotElsewhere(tail); }
      LinkTail(item);
    }

    /** `k` is where `existing` stands. */
    method AddBefore(item: Links, existing: Links, ghost k: nat)
      requires Valid() && item.lst == null && k < |nodes| && nodes[k] == existing
      modifies this, item, existing, existing.prev
      ensures Valid() && nodes == old(nodes)[..k] + [item] + old(nodes)[k..]
      ensures forall x: Links :: old(allocated(x)) && x != item ==> x.lst == old(x.lst)
      ensures forall items: set<Links> :: old(allocated(items)) && old(Owns(items)) ==> Owns(items)
      ensures forall l: List :: old(allocated(l)) && l != this && old(l.Valid()) ==>
        l.Valid() && l.nodes == old(l.nodes)
    {
      hide NoDup;
      ghost var s := nodes;
      NotElsewhere(item);
      Neighbour(k);
      LinkBefore(item, existing, k);
      InsertedHas(s, k, item);
    }

    /** `_remove`, with `k` where the item stands. */
    method Unlink(item: Links, ghost k: nat)
      requires Valid() && k < |nodes| && nodes[k] == item
      modifies this, item, item.prev, item.next
      ensures Valid() && nodes == old(nodes)[..k] + old(nodes)[k + 1..]
      ensures item.lst == null && item.next == null && item.prev == null
      ensures forall x: Links :: old(allocated(x)) && x != item ==> x.lst == old(x.lst)
      ensures forall items: set<Links> :: old(allocated(items)) && old(Owns(items)) ==> Owns(items)
      ensures forall l: List :: old(allocated(l)) && l != this && old(l.Valid()) ==>
        l.Valid() && l.nodes == old(l.nodes)
    {
      hide NoDup;
      ghost var s := nodes;
      Neighbour(k);
      CutHas(s, k);
      Detach(item, k);
    }

    method Remove(item: Links)
      requires Valid() && item in nodes
      modifies this, item, item.prev, item.next
      ensures Valid() && nodes == Sequences.Remove(old(nodes), item)
      ensures item.lst == null && item.next == null && item.prev == null
      ensures forall x: Links :: old(allocated(x)) && x != item ==> x.lst == old(x.lst)
      ensures forall items: set<Links> :: old(allocated(items)) && old(Owns(items)) ==> Owns(items)
      ensures forall l: List :: old(allocated(l)) && l != this && old(l.Valid()) ==>
        l.Valid() && l.nodes == old(l.nodes)
    {
      ghost var k :| 0 <= k < |nodes| && nodes[k] == item;
      RemoveAt(nodes, k);
      Unlink(item, k);
    }

    method DequeueHead() returns (item: Links?)
      requires Valid()
      modifies this, head, if head != null then {head.next} else {}
      ensures Valid()
      ensures item == null <==> old(nodes) == []
      ensures item == null ==> nodes == []
      ensures item != null ==> item == old(nodes)[0] && nodes == old(nodes)[1..] && item.lst == null
      ensures forall x: Links :: old(allocated(x)) && x != item ==> x.lst == old(x.lst)
      ensures forall items: set<Links> :: old(allocated(items)) && old(Owns(items)) ==> Owns(items)
      ensures forall l: List :: old(allocated(l)) && l != this && old(l.Valid()) ==>
        l.Valid() && l.nodes == old(l.nodes)
    {
      item := head;
      if item != null {
        Unlink(item, 0);
      }
    }

    method Promote(item: Links)
      requires Valid() && item in nodes
      modifies this, item, item.prev, item.next, head
      ensures Valid() && nodes == [item] + Sequences.Remove(old(nodes), item)
      ensures forall x: Links :: old(allocated(x)) ==> x.lst == old(x.lst)
      ensures forall items: set<Links> :: old(allocated(items)) && old(Owns(items)) ==> Owns(items)
      ensures forall l: List :: old(allocated(l)) && l != this && old(l.Valid()) ==>
        l.Valid() && l.nodes == old(l.nodes)
    {
      Remove(item);
      AddHead(item);
    }

    /** The items before, at and after position k are on no other list. */
    lemma Neighbour(k: nat)
      requires Valid() && k < |nodes|
      ensures nodes[k].prev == At(nodes, k - 1) && nodes[k].next == At(nodes, k + 1)
      ensures forall l: List, i :: l != this && l.Valid() && k - 1 <= i <= k + 1 && 0 <= i < |nodes| ==>
        nodes[i] !in l.nodes
    {
      forall l: List, i | l != this && l.Valid() && k - 1 <= i <= k + 1 && 0 <= i < |nodes|
        ensures nodes[i] !in l.nodes
      {
        l.NotHere(nodes[i]);
      }
    }

    /** The next item of a walk, or null after the last one. */
    method GetNext(item: Links) returns (r: Links?)
      requires Valid() && item in nodes
      ensures forall i :: 0 <= i < |nodes| && nodes[i] == item ==> r == At(nodes, i + 1)
    {
      r := item.next;
    }

    /** Whether the item is on this list, read off its owner pointer. */
    method OnThisList(item: Links, ghost items: set<Links>) returns (b: bool)
      requires Valid() && item in items && Owns(items)
      ensures b <==> item in nodes
    {
      b := item.lst == this;
    }

    /** A new item, which has no owner yet, may join the items whose owners are known. */
    lemma OwnsMore(items: set<Links>, item: Links)
      requires Valid() && Owns(items) && item.lst == null
      ensures Owns(items + {item})
    {
      NotHere(item);
    }

    /** Of the given items, those whose owner pointer is this list are exactly those on the list. */
    ghost predicate Owns(items: set<Links>)
      reads this, items
    {
      forall x :: x in items ==> (x.lst == this <==> x in nodes)
    }
  }

  /** A walk by get_head and get_next visits every item once, in list order. */
  method Walk(l: List) returns (visited: seq<Links>)
    requires l.Valid()
    ensures visited == l.nodes
  {
    visited := [];
    var item := l.head;
    while item != null
      invariant |visited| <= |l.nodes| && visited == l.nodes[..|visited|]
      invariant item == List.At(l.nodes, |visited|)
      decreases |l.nodes| - |visited|
    {
      visited := visited + [item];
      item := l.GetNext(item);
    }
  }
}
