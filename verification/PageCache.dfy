/**
 The cache of pages: one page list, one LRU list and one hash over the same page objects. Mirrors
 aes_vfs/PageCache.cc. The intrusive lists are sequences here (List.dfy proves the linked lists
 equal to sequences) and the hash is a map (Hash.dfy proves lookup equal to a map).
 */
module PageCaches {
  import opened Sequences
  import opened Storage
  import opened CacheModel
  import opened DiskPages
  import opened Coherence
  import opened FlushOrders

  class PageCache {
    const cipher: Cipher
    const fd: DiskFile
    const maxPages: nat
    var pageList: seq<DiskPage>
    var pageLru: seq<DiskPage>
    var pageHash: map<nat, DiskPage>

    /** The three containers agree on which page objects are live, and on who they are. */
    ghost predicate Linked()
      reads this
    {
      && NoDup(pageList) && NoDup(pageLru)
      && (forall pg :: pg in pageList ==>
            pg.fd == fd && pg.cipher == cipher && pg.pageNumber <= MAX_PAGE
            && pg.pageNumber in pageHash && pageHash[pg.pageNumber] == pg)
      && (forall p :: p in pageHash ==> pageHash[p] in pageList && pageHash[p].pageNumber == p)
      && (forall pg :: pg in pageLru ==> pg in pageList)
    }

    ghost predicate Valid()
      reads this, fd
    {
      Linked() && Aligned(fd.data)
    }

    static ghost function Frames(hash: map<nat, DiskPage>): (m: map<nat, Frame>)
      reads hash.Values
    {
      map p | p in hash :: Frame(hash[p].buffer, hash[p].dirty)
    }

    /** The cache as a value. */
    ghost function Abs(): (s: Cache)
      requires Valid()
      reads this, fd, pageHash.Values
    {
      Cache(SlotsOf(fd.data), Numbers(pageList), Numbers(pageLru), Frames(pageHash))
    }

    constructor (fd: DiskFile, maxPages: nat, cipher: Cipher)
      requires Aligned(fd.data)
      ensures Valid() && this.fd == fd && this.maxPages == maxPages && this.cipher == cipher
      ensures Abs() == Opened(SlotsOf(fd.data))
    {
      this.cipher := cipher;
      this.fd := fd;
      this.maxPages := maxPages;
      pageList, pageLru, pageHash := [], [], map[];
    }

    // ----- list and hash operations on a page -----

    method LruAddTail(pg: DiskPage)
      requires Linked() && pg in pageList && pg !in pageLru
      modifies this`pageLru
      ensures Linked() && Numbers(pageLru) == old(Numbers(pageLru)) + [pg.pageNumber]
    {
      AppendPage(pageLru, pg);
      pageLru := pageLru + [pg];
    }

    method LruDequeueHead() returns (pg: DiskPage)
      requires Linked() && pageLru != []
      modifies this`pageLru
      ensures Linked() && pg == old(pageLru)[0] && pg in pageList && pg !in pageLru
      ensures |pageLru| == |old(pageLru)| - 1
      ensures pg.pageNumber == old(Numbers(pageLru))[0] && Numbers(pageLru) == old(Numbers(pageLru))[1..]
    {
      HeadPage(pageLru);
      pg := pageLru[0];
      pageLru := pageLru[1..];
    }

    /** `if (page_lru.onthislist(pg)) page_lru.remove(pg)` */
    method LruRemove(pg: DiskPage)
      requires Linked() && pg in pageList
      modifies this`pageLru
      ensures Linked() && pg !in pageLru
      ensures Numbers(pageLru) == Remove(old(Numbers(pageLru)), pg.pageNumber)
    {
      NumbersRemove(pageLru, pg);
      RemoveNoDup(pageLru, pg);
      if pg in pageLru {
        pageLru := Remove(pageLru, pg);
      }
    }

    /** Takes a page that is off the LRU out of the hash and the list: it is then on no container. */
    method Unlink(pg: DiskPage)
      requires Linked() && pg in pageList && pg !in pageLru
      modifies this`pageList, this`pageHash
      ensures Linked() && pg !in pageList && pg !in pageHash.Values
      ensures pageList == Remove(old(pageList), pg) && pageHash == old(pageHash) - {pg.pageNumber}
      ensures Numbers(pageList) == Remove(old(Numbers(pageList)), pg.pageNumber)
      ensures forall x :: x in pageList ==> x in old(pageList)
      ensures old(pageHash)[pg.pageNumber] == pg
    {
      hide NoDup, Remove;
      NumbersRemove(pageList, pg);
      RemoveNoDup(pageList, pg);
      pageHash := pageHash - {pg.pageNumber};
      pageList := Remove(pageList, pg);
    }

    method Link(pg: DiskPage)
      requires Linked() && pg.fd == fd && pg.cipher == cipher && pg.pageNumber <= MAX_PAGE
      requires pg.pageNumber !in pageHash
      modifies this`pageList, this`pageHash
      ensures Linked() && pageList == old(pageList) + [pg] && pageHash == old(pageHash)[pg.pageNumber := pg]
      ensures Numbers(pageList) == old(Numbers(pageList)) + [pg.pageNumber]
    {
      AppendPage(pageList, pg);
      pageList := pageList + [pg];
      pageHash := pageHash[pg.pageNumber := pg];
    }

    lemma Hashed(p: nat)
      requires Linked() && p in pageHash
      ensures pageHash[p] in pageList && pageHash[p].pageNumber == p
    {
    }

    lemma Listed(pg: DiskPage)
      requires Linked() && pg in pageList
      ensures pg.fd == fd && pg.cipher == cipher && pg.pageNumber <= MAX_PAGE
      ensures pg.pageNumber in pageHash && pageHash[pg.pageNumber] == pg
    {
    }

    lemma FramesAre(p: nat)
      requires Valid()
      ensures p in Abs().frames <==> p in pageHash
      ensures p in pageHash ==> pageHash[p] in pageList && pageHash[p].pageNumber == p
      ensures p in pageHash ==> Abs().frames[p] == Frame(pageHash[p].buffer, pageHash[p].dirty)
      ensures |Abs().lru| == |pageLru| && Abs().disk == SlotsOf(fd.data)
    {
    }

    // ----- the operations -----

    method GetPage(pgno: nat) returns (pg: DiskPage)
      requires Valid() && pgno <= MAX_PAGE
      modifies this, fd`position
      ensures Valid() && fd.data == old(fd.data)
      ensures Abs() == CacheModel.GetPage(cipher, old(Abs()), pgno)
      ensures pgno in pageHash && pageHash[pgno] == pg && pg.pageNumber == pgno
      ensures forall p :: p in old(pageHash) ==> p in pageHash && pageHash[p] == old(pageHash[p])
      ensures forall x :: x in pageList ==> x in old(pageList) || fresh(x)
    {
      hide Linked, SlotsOf, Remove, SlotRead;
      ghost var s := Abs();
      if pgno in pageHash {
        pg := pageHash[pgno];
        Hashed(pgno);
        LruRemove(pg);
      } else {
        pg := new DiskPage(fd, pgno, cipher);
        Link(pg);
        assert Frames(pageHash) == s.frames[pgno := Frame(SlotRead(cipher, s.disk, pgno), false)];
      }
    }

    /** Takes a page that is off the LRU out of the hash and the list, then destroys it. */
    method Discard(pg: DiskPage)
      requires Valid() && pg in pageList && pg !in pageLru
      modifies this, fd, pg`dirty
      ensures Valid() && pageLru == old(pageLru)
      ensures Abs() == DeletePage(cipher, old(Abs()), pg.pageNumber)
      ensures fd.log == old(fd.log)
        + if IsDirty(old(Abs()), pg.pageNumber) then [PageWrite(cipher, old(Abs()), pg.pageNumber)] else []
      ensures pg !in pageList && pageList == Remove(old(pageList), pg)
      ensures forall x :: x in pageList ==> x in old(pageList)
      ensures forall p :: p in pageHash ==> p in old(pageHash) && pageHash[p] == old(pageHash[p])
    {
      hide Linked, SlotsOf, Remove, SlotWrite;
      ghost var s := Abs();
      Listed(pg);
      Unlink(pg);
      assert pg !in pageList && pg !in pageLru && pg !in pageHash.Values;
      pg.Flush();
      assert Frames(pageHash) == s.frames - {pg.pageNumber};
      assert SlotsOf(fd.data) == FlushPage(cipher, s, pg.pageNumber).disk;
    }

    /** What write does to a page between fetching and releasing it: the copy, then the dirty mark. */
    method CopyIn(pg: DiskPage, at: nat, bytes: seq<byte>)
      requires Valid() && pg in pageList && at + |bytes| <= PAGE_SIZE
      modifies pg
      ensures Valid() && Abs() == Poke(old(Abs()), pg.pageNumber, at, bytes)
    {
      hide Linked, SlotsOf, Splice;
      ghost var s := Abs();
      Listed(pg);
      forall p | p in pageHash ensures pageHash[p] == pg <==> p == pg.pageNumber {
        Hashed(p);
      }
      pg.buffer := Splice(pg.buffer, at, bytes);
      pg.dirty := true;
      assert Frames(pageHash) == Poke(s, pg.pageNumber, at, bytes).frames;
    }

    /** Puts the page on the LRU and evicts from its head while the LRU is over capacity. */
    method ReleasePage(pg: DiskPage)
      requires Valid() && pg in pageList
      modifies this, fd, pageList
      ensures Valid()
      ensures Abs() == CacheModel.ReleasePage(cipher, old(Abs()), pg.pageNumber, maxPages)
      ensures Numbers(pageLru)
           == Last(old(Numbers(pageLru)) + if pg in old(pageLru) then [] else [pg.pageNumber], maxPages)
      ensures fd.log == old(fd.log)
        + WriteBacks(cipher, old(Abs()), Victims(Enqueued(old(Abs()).lru, pg.pageNumber), maxPages))
      ensures forall x :: x in pageList ==> x in old(pageList)
      ensures forall p :: p in pageHash ==> p in old(pageHash) && pageHash[p] == old(pageHash[p])
    {
      hide Linked, SlotsOf, Evict, WriteBacks, Victims;
      ghost var s := Abs();
      LruMember(pg);
      if pg !in pageLru {
        LruAddTail(pg);
      }
      assert Abs() == s.(lru := Enqueued(s.lru, pg.pageNumber));
      EvictStart(cipher, s, pg.pageNumber, maxPages);
      hide Abs;
      while |pageLru| > maxPages
        invariant Valid()
        invariant Evict(cipher, Abs(), maxPages) == CacheModel.ReleasePage(cipher, s, pg.pageNumber, maxPages)
        invariant fd.log + WriteBacks(cipher, Abs(), Victims(Abs().lru, maxPages))
               == old(fd.log) + WriteBacks(cipher, s, Victims(Enqueued(s.lru, pg.pageNumber), maxPages))
        invariant forall x :: x in pageList ==> x in old(pageList)
        invariant forall p :: p in pageHash ==> p in old(pageHash) && pageHash[p] == old(pageHash[p])
        decreases |pageLru|
      {
        assert forall i :: 0 <= i < |pageList| ==> pageList[i] in pageList;
        EvictOldest();
      }
      FramesAre(pg.pageNumber);
      EvictEnd(cipher, Abs(), maxPages);
      LruIs();
      EvictLru(cipher, s.(lru := Enqueued(s.lru, pg.pageNumber)), maxPages);
    }

    /** `DiskPage *pg = page_lru.dequeue_head()`, then the page is destroyed. */
    method EvictOldest()
      requires Valid() && |pageLru| > maxPages
      modifies this, fd, pageList
      ensures Valid() && |pageLru| == |old(pageLru)| - 1
      ensures Evict(cipher, Abs(), maxPages) == Evict(cipher, old(Abs()), maxPages)
      ensures fd.log + WriteBacks(cipher, Abs(), Victims(Abs().lru, maxPages))
           == old(fd.log) + WriteBacks(cipher, old(Abs()), Victims(old(Abs()).lru, maxPages))
      ensures forall x :: x in pageList ==> x in old(pageList)
      ensures forall p :: p in pageHash ==> p in old(pageHash) && pageHash[p] == old(pageHash[p])
    {
      hide Linked, SlotsOf, Remove, CacheModel.DeletePage, PageWrite, WriteBacks, Victims;
      ghost var s := Abs();
      LruOnce();
      EvictTurn(cipher, s, maxPages);
      var victim := LruDequeueHead();
      assert Abs() == s.(lru := s.lru[1..]);
      Discard(victim);
    }

    /** No number is on the LRU list twice. */
    lemma LruOnce()
      requires Valid()
      ensures NoDup(Abs().lru)
    {
      var lru := Numbers(pageLru);
      forall i, j | 0 <= i < j < |lru| ensures lru[i] != lru[j] {
        assert pageLru[i] in pageLru && pageLru[j] in pageLru;
      }
    }

    /** A page is on the LRU list exactly when its number is among the LRU's numbers. */
    lemma LruMember(pg: DiskPage)
      requires Valid() && pg in pageList
      ensures pg in pageLru <==> pg.pageNumber in Numbers(pageLru)
    {
      if pg.pageNumber in Numbers(pageLru) {
        var i :| 0 <= i < |pageLru| && Numbers(pageLru)[i] == pg.pageNumber;
        assert pageLru[i] in pageList;
      }
      if pg in pageLru {
        var i :| 0 <= i < |pageLru| && pageLru[i] == pg;
        assert Numbers(pageLru)[i] == pg.pageNumber;
      }
    }

    /** The walk over the page list that picks the dirty pages. */
    method CollectDirty() returns (pgs: seq<DiskPage>)
      requires Valid()
      ensures Numbers(pgs) == DirtyOf(Abs(), Numbers(pageList))
      ensures forall pg :: pg in pgs ==> pg in pageList
    {
      hide Linked, SlotsOf, DirtyOf, NoDup;
      ghost var s, list := Abs(), Numbers(pageList);
      pgs := [];
      DirtyEnds(s, list);
      for i := 0 to |pageList|
        invariant Numbers(pgs) + DirtyOf(s, list[i..]) == DirtyOf(s, list)
        invariant forall pg :: pg in pgs ==> pg in pageList
      {
        var pg := pageList[i];
        Listed(pg);
        DirtyStep(s, list, i);
        AppendPage(pgs, pg);
        if pg.dirty {
          pgs := pgs + [pg];
        }
      }
    }

    /** No number is listed twice, and every cached page is listed. */
    lemma ListedOnce()
      requires Valid()
      ensures NoDup(Abs().list) && forall p: nat :: p in Abs().frames ==> p in Abs().list
    {
      var list := Numbers(pageList);
      forall i, j | 0 <= i < j < |list| ensures list[i] != list[j] {
        assert pageList[i] in pageList && pageList[j] in pageList;
      }
      forall p: nat | p in Abs().frames ensures p in list {
        var i :| 0 <= i < |pageList| && pageList[i] == pageHash[p];
        assert list[i] == p;
      }
    }

    /** Writes every dirty page back, in page order. */
    method Flush()
      requires Valid()
      modifies fd, pageList
      ensures Valid() && Abs() == FlushCache(cipher, old(Abs()))
      ensures old(fd.log) <= fd.log && fd.data == Replay(old(fd.data), fd.log[|old(fd.log)|..])
      ensures StoresDirty(cipher, old(Abs()), fd.log[|old(fd.log)|..])
    {
      hide Linked, SlotsOf, Sorted, Abs, DirtyOf, DirtyInOrder, PageWrites, PageWrite, Pending, Replay, FlushPage,
           FlushAll, FlushCache, NoDup, StoresDirty;
      ghost var c, s := cipher, Abs();
      ListedOnce();
      SortedDirtyInOrder(s);
      ListIs();
      var pgs := CollectDirty();
      pgs := SortByPage(pgs);
      ghost var order := Numbers(pgs);
      FlushStart(c, s, order, fd.data);
      for i := 0 to |pgs|
        invariant Valid() && Pending(s, Abs(), order, i)
        invariant FlushAll(c, Abs(), order[i..]) == FlushCache(c, s)
        invariant fd.log == old(fd.log) + PageWrites(c, s, order[..i])
        invariant fd.data == Replay(old(fd.data), PageWrites(c, s, order[..i]))
      {
        assert pgs[i] in pgs;
        FlushTurn(c, s, Abs(), order, i, old(fd.data));
        FlushOne(pgs[i]);
      }
      FlushDone(c, s, order, Abs());
    }

    lemma ListIs()
      requires Valid()
      ensures Abs().list == Numbers(pageList)
    {
    }

    lemma LruIs()
      requires Valid()
      ensures Abs().lru == Numbers(pageLru)
    {
    }

    /** `pgs[ind]->flush()` */
    method FlushOne(pg: DiskPage)
      requires Valid() && pg in pageList
      modifies fd, pg`dirty
      ensures Valid() && Abs() == FlushPage(cipher, old(Abs()), pg.pageNumber)
      ensures var p := pg.pageNumber;
        var puts := if IsDirty(old(Abs()), p) then [PageWrite(cipher, old(Abs()), p)] else [];
        fd.log == old(fd.log) + puts && fd.data == Replay(old(fd.data), puts)
    {
      hide Linked, SlotsOf, SlotWrite;
      ghost var s := Abs();
      Listed(pg);
      forall p | p in pageHash ensures pageHash[p] == pg <==> p == pg.pageNumber {
        Hashed(p);
      }
      pg.Flush();
      assert Frames(pageHash) == FlushPage(cipher, s, pg.pageNumber).frames;
    }

    /** The destructor: empties the page list from its head, destroying each page. */
    method Destroy()
      requires Valid()
      modifies this, fd, pageList
      ensures Valid() && pageList == [] && pageLru == [] && pageHash == map[]
      ensures Abs() == CacheModel.Destroy(cipher, old(Abs()))
      ensures fd.log == old(fd.log) + WriteBacks(cipher, old(Abs()), old(Abs()).list)
    {
      hide Linked, SlotsOf, CacheModel.Destroy, WriteBacks, Abs;
      while pageList != []
        invariant Valid()
        invariant fd.log + WriteBacks(cipher, Abs(), Abs().list) == old(fd.log + WriteBacks(cipher, Abs(), Abs().list))
        invariant CacheModel.Destroy(cipher, Abs()) == CacheModel.Destroy(cipher, old(Abs()))
        invariant forall x :: x in pageList ==> x in old(pageList)
        decreases |pageList|
      {
        assert forall i :: 0 <= i < |pageList| ==> pageList[i] in pageList;
        DestroyHead();
      }
      NothingListed();
      ListIs();
      DestroyEnd(cipher, Abs());
    }

    method DestroyHead()
      requires Valid() && pageList != []
      modifies this, fd, pageList
      ensures Valid() && |pageList| == |old(pageList)| - 1
      ensures CacheModel.Destroy(cipher, Abs()) == CacheModel.Destroy(cipher, old(Abs()))
      ensures fd.log + WriteBacks(cipher, Abs(), Abs().list) == old(fd.log + WriteBacks(cipher, Abs(), Abs().list))
      ensures forall x :: x in pageList ==> x in old(pageList)
    {
      hide Linked, SlotsOf, CacheModel.DeletePage, CacheModel.Destroy, Remove, PageWrite, WriteBacks, IsDirty, NoDup,
           Frames;
      ghost var s := Abs();
      var pg := pageList[0];
      HeadPage(pageList);
      ListedOnce();
      DestroyTurn(cipher, s);
      LruRemove(pg);
      assert Abs() == s.(lru := Remove(s.lru, s.list[0]));
      hide Abs;
      Discard(pg);
    }

    lemma NothingListed()
      requires Linked() && pageList == []
      ensures pageLru == [] && pageHash == map[]
    {
      if pageLru != [] {
        HeadPage(pageLru);
      }
    }

    /** One turn of truncate's walk: a page leaves all containers and is destroyed clean. */
    method Drop(pg: DiskPage)
      requires Valid() && pg in pageList
      modifies this, pg`dirty, fd
      ensures Valid() && fd.data == old(fd.data) && fd.log == old(fd.log)
      ensures pageList == Remove(old(pageList), pg)
      ensures forall x :: x in pageList ==> x in old(pageList)
      ensures var s := old(Abs());
        Abs() == s.(list := Remove(s.list, pg.pageNumber), lru := Remove(s.lru, pg.pageNumber),
                    frames := s.frames - {pg.pageNumber})
    {
      hide Linked, SlotsOf, Remove;
      ghost var s := Abs();
      Listed(pg);
      LruRemove(pg);
      Unlink(pg);
      pg.dirty := false;
      assert pg !in pageList && pg !in pageLru && pg !in pageHash.Values;
      pg.Flush();
      assert Frames(pageHash) == s.frames - {pg.pageNumber};
    }

    /** truncate's walk over the page list, which deletes from the list it walks. */
    method DropAbove(size: nat)
      requires Valid()
      modifies this, pageList, fd
      ensures Valid() && fd.data == old(fd.data) && fd.log == old(fd.log)
      ensures Abs() == CacheModel.DropAbove(old(Abs()), (size + (PAGE_SIZE - 1)) / PAGE_SIZE % UINT32)
    {
      hide Linked, SlotsOf, NoDup, Remove, CacheModel.DropAbove;
      var pgno := (size + (PAGE_SIZE - 1)) / PAGE_SIZE % UINT32;
      var i := 0;
      while i < |pageList|
        invariant Valid() && i <= |pageList| && fd.data == old(fd.data) && fd.log == old(fd.log)
        invariant CacheModel.DropAbove(Abs(), pgno) == CacheModel.DropAbove(old(Abs()), pgno)
        invariant forall j :: 0 <= j < i ==> pageList[j].pageNumber <= pgno
        invariant forall x :: x in pageList ==> x in old(pageList)
        decreases |pageList| - i
      {
        ghost var s := Abs();
        var pg := pageList[i];
        if pg.pageNumber > pgno {
          RemoveAtIndex(i);
          Drop(pg);
          DropAboveUnlink(s, pg.pageNumber, pgno);
        } else {
          i := i + 1;
        }
      }
      AllKept(pgno);
    }

    lemma RemoveAtIndex(i: nat)
      requires Linked() && i < |pageList|
      ensures Remove(pageList, pageList[i]) == pageList[..i] + pageList[i + 1..]
    {
      RemoveAt(pageList, i);
    }

    lemma AllKept(bound: nat)
      requires Valid() && forall j :: 0 <= j < |pageList| ==> pageList[j].pageNumber <= bound
      ensures CacheModel.DropAbove(Abs(), bound) == Abs()
    {
      forall pg | pg in pageList ensures pg.pageNumber <= bound {
        var j :| 0 <= j < |pageList| && pageList[j] == pg;
      }
      KeepUpToAll(Numbers(pageList), bound);
      KeepUpToAll(Numbers(pageLru), bound);
    }
  }

  // ----- what eviction and the destructor write -----

  /** The pages that trimming an LRU list to its capacity evicts: the oldest ones, in LRU order. */
  function Victims(lru: seq<nat>, max: nat): (r: seq<nat>) {
    if |lru| <= max then [] else lru[..|lru| - max]
  }

  /** The LRU list once a page is released. */
  function Enqueued(lru: seq<nat>, p: nat): (r: seq<nat>) {
    if p in lru then lru else lru + [p]
  }

  lemma EvictStart(c: Cipher, s: Cache, p: nat, max: nat)
    ensures var t := s.(lru := Enqueued(s.lru, p));
      && Evict(c, t, max) == CacheModel.ReleasePage(c, s, p, max)
      && WriteBacks(c, t, Victims(t.lru, max)) == WriteBacks(c, s, Victims(t.lru, max))
  {
    var t := s.(lru := Enqueued(s.lru, p));
    WriteBacksSame(c, s, t, Victims(t.lru, max));
  }

  lemma {:induction false} EvictLru(c: Cipher, s: Cache, max: nat)
    ensures Evict(c, s, max).lru == Last(s.lru, max)
    decreases |s.lru|
  {
    if |s.lru| > max {
      EvictLru(c, DeletePage(c, s.(lru := s.lru[1..]), s.lru[0]), max);
      LastOfTail(s.lru, max);
    }
  }

  lemma EvictEnd(c: Cipher, s: Cache, max: nat)
    requires |s.lru| <= max
    ensures Evict(c, s, max) == s && WriteBacks(c, s, Victims(s.lru, max)) == []
  {
    WriteBacksNone(c, s, Victims(s.lru, max));
  }

  lemma EvictTurn(c: Cipher, s: Cache, max: nat)
    requires NoDup(s.lru) && |s.lru| > max
    ensures var p, u := s.lru[0], s.(lru := s.lru[1..]);
      var t := DeletePage(c, u, p);
      WriteBacks(c, s, Victims(s.lru, max))
        == (if IsDirty(u, p) then [PageWrite(c, u, p)] else []) + WriteBacks(c, t, Victims(t.lru, max))
  {
    hide WriteBacks;
    var p, u := s.lru[0], s.(lru := s.lru[1..]);
    var t := DeletePage(c, u, p);
    DeleteHeadWrites(c, s, t, Victims(s.lru, max));
    assert Victims(s.lru, max)[1..] == Victims(t.lru, max);
  }

  lemma DestroyEnd(c: Cipher, s: Cache)
    requires s.list == []
    ensures CacheModel.Destroy(c, s) == s && WriteBacks(c, s, s.list) == []
  {
  }

  lemma DestroyTurn(c: Cipher, s: Cache)
    requires NoDup(s.list) && s.list != []
    ensures var p, u := s.list[0], s.(lru := Remove(s.lru, s.list[0]));
      var t := DeletePage(c, u, p);
      && CacheModel.Destroy(c, s) == CacheModel.Destroy(c, t)
      && WriteBacks(c, s, s.list)
        == (if IsDirty(u, p) then [PageWrite(c, u, p)] else []) + WriteBacks(c, t, t.list)
  {
    hide WriteBacks;
    var p, u := s.list[0], s.(lru := Remove(s.lru, s.list[0]));
    DeleteHeadWrites(c, s, DeletePage(c, u, p), s.list);
  }

  // ----- flush, one page at a time -----

  /** From index i on, each page is still dirty, and as it was when flush began. */
  ghost predicate Pending(s0: Cache, s: Cache, order: seq<nat>, i: nat) {
    forall j :: i <= j < |order| ==> IsDirty(s, order[j]) && Buffer(s, order[j]) == Buffer(s0, order[j])
  }

  lemma FlushStart(c: Cipher, s: Cache, order: seq<nat>, data: seq<byte>)
    requires DirtyInOrder(s, order) && order == Sorted(DirtyOf(s, s.list))
    ensures Pending(s, s, order, 0) && FlushAll(c, s, order[0..]) == FlushCache(c, s)
    ensures PageWrites(c, s, order[..0]) == [] && Replay(data, []) == data
  {
  }

  lemma FlushTurn(c: Cipher, s0: Cache, s: Cache, order: seq<nat>, i: nat, data: seq<byte>)
    requires DirtyInOrder(s0, order) && i < |order| && Pending(s0, s, order, i)
    ensures IsDirty(s, order[i]) && Pending(s0, FlushPage(c, s, order[i]), order, i + 1)
    ensures FlushAll(c, s, order[i..]) == FlushAll(c, FlushPage(c, s, order[i]), order[i + 1..])
    ensures PageWrites(c, s0, order[..i + 1]) == PageWrites(c, s0, order[..i]) + [PageWrite(c, s, order[i])]
    ensures Replay(data, PageWrites(c, s0, order[..i + 1]))
         == Replay(Replay(data, PageWrites(c, s0, order[..i])), [PageWrite(c, s, order[i])])
  {
    hide Replay;
    assert order[i..][0] == order[i] && order[i..][1..] == order[i + 1..];
    PageWritesMore(c, s0, order, i);
    ReplayOneMore(data, PageWrites(c, s0, order[..i]), PageWrite(c, s, order[i]));
  }

  lemma ReplayOneMore(data: seq<byte>, puts: seq<Put>, w: Put)
    ensures Replay(data, puts + [w]) == Replay(Replay(data, puts), [w])
  {
    ReplayMore(data, puts, w);
    assert [w][1..] == [];
  }

  lemma FlushDone(c: Cipher, s: Cache, order: seq<nat>, t: Cache)
    requires DirtyInOrder(s, order)
    ensures order[..|order|] == order && StoresDirty(c, s, PageWrites(c, s, order))
    ensures FlushAll(c, t, order[|order|..]) == t
  {
  }

  lemma DirtyStep(s: Cache, list: seq<nat>, i: nat)
    requires i < |list|
    ensures DirtyOf(s, list[i..])
         == (if list[i] in s.frames && s.frames[list[i]].dirty then [list[i]] else []) + DirtyOf(s, list[i + 1..])
  {
    assert list[i..][1..] == list[i + 1..];
  }

  lemma DirtyEnds(s: Cache, list: seq<nat>)
    ensures DirtyOf(s, list[|list|..]) == [] && list[0..] == list
  {
  }

  lemma HeadPage(s: seq<DiskPage>)
    requires s != []
    ensures s[0] in s && Numbers(s)[0] == s[0].pageNumber && Numbers(s[1..]) == Numbers(s)[1..]
    ensures NoDup(s) ==> NoDup(s[1..]) && s[0] !in s[1..]
  {
  }

  lemma AppendPage(s: seq<DiskPage>, pg: DiskPage)
    ensures NoDup(s) && pg !in s ==> NoDup(s + [pg])
    ensures Numbers(s + [pg]) == Numbers(s) + [pg.pageNumber]
  {
  }

  lemma {:induction false} KeepUpToAll(s: seq<nat>, bound: nat)
    requires forall i :: 0 <= i < |s| ==> s[i] <= bound
    ensures KeepUpTo(s, bound) == s
  {
    if s != [] {
      KeepUpToAll(s[1..], bound);
    }
  }

  lemma {:induction false} KeepUpToRemove(s: seq<nat>, p: nat, bound: nat)
    requires p > bound
    ensures KeepUpTo(Remove(s, p), bound) == KeepUpTo(s, bound)
  {
    if s != [] && s[0] != p {
      KeepUpToRemove(s[1..], p, bound);
      assert ([s[0]] + Remove(s[1..], p))[1..] == Remove(s[1..], p);
    }
  }

  /** Unlinking one page above the bound does not change what the walk leaves in the end. */
  lemma DropAboveUnlink(s: Cache, p: nat, bound: nat)
    requires p > bound
    ensures CacheModel.DropAbove(s.(list := Remove(s.list, p), lru := Remove(s.lru, p), frames := s.frames - {p}),
                                 bound)
         == CacheModel.DropAbove(s, bound)
  {
    KeepUpToRemove(s.list, p, bound);
    KeepUpToRemove(s.lru, p, bound);
  }

  // ----- std::sort by page number -----

  function InsertPage(pg: DiskPage, s: seq<DiskPage>): (r: seq<DiskPage>)
    ensures multiset(r) == multiset(s) + multiset{pg}
  {
    if s == [] || pg.pageNumber < s[0].pageNumber then [pg] + s
    else
      assert s == [s[0]] + s[1..];
      [s[0]] + InsertPage(pg, s[1..])
  }

  function SortPages(s: seq<DiskPage>): (r: seq<DiskPage>)
    ensures multiset(r) == multiset(s)
  {
    if s == [] then []
    else
      assert s == [s[0]] + s[1..];
      InsertPage(s[0], SortPages(s[1..]))
  }

  lemma {:induction false} InsertPageNumbers(pg: DiskPage, s: seq<DiskPage>)
    ensures Numbers(InsertPage(pg, s)) == Insert(pg.pageNumber, Numbers(s))
  {
    if s == [] || pg.pageNumber < s[0].pageNumber {
      assert Numbers([pg] + s) == [pg.pageNumber] + Numbers(s);
    } else {
      InsertPageNumbers(pg, s[1..]);
      assert Numbers(s)[1..] == Numbers(s[1..]);
      assert Numbers([s[0]] + InsertPage(pg, s[1..])) == [s[0].pageNumber] + Numbers(InsertPage(pg, s[1..]));
    }
  }

  lemma {:induction false} SortPagesNumbers(s: seq<DiskPage>)
    ensures Numbers(SortPages(s)) == Sorted(Numbers(s))
  {
    if s != [] {
      SortPagesNumbers(s[1..]);
      InsertPageNumbers(s[0], SortPages(s[1..]));
      assert Numbers(s)[1..] == Numbers(s[1..]);
    }
  }

  /** `std::sort(pgs.begin(), pgs.end(), pgs_sort)` */
  method SortByPage(pgs: seq<DiskPage>) returns (r: seq<DiskPage>)
    ensures Numbers(r) == Sorted(Numbers(pgs))
    ensures multiset(r) == multiset(pgs)
    ensures forall pg :: pg in r ==> pg in pgs
  {
    SortPagesNumbers(pgs);
    r := SortPages(pgs);
    forall pg | pg in r ensures pg in pgs {
      assert pg in multiset(r);
    }
  }
}
