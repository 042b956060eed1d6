/** The lab3 buffer pool: the same bounded page cache and recency list as the
    lab5 pool, but with STEAL eviction (the least recently used page always
    leaves, written back first when dirty), no lock table, and transaction
    methods that do nothing yet. */
module BufferPoolLab3 {
  import opened Types
  import opened Recency
  import opened PageCache

  /** evictPage (STEAL): unlink the tail node, write its page back when it is
      dirty, and drop it from the cache. None when the list is empty: unlinking
      past the sentinels dereferences a null link. */
  function Stolen(pages: Pages, order: seq<PageId>, disk: Disk): (r: Option<(Pages, seq<PageId>, Disk)>)
    requires Tracks(order, pages.Keys)
    ensures r.None? <==> |pages| == 0
    ensures r.Some? ==> |order| > 0 && order[|order| - 1] in pages && order[|order| - 1] !in r.value.0
    ensures r.Some? ==> |r.value.0| == |pages| - 1 && Tracks(r.value.1, r.value.0.Keys)
    ensures r.Some? ==> forall p :: p in r.value.0 ==> p in pages && r.value.0[p] == pages[p]
    ensures r.Some? ==> forall p :: p in pages && p != order[|order| - 1] ==> p in r.value.0
    ensures r.Some? ==> forall p :: p in disk ==> p in r.value.2
    // the victim is unlinked from the tail and written back exactly when dirty
    ensures r.Some? ==>
      var victim := order[|order| - 1];
      && r.value.1 == order[..|order| - 1]
      && r.value.2 == if pages[victim].IsDirty() then disk[victim := pages[victim].content] else disk
  {
    TracksCard(order, pages.Keys);
    if order == [] then None
    else
      var victim := order[|order| - 1];
      DropLast(pages, order);
      var storage := if pages[victim].IsDirty() then disk[victim := pages[victim].content] else disk;
      Some((pages - {victim}, order[..|order| - 1], storage))
  }

  /** Unlinking the tail node and dropping its entry. */
  lemma DropLast(pages: Pages, order: seq<PageId>)
    requires Tracks(order, pages.Keys) && |order| > 0
    ensures order[|order| - 1] in pages
    ensures Tracks(order[..|order| - 1], (pages - {order[|order| - 1]}).Keys)
    ensures |pages - {order[|order| - 1]}| == |pages| - 1
  {
    var victim := order[|order| - 1];
    RotatedDrop(order, pages.Keys, |order|);
    assert order[|order|..] + order[..|order| - 1] == order[..|order| - 1];
    assert (pages - {victim}).Keys == pages.Keys - {victim};
  }

  /** getPage's effect: a hit moves the page to the head; a miss reads the
      stored image (an id the storage files lack fails), evicts first when the
      cache is full, and links the page at the head. */
  function Fetched(pages: Pages, order: seq<PageId>, disk: Disk, maxNumPages: int, pid: PageId)
    : (r: Result<(Pages, seq<PageId>, Disk)>)
    requires Tracks(order, pages.Keys)
    ensures r.Ok? ==> pid in r.value.0
    ensures r.Ok? && pid in pages ==> r.value.0[pid] == pages[pid]
    ensures r.Ok? && pid !in pages ==> pid in disk && r.value.0[pid] == ReadPage(disk, pid)
    ensures r.Ok? ==> Tracks(r.value.1, r.value.0.Keys) && |r.value.1| > 0 && r.value.1[0] == pid
    ensures r.Ok? ==> forall p :: p in r.value.0 && p != pid ==> p in pages && r.value.0[p] == pages[p]
    ensures r.Err? ==> r.error == PageNotInFile || r.error == NullLink
    ensures r == Err(PageNotInFile) <==> pid !in pages && pid !in disk
    ensures r == Err(NullLink) <==> pid !in pages && pid in disk && |pages| >= maxNumPages && |pages| == 0
    // a hit: nothing leaves the cache, nothing is written, the page moves to the head
    ensures pid in pages ==> r == Ok((pages, [pid] + Without(order, {pid}), disk))
    // a miss with room: nothing is evicted or written
    ensures pid !in pages && pid in disk && |pages| < maxNumPages ==>
      r == Ok((pages[pid := ReadPage(disk, pid)], [pid] + order, disk))
    // a miss on a full cache: the tail is stolen first
    ensures pid !in pages && pid in disk && |pages| >= maxNumPages && Stolen(pages, order, disk).Some? ==>
      var left := Stolen(pages, order, disk).value;
      r == Ok((left.0[pid := ReadPage(disk, pid)], [pid] + left.1, left.2))
  {
    if pid in pages then Ok((pages, MoveToHead(order, pid), disk))
    else if pid !in disk then Err(PageNotInFile)
    else
      var page := ReadPage(disk, pid);
      var room := if |pages| >= maxNumPages then Stolen(pages, order, disk) else Some((pages, order, disk));
      match room
      case None => Err(NullLink)
      case Some(state) =>
        var (cache, recency) := LinkAtHead(state.0, state.1, page);
        Ok((cache, recency, state.2))
  }

  /** One pass of updateBufferPool's loop: `page` is marked dirty by `tid`; an
      over-full cache evicts first; a cached id has its entry replaced where it
      stands in the list, a new one is linked at the head after evicting when
      the cache is full. None when an eviction meets an empty list. */
  function Absorb(pages: Pages, order: seq<PageId>, disk: Disk, maxNumPages: int, page: Page, tid: TransactionId)
    : (r: Option<(Pages, seq<PageId>, Disk)>)
    requires Tracks(order, pages.Keys)
    ensures r.Some? ==> Tracks(r.value.1, r.value.0.Keys)
    ensures r.Some? ==> page.id in r.value.0 && r.value.0[page.id] == page.(dirtier := Some(tid))
    ensures r.Some? ==> forall p :: p in r.value.0 && p != page.id ==> p in pages && r.value.0[p] == pages[p]
    // storage only gains the cached images of written-back dirty pages
    ensures r.Some? ==> forall p :: p in disk ==> p in r.value.2
    ensures r.Some? ==> WrittenBack(pages, disk, r.value.2)
    ensures page.id in pages && |pages| <= maxNumPages ==>
      r == Some((pages[page.id := page.(dirtier := Some(tid))], order, disk))
    // a new id with room is linked at the head, nothing is stolen
    ensures page.id !in pages && |pages| < maxNumPages ==>
      r == Some((pages[page.id := page.(dirtier := Some(tid))], [page.id] + order, disk))
    // a new id on a full cache replaces exactly the stolen tail
    ensures page.id !in pages && |pages| == maxNumPages && Stolen(pages, order, disk).Some? ==>
      var left := Stolen(pages, order, disk).value;
      r == Some((left.0[page.id := page.(dirtier := Some(tid))], [page.id] + left.1, left.2))
    // failure: an eviction meets an empty list
    ensures r.None? <==> |pages| <= 1 && (|pages| > maxNumPages || |pages| == maxNumPages == 0)
  {
    var dirtied := page.(dirtier := Some(tid));
    if |pages| > maxNumPages then
      match Stolen(pages, order, disk)
      case None => None
      case Some(state) =>
        WrittenBackThen(pages, disk, state.0, state.2, Place(state.0, state.1, state.2, maxNumPages, dirtied));
        Place(state.0, state.1, state.2, maxNumPages, dirtied)
    else Place(pages, order, disk, maxNumPages, dirtied)
  }

  /** `disk'` holds what `disk` holds, except for pages written back from
      `pages`, which hold their cached images. */
  ghost predicate WrittenBack(pages: Pages, disk: Disk, disk': Disk) {
    forall p :: p in disk' ==>
      (p in disk && disk'[p] == disk[p]) || (p in pages && pages[p].IsDirty() && disk'[p] == pages[p].content)
  }

  /** Two rounds of writing back, the second from a cache taken out of the first. */
  lemma WrittenBackThen(pages: Pages, disk: Disk, pages': Pages, disk': Disk,
                        r: Option<(Pages, seq<PageId>, Disk)>)
    requires WrittenBack(pages, disk, disk') && forall p :: p in disk ==> p in disk'
    requires forall p :: p in pages' ==> p in pages && pages'[p] == pages[p]
    requires r.Some? ==> WrittenBack(pages', disk', r.value.2) && forall p :: p in disk' ==> p in r.value.2
    ensures r.Some? ==> WrittenBack(pages, disk, r.value.2) && forall p :: p in disk ==> p in r.value.2
  {
  }

  /** The second half of a pass: a cached id has its entry replaced where it
      stands in the list; a new one is linked at the head, after stealing the
      tail when the cache is full. None when that steal meets an empty list. */
  function Place(pages: Pages, order: seq<PageId>, disk: Disk, maxNumPages: int, page: Page)
    : (r: Option<(Pages, seq<PageId>, Disk)>)
    requires Tracks(order, pages.Keys)
    ensures r.Some? ==> Tracks(r.value.1, r.value.0.Keys)
    ensures r.Some? ==> page.id in r.value.0 && r.value.0[page.id] == page
    ensures r.Some? ==> forall p :: p in r.value.0 && p != page.id ==> p in pages && r.value.0[p] == pages[p]
    ensures r.Some? ==> forall p :: p in disk ==> p in r.value.2
    ensures r.Some? ==> WrittenBack(pages, disk, r.value.2)
    ensures page.id in pages ==> r == Some((pages[page.id := page], order, disk))
    ensures page.id !in pages && |pages| < maxNumPages ==> r == Some((pages[page.id := page], [page.id] + order, disk))
    ensures page.id !in pages && |pages| >= maxNumPages && Stolen(pages, order, disk).Some? ==>
      var left := Stolen(pages, order, disk).value;
      r == Some((left.0[page.id := page], [page.id] + left.1, left.2))
    ensures r.None? <==> page.id !in pages && |pages| >= maxNumPages && |pages| == 0
  {
    if page.id in pages then Some((pages[page.id := page], order, disk))
    else
      var room := if |pages| >= maxNumPages then Stolen(pages, order, disk) else Some((pages, order, disk));
      match room
      case None => None
      case Some(state) =>
        var (cache, recency) := LinkAtHead(state.0, state.1, page);
        Some((cache, recency, state.2))
  }

  /** updateBufferPool's loop: absorb the pages of `list` in order, stopping at
      the first failed eviction. */
  function AbsorbAll(pages: Pages, order: seq<PageId>, disk: Disk, maxNumPages: int,
                     list: seq<Page>, tid: TransactionId)
    : (r: Option<(Pages, seq<PageId>, Disk)>)
    requires Tracks(order, pages.Keys)
    ensures r.Some? ==> Tracks(r.value.1, r.value.0.Keys)
    decreases |list|
  {
    if list == [] then Some((pages, order, disk))
    else
      match AbsorbAll(pages, order, disk, maxNumPages, list[..|list| - 1], tid)
      case None => None
      case Some(state) => Absorb(state.0, state.1, state.2, maxNumPages, list[|list| - 1], tid)
  }

  class BufferPool {
    const maxNumPages: int
    /** the cache: page id -> page */
    var pages: Pages
    /** the recency list, most recently used first */
    var order: seq<PageId>
    /** the storage files */
    var disk: Disk

    ghost predicate Valid()
      reads this
    {
      Consistent(pages, order, disk, Capacity(maxNumPages))
    }

    constructor (numPages: int, storage: Disk)
      ensures Valid()
      ensures maxNumPages == numPages && disk == storage
      ensures pages == map[] && order == []
    {
      maxNumPages := numPages;
      pages := map[];
      order := [];
      disk := storage;
    }

    /** getPage: no lock is taken; the cache step Fetched describes. */
    method GetPage(tid: TransactionId, pid: PageId, perm: Permissions) returns (r: Result<Page>)
      requires Valid()
      modifies this
      ensures Valid()
      ensures match Fetched(old(pages), old(order), old(disk), maxNumPages, pid)
        case Ok(state) => r == Ok(state.0[pid]) && (pages, order, disk) == state
        case Err(e) => r == Err(e) && pages == old(pages) && order == old(order) && disk == old(disk)
    {
      FetchedConsistent(pages, order, disk, maxNumPages, pid);
      if pid !in pages {
        if pid !in disk {
          return Err(PageNotInFile);
        }
        var page := ReadPage(disk, pid);
        if |pages| >= maxNumPages {
          var evicted := EvictPage();
          if evicted.Fail? {
            return Err(evicted.error);
          }
        }
        pages := pages[pid := page];
        order := AddToHead(order, pid);
        MoveHeadKeeps(order, pid);
      }
      order := MoveToHead(order, pid);
      return Ok(pages[pid]);
    }

    /** releasePage: not implemented in this version; it changes nothing. */
    method ReleasePage(tid: TransactionId, pid: PageId)
      ensures pages == old(pages) && order == old(order) && disk == old(disk)
    {
    }

    /** transactionComplete(tid): not implemented in this version. */
    method TransactionCommit(tid: TransactionId)
      ensures pages == old(pages) && order == old(order) && disk == old(disk)
    {
    }

    /** transactionComplete(tid, commit): not implemented in this version. */
    method TransactionComplete(tid: TransactionId, commit: bool)
      ensures pages == old(pages) && order == old(order) && disk == old(disk)
    {
    }

    /** flushPages: not implemented in this version. */
    method FlushPages(tid: TransactionId)
      ensures pages == old(pages) && order == old(order) && disk == old(disk)
    {
    }

    /** holdsLock: there is no lock table; it answers false. */
    function HoldsLock(tid: TransactionId, p: PageId): (held: bool)
      ensures !held
    {
      false
    }

    /** flushPage: write a dirty page to storage and mark it clean; a clean page
        is left alone. */
    method FlushPage(pid: PageId)
      requires pid in pages
      modifies this
      ensures order == old(order)
      ensures old(pages)[pid].IsDirty() ==> disk == old(disk)[pid := old(pages)[pid].content]
      ensures old(pages)[pid].IsDirty() ==> pages == old(pages)[pid := old(pages)[pid].(dirtier := None)]
      ensures !old(pages)[pid].IsDirty() ==> pages == old(pages) && disk == old(disk)
    {
      var flushPage := pages[pid];
      if flushPage.IsDirty() {
        disk := disk[pid := flushPage.content];
        pages := pages[pid := flushPage.(dirtier := None)];
      }
    }

    /** flushAllPages: flushPage on every cached id, which writes back every
        dirty page. */
    method FlushAllPages()
      requires Valid()
      modifies this
      ensures Valid() && order == old(order)
      ensures (pages, disk) == Flush(old(pages), old(disk), DirtyIds(old(pages)))
    {
      ghost var sel := DirtyIds(pages);
      var todo := pages.Keys;
      FlushLoopEnds(pages, disk, sel);
      while todo != {}
        invariant todo <= old(pages).Keys && order == old(order)
        invariant (pages, disk) == Flush(old(pages), old(disk), sel - todo)
        decreases todo
      {
        var pageId :| pageId in todo;
        FlushStep(old(pages), old(disk), sel, todo, pageId);
        if pages[pageId].IsDirty() {
          FlushOne(pages, disk, pageId);
        }
        FlushPage(pageId);
        todo := todo - {pageId};
      }
      FlushConsistent(old(pages), order, old(disk), Capacity(maxNumPages), sel);
    }

    /** discardPage: drop an entry without writing it; an absent id is a no-op. */
    method DiscardPage(pid: PageId)
      requires Valid()
      modifies this
      ensures Valid() && disk == old(disk)
      ensures pages == old(pages) - {pid}
      ensures order == Without(old(order), {pid})
    {
      if pid in pages {
        DropConsistent(pages, order, disk, Capacity(maxNumPages), pid);
        order := Remove(order, pid);
        pages := pages - {pid};
      } else {
        WithoutDisjoint(order, {pid});
      }
    }

    /** One pass of updateBufferPool's loop: the step Absorb describes. */
    method AbsorbPage(page: Page, tid: TransactionId) returns (r: Outcome)
      requires Valid() && page.id in disk
      modifies this
      ensures Valid() && old(disk).Keys <= disk.Keys
      ensures r.Fail? ==> r == Fail(NullLink) && pages == old(pages) && order == old(order) && disk == old(disk)
      ensures r.Fail? <==> Absorb(old(pages), old(order), old(disk), maxNumPages, page, tid).None?
      ensures r.Pass? ==> (pages, order, disk) == Absorb(old(pages), old(order), old(disk), maxNumPages, page, tid).value
    {
      AbsorbConsistent(pages, order, disk, maxNumPages, page, tid);
      AbsorbVisible(pages, order, disk, maxNumPages, page, tid);
      var dirtied := page.(dirtier := Some(tid));
      if |pages| > maxNumPages {
        r := EvictPage();
        if r.Fail? {
          return;
        }
      }
      if dirtied.id in pages {
        pages := pages[dirtied.id := dirtied];
      } else {
        if |pages| >= maxNumPages {
          r := EvictPage();
          if r.Fail? {
            return;
          }
        }
        pages := pages[dirtied.id := dirtied];
        order := AddToHead(order, dirtied.id);
      }
      return Pass;
    }

    /** updateBufferPool: absorb the pages an insert or delete dirtied, in list
        order; an eviction that meets an empty list stops the loop. */
    method UpdateBufferPool(pageList: seq<Page>, tid: TransactionId) returns (r: Outcome)
      requires Valid() && forall i :: 0 <= i < |pageList| ==> pageList[i].id in disk
      modifies this
      ensures Valid()
      ensures r.Fail? ==> r == Fail(NullLink)
      ensures r.Fail? <==> AbsorbAll(old(pages), old(order), old(disk), maxNumPages, pageList, tid).None?
      ensures r.Pass? ==>
        (pages, order, disk) == AbsorbAll(old(pages), old(order), old(disk), maxNumPages, pageList, tid).value
    {
      var i := 0;
      while i < |pageList|
        invariant 0 <= i <= |pageList|
        invariant Valid() && old(disk).Keys <= disk.Keys
        invariant AbsorbAll(old(pages), old(order), old(disk), maxNumPages, pageList[..i], tid) == Some((pages, order, disk))
      {
        AbsorbAllNext(old(pages), old(order), old(disk), maxNumPages, pageList, tid, i);
        r := AbsorbPage(pageList[i], tid);
        if r.Fail? {
          AbsorbAllStops(old(pages), old(order), old(disk), maxNumPages, pageList, tid, i + 1);
          return;
        }
        i := i + 1;
      }
      assert pageList[..i] == pageList;
      r := Pass;
    }

    /** evictPage (STEAL): unlink the tail node, flush it, drop it. */
    method EvictPage() returns (r: Outcome)
      requires Valid()
      modifies this
      ensures Valid()
      ensures match Stolen(old(pages), old(order), old(disk))
        case None => r == Fail(NullLink) && pages == old(pages) && order == old(order) && disk == old(disk)
        case Some(state) => r == Pass && (pages, order, disk) == state
    {
      StolenConsistent(pages, order, disk, Capacity(maxNumPages));
      if order == [] {
        TracksCard(order, pages.Keys);
        return Fail(NullLink);
      }
      var (node, rest) := RemoveLast(order);
      ghost var state := Stolen(pages, order, disk).value;
      if pages[node].IsDirty() {
        UpdateThenDrop(pages, node, pages[node].(dirtier := None));
      }
      order := rest;
      FlushPage(node);
      assert disk == state.2;
      pages := pages - {node};
      assert pages == state.0;
      assert Consistent(state.0, state.1, state.2, Capacity(maxNumPages));
      return Pass;
    }
  }

  /** Eviction keeps the invariant. */
  lemma StolenConsistent(pages: Pages, order: seq<PageId>, disk: Disk, capacity: nat)
    requires Consistent(pages, order, disk, capacity)
    ensures Stolen(pages, order, disk).Some? ==>
      Consistent(Stolen(pages, order, disk).value.0, Stolen(pages, order, disk).value.1,
                 Stolen(pages, order, disk).value.2, capacity)
  {
  }

  /** STEAL eviction changes no page a reader sees: the victim's image is in
      storage once it leaves the cache (written back when dirty, already there
      when clean), and every other page keeps its cached or stored image. */
  lemma StolenVisible(pages: Pages, order: seq<PageId>, disk: Disk, capacity: nat)
    requires Consistent(pages, order, disk, capacity)
    ensures Stolen(pages, order, disk).Some? ==> forall p :: p in disk ==>
      p in Stolen(pages, order, disk).value.2 &&
      Visible(Stolen(pages, order, disk).value.0, Stolen(pages, order, disk).value.2, p) == Visible(pages, disk, p)
    ensures Stolen(pages, order, disk).Some? && pages[order[|order| - 1]].IsDirty() ==>
      Stolen(pages, order, disk).value.2[order[|order| - 1]] == pages[order[|order| - 1]].content
  {
  }

  /** getPage keeps the invariant and changes no page a reader sees. */
  lemma FetchedConsistent(pages: Pages, order: seq<PageId>, disk: Disk, maxNumPages: int, pid: PageId)
    requires Consistent(pages, order, disk, Capacity(maxNumPages))
    ensures Fetched(pages, order, disk, maxNumPages, pid).Ok? ==>
      Consistent(Fetched(pages, order, disk, maxNumPages, pid).value.0,
                 Fetched(pages, order, disk, maxNumPages, pid).value.1,
                 Fetched(pages, order, disk, maxNumPages, pid).value.2, Capacity(maxNumPages))
  {
    if pid !in pages && pid in disk {
      var room := if |pages| >= maxNumPages then Stolen(pages, order, disk) else Some((pages, order, disk));
      StolenConsistent(pages, order, disk, Capacity(maxNumPages));
      if room.Some? {
        InsertConsistent(room.value.0, room.value.1, room.value.2, Capacity(maxNumPages), ReadPage(disk, pid));
      }
    }
  }

  /** getPage changes nothing a reader sees: the page it loads holds the stored
      image, and the page it evicts is written back first when dirty. */
  lemma FetchedVisible(pages: Pages, order: seq<PageId>, disk: Disk, maxNumPages: int, pid: PageId)
    requires Consistent(pages, order, disk, Capacity(maxNumPages))
    ensures Fetched(pages, order, disk, maxNumPages, pid).Ok? ==>
      var state := Fetched(pages, order, disk, maxNumPages, pid).value;
      forall p :: p in disk ==> p in state.2 && Visible(state.0, state.2, p) == Visible(pages, disk, p)
  {
    if pid !in pages && pid in disk {
      var room := if |pages| >= maxNumPages then Stolen(pages, order, disk) else Some((pages, order, disk));
      assert room.Some? ==> forall p :: p in disk ==>
        p in room.value.2 && Visible(room.value.0, room.value.2, p) == Visible(pages, disk, p) by {
        StolenVisible(pages, order, disk, Capacity(maxNumPages));
      }
      if room.Some? {
        ReplaceVisible(room.value.0, room.value.2, ReadPage(disk, pid));
      }
    }
  }

  /** A pass of updateBufferPool keeps the invariant, and an over-full cache
      (possible only when maxNumPages is negative) fails its first eviction. */
  lemma AbsorbConsistent(pages: Pages, order: seq<PageId>, disk: Disk, maxNumPages: int,
                         page: Page, tid: TransactionId)
    requires Consistent(pages, order, disk, Capacity(maxNumPages)) && page.id in disk
    ensures |pages| > maxNumPages ==> Stolen(pages, order, disk).None?
    ensures Absorb(pages, order, disk, maxNumPages, page, tid).Some? ==>
      Consistent(Absorb(pages, order, disk, maxNumPages, page, tid).value.0,
                 Absorb(pages, order, disk, maxNumPages, page, tid).value.1,
                 Absorb(pages, order, disk, maxNumPages, page, tid).value.2, Capacity(maxNumPages))
  {
    var dirtied := page.(dirtier := Some(tid));
    if |pages| <= maxNumPages {
      if dirtied.id in pages {
        ReplaceConsistent(pages, order, disk, Capacity(maxNumPages), dirtied);
      } else {
        var room := if |pages| >= maxNumPages then Stolen(pages, order, disk) else Some((pages, order, disk));
        assert room.Some? ==> Consistent(room.value.0, room.value.1, room.value.2, Capacity(maxNumPages)) by {
          StolenConsistent(pages, order, disk, Capacity(maxNumPages));
        }
        if room.Some? {
          var (cache, recency) := LinkAtHead(room.value.0, room.value.1, dirtied);
          assert Absorb(pages, order, disk, maxNumPages, page, tid) == Some((cache, recency, room.value.2));
          InsertConsistent(room.value.0, room.value.1, room.value.2, Capacity(maxNumPages), dirtied);
        }
      }
    }
  }

  /** A pass of updateBufferPool: readers of the absorbed id see the new image,
      readers of any other stored page see what they saw before. */
  lemma AbsorbVisible(pages: Pages, order: seq<PageId>, disk: Disk, maxNumPages: int,
                      page: Page, tid: TransactionId)
    requires Consistent(pages, order, disk, Capacity(maxNumPages)) && page.id in disk
    ensures Absorb(pages, order, disk, maxNumPages, page, tid).Some? ==>
      var state := Absorb(pages, order, disk, maxNumPages, page, tid).value;
      && disk.Keys <= state.2.Keys
      && Visible(state.0, state.2, page.id) == page.content
      && forall p :: p in disk && p != page.id ==> Visible(state.0, state.2, p) == Visible(pages, disk, p)
  {
    var dirtied := page.(dirtier := Some(tid));
    if |pages| <= maxNumPages {
      if page.id in pages {
        ReplaceVisible(pages, disk, dirtied);
      } else {
        var room := if |pages| >= maxNumPages then Stolen(pages, order, disk) else Some((pages, order, disk));
        assert room.Some? ==> forall p :: p in disk ==>
          p in room.value.2 && Visible(room.value.0, room.value.2, p) == Visible(pages, disk, p) by {
          StolenVisible(pages, order, disk, Capacity(maxNumPages));
        }
        if room.Some? {
          var (cache, recency) := LinkAtHead(room.value.0, room.value.1, dirtied);
          assert Absorb(pages, order, disk, maxNumPages, page, tid) == Some((cache, recency, room.value.2));
          ReplaceVisible(room.value.0, room.value.2, dirtied);
        }
      }
    }
  }

  /** One more pass of the loop extends the absorbed prefix by one page. */
  lemma AbsorbAllNext(pages: Pages, order: seq<PageId>, disk: Disk, maxNumPages: int,
                      list: seq<Page>, tid: TransactionId, i: nat)
    requires Tracks(order, pages.Keys) && i < |list|
    requires AbsorbAll(pages, order, disk, maxNumPages, list[..i], tid).Some?
    ensures var state := AbsorbAll(pages, order, disk, maxNumPages, list[..i], tid).value;
      AbsorbAll(pages, order, disk, maxNumPages, list[..i + 1], tid) == Absorb(state.0, state.1, state.2, maxNumPages, list[i], tid)
  {
    assert list[..i + 1][..i] == list[..i];
  }

  /** Once a prefix of the list fails, the whole list fails. */
  lemma {:induction false} AbsorbAllStops(pages: Pages, order: seq<PageId>, disk: Disk, maxNumPages: int,
                                          list: seq<Page>, tid: TransactionId, n: nat)
    requires Tracks(order, pages.Keys) && 0 < n <= |list|
    requires AbsorbAll(pages, order, disk, maxNumPages, list[..n], tid).None?
    ensures AbsorbAll(pages, order, disk, maxNumPages, list, tid).None?
    decreases |list|
  {
    if n < |list| {
      var init := list[..|list| - 1];
      assert init[..n] == list[..n];
      AbsorbAllStops(pages, order, disk, maxNumPages, init, tid, n);
    } else {
      assert list[..n] == list;
    }
  }

  /** updateBufferPool keeps the invariant, and storage only gains pages. */
  lemma {:induction false} AbsorbAllConsistent(pages: Pages, order: seq<PageId>, disk: Disk, maxNumPages: int,
                                               list: seq<Page>, tid: TransactionId)
    requires Consistent(pages, order, disk, Capacity(maxNumPages))
    requires forall i :: 0 <= i < |list| ==> list[i].id in disk
    ensures AbsorbAll(pages, order, disk, maxNumPages, list, tid).Some? ==>
      var state := AbsorbAll(pages, order, disk, maxNumPages, list, tid).value;
      Consistent(state.0, state.1, state.2, Capacity(maxNumPages)) && disk.Keys <= state.2.Keys
    decreases |list|
  {
    if list != [] {
      var init := list[..|list| - 1];
      AbsorbAllConsistent(pages, order, disk, maxNumPages, init, tid);
      var prefix := AbsorbAll(pages, order, disk, maxNumPages, init, tid);
      if prefix.Some? {
        AbsorbConsistent(prefix.value.0, prefix.value.1, prefix.value.2, maxNumPages, list[|list| - 1], tid);
        AbsorbVisible(prefix.value.0, prefix.value.1, prefix.value.2, maxNumPages, list[|list| - 1], tid);
      }
    }
  }

  /** What a completed updateBufferPool leaves for readers of the listed pages:
      each is seen in its last listed version, even when STEAL eviction has
      already pushed it out to storage. */
  lemma {:induction false} AbsorbAllShows(pages: Pages, order: seq<PageId>, disk: Disk, maxNumPages: int,
                                          list: seq<Page>, tid: TransactionId)
    requires Consistent(pages, order, disk, Capacity(maxNumPages))
    requires forall i :: 0 <= i < |list| ==> list[i].id in disk
    ensures AbsorbAll(pages, order, disk, maxNumPages, list, tid).Some? ==>
      var state := AbsorbAll(pages, order, disk, maxNumPages, list, tid).value;
      forall p :: p in Absorbed(list, tid) ==>
        p in state.2 && Visible(state.0, state.2, p) == Absorbed(list, tid)[p].content
    decreases |list|
  {
    if list != [] {
      var init := list[..|list| - 1];
      assert forall i :: 0 <= i < |init| ==> init[i] == list[i];
      AbsorbAllShows(pages, order, disk, maxNumPages, init, tid);
      AbsorbAllConsistent(pages, order, disk, maxNumPages, init, tid);
      ShowsOneMore(pages, order, disk, maxNumPages, list, tid);
    }
  }

  /** The inductive step of AbsorbAllShows: what holds after all but the last
      listed page still holds once the last one is absorbed. */
  lemma ShowsOneMore(pages: Pages, order: seq<PageId>, disk: Disk, maxNumPages: int,
                     list: seq<Page>, tid: TransactionId)
    requires Tracks(order, pages.Keys) && |list| > 0 && list[|list| - 1].id in disk
    requires var prefix := AbsorbAll(pages, order, disk, maxNumPages, list[..|list| - 1], tid);
      prefix.Some? ==>
        && Consistent(prefix.value.0, prefix.value.1, prefix.value.2, Capacity(maxNumPages))
        && disk.Keys <= prefix.value.2.Keys
        && forall p :: p in Absorbed(list[..|list| - 1], tid) ==>
             p in prefix.value.2 && Visible(prefix.value.0, prefix.value.2, p) == Absorbed(list[..|list| - 1], tid)[p].content
    ensures AbsorbAll(pages, order, disk, maxNumPages, list, tid).Some? ==>
      var state := AbsorbAll(pages, order, disk, maxNumPages, list, tid).value;
      forall p :: p in Absorbed(list, tid) ==>
        p in state.2 && Visible(state.0, state.2, p) == Absorbed(list, tid)[p].content
  {
    var init := list[..|list| - 1];
    var last := list[|list| - 1];
    var prefix := AbsorbAll(pages, order, disk, maxNumPages, init, tid);
    if prefix.Some? {
      var state := prefix.value;
      AbsorbVisible(state.0, state.1, state.2, maxNumPages, last, tid);
      var next := Absorb(state.0, state.1, state.2, maxNumPages, last, tid);
      assert AbsorbAll(pages, order, disk, maxNumPages, list, tid) == next;
      if next.Some? {
        ShowsStep(state.0, state.2, next.value.0, next.value.2, Absorbed(init, tid), last, tid);
        AbsorbedStep(list, tid);
      }
    }
  }

  /** Absorbing one more page keeps every absorbed page visible in its last
      version: the new one by its own write, the others because nothing else
      that readers see changed. */
  lemma ShowsStep(pages: Pages, disk: Disk, pages': Pages, disk': Disk, seen: Pages,
                  last: Page, tid: TransactionId)
    requires forall p :: p in seen ==> p in disk && Visible(pages, disk, p) == seen[p].content
    requires last.id in disk' && disk.Keys <= disk'.Keys
    requires Visible(pages', disk', last.id) == last.content
    requires forall p :: p in disk && p != last.id ==> Visible(pages', disk', p) == Visible(pages, disk, p)
    ensures var now := seen[last.id := last.(dirtier := Some(tid))];
      forall p :: p in now ==> p in disk' && Visible(pages', disk', p) == now[p].content
  {
  }

  /** What a completed updateBufferPool leaves for readers of any other stored
      page: what they saw before. */
  lemma {:induction false} AbsorbAllKeeps(pages: Pages, order: seq<PageId>, disk: Disk, maxNumPages: int,
                                          list: seq<Page>, tid: TransactionId)
    requires Consistent(pages, order, disk, Capacity(maxNumPages))
    requires forall i :: 0 <= i < |list| ==> list[i].id in disk
    ensures AbsorbAll(pages, order, disk, maxNumPages, list, tid).Some? ==>
      var state := AbsorbAll(pages, order, disk, maxNumPages, list, tid).value;
      forall p :: p in disk && p !in Absorbed(list, tid) ==>
        p in state.2 && Visible(state.0, state.2, p) == Visible(pages, disk, p)
    decreases |list|
  {
    if list != [] {
      var init := list[..|list| - 1];
      var last := list[|list| - 1];
      assert forall i :: 0 <= i < |init| ==> init[i] == list[i];
      AbsorbAllKeeps(pages, order, disk, maxNumPages, init, tid);
      AbsorbAllConsistent(pages, order, disk, maxNumPages, init, tid);
      var prefix := AbsorbAll(pages, order, disk, maxNumPages, init, tid);
      if prefix.Some? {
        AbsorbVisible(prefix.value.0, prefix.value.1, prefix.value.2, maxNumPages, last, tid);
      }
    }
  }

  /** The pool after getPage is called for each id in turn, starting empty;
      the first failure ends the run. */
  function Served(disk: Disk, maxNumPages: int, ids: seq<PageId>): (r: Result<(Pages, seq<PageId>, Disk)>)
    ensures r.Ok? ==> Tracks(r.value.1, r.value.0.Keys)
    decreases |ids|
  {
    if ids == [] then Ok((map[], [], disk))
    else
      match Served(disk, maxNumPages, ids[..|ids| - 1])
      case Err(e) => Err(e)
      case Ok(state) => Fetched(state.0, state.1, state.2, maxNumPages, ids[|ids| - 1])
  }

  /** One more getPage call extends a successful run by one Fetched step. */
  lemma ServedStep(disk: Disk, maxNumPages: int, ids: seq<PageId>, pid: PageId)
    requires Served(disk, maxNumPages, ids).Ok?
    ensures var state := Served(disk, maxNumPages, ids).value;
      Served(disk, maxNumPages, ids + [pid]) == Fetched(state.0, state.1, state.2, maxNumPages, pid)
  {
    assert (ids + [pid])[..|ids|] == ids;
  }

  /** Least-recently-used replacement: with room for two pages, getPage on A,
      B, A, then C evicts B (A was used more recently), leaving C then A. */
  lemma LeastRecentlyUsedScenario(disk: Disk, a: PageId, b: PageId, c: PageId)
    requires a in disk && b in disk && c in disk && a != b && b != c && a != c
    ensures Served(disk, 2, [a, b, a, c]) ==
      Ok((map[a := ReadPage(disk, a), c := ReadPage(disk, c)], [c, a], disk))
  {
    var pa, pb, pc := ReadPage(disk, a), ReadPage(disk, b), ReadPage(disk, c);
    ScenarioRevisit(disk, a, b);
    ScenarioEviction(disk, a, b, c);
    ServedThen(disk, 2, [a, b, a], c, (map[a := pa, b := pb], [a, b], disk),
               Ok((map[a := pa, c := pc], [c, a], disk)));
    assert [a, b, a] + [c] == [a, b, a, c];
  }

  /** The first three requests of the scenario: A and B are read in, and A is
      then a hit that moves it to the head. */
  lemma ScenarioRevisit(disk: Disk, a: PageId, b: PageId)
    requires a in disk && b in disk && a != b
    ensures Served(disk, 2, [a, b, a]) ==
      Ok((map[a := ReadPage(disk, a), b := ReadPage(disk, b)], [a, b], disk))
  {
    var pa, pb := ReadPage(disk, a), ReadPage(disk, b);
    ScenarioLoad(disk, a, b);
    ScenarioHit(disk, a, b);
    ServedThen(disk, 2, [a, b], a, (map[a := pa, b := pb], [b, a], disk),
               Ok((map[a := pa, b := pb], [a, b], disk)));
    assert [a, b] + [a] == [a, b, a];
  }

  /** Chaining a run with the outcome of its next request. */
  lemma ServedThen(disk: Disk, maxNumPages: int, ids: seq<PageId>, pid: PageId,
                   state: (Pages, seq<PageId>, Disk), next: Result<(Pages, seq<PageId>, Disk)>)
    requires Served(disk, maxNumPages, ids) == Ok(state)
    requires Tracks(state.1, state.0.Keys)
    requires Fetched(state.0, state.1, state.2, maxNumPages, pid) == next
    ensures Served(disk, maxNumPages, ids + [pid]) == next
  {
    ServedStep(disk, maxNumPages, ids, pid);
  }

  /** Loading A then B into an empty pool links B ahead of A. */
  lemma ScenarioLoad(disk: Disk, a: PageId, b: PageId)
    requires a in disk && b in disk && a != b
    ensures Served(disk, 2, [a, b]) == Ok((map[a := ReadPage(disk, a), b := ReadPage(disk, b)], [b, a], disk))
  {
    ScenarioFirst(disk, a);
    assert [a] + [b] == [a, b];
    ServedStep(disk, 2, [a], b);
    assert AddToHead([a], b) == [b, a];
  }

  lemma ScenarioFirst(disk: Disk, a: PageId)
    requires a in disk
    ensures Served(disk, 2, [a]) == Ok((map[a := ReadPage(disk, a)], [a], disk))
  {
    assert [] + [a] == [a];
    ServedStep(disk, 2, [], a);
    assert AddToHead([], a) == [a];
  }

  /** Using A again moves it to the head. */
  lemma ScenarioHit(disk: Disk, a: PageId, b: PageId)
    requires a in disk && b in disk && a != b
    ensures var cache := map[a := ReadPage(disk, a), b := ReadPage(disk, b)];
      Fetched(cache, [b, a], disk, 2, a) == Ok((cache, [a, b], disk))
  {
    assert Without([b, a], {a}) == [b] by {
      assert [b, a][1..] == [a] && [a][1..] == [];
    }
    assert Distinct([b, a]);
    assert MoveToHead([b, a], a) == [a, b];
  }

  /** Loading C into the full cache [A, B] evicts B, the tail. */
  lemma ScenarioEviction(disk: Disk, a: PageId, b: PageId, c: PageId)
    requires a in disk && b in disk && c in disk && a != b && b != c && a != c
    ensures var cache := map[a := ReadPage(disk, a), b := ReadPage(disk, b)];
      Fetched(cache, [a, b], disk, 2, c) == Ok((map[a := ReadPage(disk, a), c := ReadPage(disk, c)], [c, a], disk))
  {
    var pa, pb := ReadPage(disk, a), ReadPage(disk, b);
    assert Stolen(map[a := pa, b := pb], [a, b], disk) == Some((map[a := pa], [a], disk)) by {
      assert map[a := pa, b := pb] - {b} == map[a := pa];
      assert [a, b][..1] == [a];
    }
    assert AddToHead([a], c) == [c, a];
  }
}
