/** The lab5 buffer pool: a bounded page cache with a recency list, a page lock
    table, NO-STEAL eviction, and commit (flush) / abort (reload) at the end of
    a transaction. The storage files are the `disk` field; the lock manager is
    its own object. */
module BufferPoolLab5 {
  import opened Types
  import opened Recency
  import opened PageCache
  import Locks
  import opened LockManagement

  /** The lock mode getPage asks for: Share to read, Exclusive to write. */
  function LockFor(perm: Permissions): (mode: LockType)
    ensures mode == Share <==> perm == ReadOnly
  {
    if perm == ReadOnly then Share else Exclusive
  }

  /** Abort's effect on the cache: every page `tid` dirtied now holds the stored
      image, clean, and sits in front of the recency list (in the order the
      restoration visited them); the other pages keep their entry and order. */
  ghost predicate RestoredAfterAbort(pages0: Pages, order0: seq<PageId>, disk: Disk,
                                     pages: Pages, order: seq<PageId>, tid: TransactionId)
    requires forall p :: p in pages0 ==> p in disk
  {
    var restored := DirtiedBy(pages0, tid);
    && pages == Reloaded(pages0, disk, restored)
    && |restored| <= |order|
    && (forall p :: p in order[..|restored|] <==> p in restored)
    && order[|restored|..] == Without(order0, restored)
  }

  /** evictPage's effect (NO-STEAL): the clean page nearest the tail leaves the
      cache, and the dirty pages the scan passed over move to the head in their
      order; None when every cached page is dirty. */
  function Evicted(pages: Pages, order: seq<PageId>): (r: Option<(Pages, seq<PageId>)>)
    requires Tracks(order, pages.Keys)
    ensures r.None? <==> forall p :: p in pages ==> pages[p].IsDirty()
    ensures r.Some? ==> |r.value.0| == |pages| - 1 && Tracks(r.value.1, r.value.0.Keys)
    ensures r.Some? ==> forall p :: p in r.value.0 ==> p in pages && r.value.0[p] == pages[p]
    ensures r.Some? ==> forall p :: p in pages && pages[p].IsDirty() ==> p in r.value.0
    ensures r.Some? ==> forall j :: 0 <= j < |order| && order[j] !in r.value.0 ==>
      !pages[order[j]].IsDirty() && forall i :: j < i < |order| ==> pages[order[i]].IsDirty()
  {
    match LastClean(order, pages)
    case None => AllDirty(pages, order); None
    case Some(k) =>
      EvictedVictim(pages, order, k, pages - {order[k]}, RotatedPast(order, k));
      Some((pages - {order[k]}, RotatedPast(order, k)))
  }

  /** With no clean page in the list, no cached page is clean. */
  lemma AllDirty(pages: Pages, order: seq<PageId>)
    requires Tracks(order, pages.Keys) && LastClean(order, pages).None?
    ensures forall p :: p in pages ==> pages[p].IsDirty()
  {
    forall p | p in pages ensures pages[p].IsDirty() {
      var j :| 0 <= j < |order| && order[j] == p;
    }
  }

  /** Dropping the clean page nearest the tail: the facts Evicted promises. */
  lemma EvictedVictim(pages: Pages, order: seq<PageId>, k: nat, left: Pages, rest: seq<PageId>)
    requires Tracks(order, pages.Keys) && LastClean(order, pages) == Some(k)
    requires left == pages - {order[k]} && rest == RotatedPast(order, k)
    ensures !pages[order[k]].IsDirty()
    ensures |left| == |pages| - 1 && Tracks(rest, left.Keys)
    ensures forall p :: p in left ==> p in pages && left[p] == pages[p]
    ensures forall p :: p in pages && pages[p].IsDirty() ==> p in left
    ensures forall j :: 0 <= j < |order| && order[j] !in left ==>
      !pages[order[j]].IsDirty() && forall i :: j < i < |order| ==> pages[order[i]].IsDirty()
  {
    RotatedDrop(order, pages.Keys, k + 1);
    assert left.Keys == pages.Keys - {order[k]};
    forall j | 0 <= j < |order| && order[j] !in left ensures order[j] == order[k] {
    }
  }

  /** getPage's effect on the cache once the lock is granted: a hit moves the
      page to the head; a miss reads the stored image (an id the storage files
      lack fails), evicts first when the cache is full, and links the page at
      the head. */
  function Fetched(pages: Pages, order: seq<PageId>, disk: Disk, maxNumPages: int, pid: PageId)
    : (r: Result<(Pages, seq<PageId>)>)
    requires Tracks(order, pages.Keys)
    ensures r.Ok? ==> pid in r.value.0
    ensures r.Ok? && pid in pages ==> r.value.0[pid] == pages[pid]
    ensures r.Ok? && pid !in pages ==> pid in disk && r.value.0[pid] == ReadPage(disk, pid)
    ensures r.Ok? ==> Tracks(r.value.1, r.value.0.Keys) && |r.value.1| > 0 && r.value.1[0] == pid
    ensures r.Ok? ==> forall p :: p in r.value.0 && p != pid ==> p in pages && r.value.0[p] == pages[p]
    ensures r.Ok? ==> forall p :: p in pages && pages[p].IsDirty() ==> p in r.value.0
    ensures r.Err? ==> r.error == PageNotInFile || r.error == AllPagesDirty
    ensures r == Err(PageNotInFile) <==> pid !in pages && pid !in disk
    ensures r == Err(AllPagesDirty) <==>
      pid !in pages && pid in disk && |pages| >= maxNumPages && forall p :: p in pages ==> pages[p].IsDirty()
    // a hit: nothing leaves the cache, and the page moves to the head
    ensures pid in pages ==> r == Ok((pages, [pid] + Without(order, {pid})))
    // a miss with room: nothing is evicted
    ensures pid !in pages && pid in disk && |pages| < maxNumPages ==>
      r == Ok((pages[pid := ReadPage(disk, pid)], [pid] + order))
    // a miss on a full cache: exactly Evicted's victim leaves
    ensures pid !in pages && pid in disk && |pages| >= maxNumPages && Evicted(pages, order).Some? ==>
      var left := Evicted(pages, order).value;
      r == Ok((left.0[pid := ReadPage(disk, pid)], [pid] + left.1))
  {
    if pid in pages then Ok((pages, MoveToHead(order, pid)))
    else if pid !in disk then Err(PageNotInFile)
    else
      var room := if |pages| >= maxNumPages then Evicted(pages, order) else Some((pages, order));
      match room
      case None => Err(AllPagesDirty)
      case Some(state) => Ok(LinkAtHead(state.0, state.1, ReadPage(disk, pid)))
  }

  /** One pass of updateBufferPool's loop: `page` is marked dirty by `tid`; an
      over-full cache evicts first; a cached id has its entry replaced where it
      stands in the list, a new one is linked at the head after evicting when
      the cache is full. None when an eviction finds every page dirty. */
  function Absorb(pages: Pages, order: seq<PageId>, maxNumPages: int, page: Page, tid: TransactionId)
    : (r: Option<(Pages, seq<PageId>)>)
    requires Tracks(order, pages.Keys)
    ensures r.Some? ==> Tracks(r.value.1, r.value.0.Keys)
    ensures r.Some? ==> page.id in r.value.0 && r.value.0[page.id] == page.(dirtier := Some(tid))
    ensures r.Some? ==> forall p :: p in r.value.0 && p != page.id ==> p in pages && r.value.0[p] == pages[p]
    ensures r.Some? ==> forall p :: p in pages && pages[p].IsDirty() ==> p in r.value.0
    ensures page.id in pages && |pages| <= maxNumPages ==>
      r == Some((pages[page.id := page.(dirtier := Some(tid))], order))
    // a new id with room is linked at the head, nothing is evicted
    ensures page.id !in pages && |pages| < maxNumPages ==>
      r == Some((pages[page.id := page.(dirtier := Some(tid))], [page.id] + order))
    // a new id on a full cache replaces exactly Evicted's victim
    ensures page.id !in pages && |pages| == maxNumPages && Evicted(pages, order).Some? ==>
      var left := Evicted(pages, order).value;
      r == Some((left.0[page.id := page.(dirtier := Some(tid))], [page.id] + left.1))
    // failure: an eviction is needed and finds no clean page
    ensures |pages| <= maxNumPages ==>
      (r.None? <==> page.id !in pages && |pages| == maxNumPages && forall p :: p in pages ==> pages[p].IsDirty())
    ensures |pages| > maxNumPages ==>
      (r.None? <==> && (forall p, q :: p in pages && q in pages && !pages[p].IsDirty() && !pages[q].IsDirty() ==> p == q)
                    && ((forall p :: p in pages ==> pages[p].IsDirty()) || !(page.id in pages && pages[page.id].IsDirty())))
  {
    var dirtied := page.(dirtier := Some(tid));
    if |pages| > maxNumPages then
      match Evicted(pages, order)
      case None => None
      case Some(state) =>
        OverfullPlace(pages, order, maxNumPages, dirtied);
        Place(state.0, state.1, maxNumPages, dirtied)
    else Place(pages, order, maxNumPages, dirtied)
  }

  /** The second half of a pass: a cached id has its entry replaced where it
      stands in the list; a new one is linked at the head, after one eviction
      when the cache is full. None when that eviction finds every page dirty. */
  function Place(pages: Pages, order: seq<PageId>, maxNumPages: int, page: Page)
    : (r: Option<(Pages, seq<PageId>)>)
    requires Tracks(order, pages.Keys)
    ensures r.Some? ==> Tracks(r.value.1, r.value.0.Keys)
    ensures r.Some? ==> page.id in r.value.0 && r.value.0[page.id] == page
    ensures r.Some? ==> forall p :: p in r.value.0 && p != page.id ==> p in pages && r.value.0[p] == pages[p]
    ensures r.Some? ==> forall p :: p in pages && pages[p].IsDirty() ==> p in r.value.0
    ensures page.id in pages ==> r == Some((pages[page.id := page], order))
    ensures page.id !in pages && |pages| < maxNumPages ==> r == Some((pages[page.id := page], [page.id] + order))
    ensures page.id !in pages && |pages| >= maxNumPages && Evicted(pages, order).Some? ==>
      var left := Evicted(pages, order).value;
      r == Some((left.0[page.id := page], [page.id] + left.1))
    ensures r.None? <==> page.id !in pages && |pages| >= maxNumPages && forall p :: p in pages ==> pages[p].IsDirty()
  {
    if page.id in pages then Some((pages[page.id := page], order))
    else
      var room := if |pages| >= maxNumPages then Evicted(pages, order) else Some((pages, order));
      match room
      case None => None
      case Some(state) => Some(LinkAtHead(state.0, state.1, page))
  }

  /** An over-full cache first evicts its clean page nearest the tail; placing
      the page afterwards fails exactly when that was the only clean page and
      the page is not a dirty cached one (which would be replaced in place). */
  lemma OverfullPlace(pages: Pages, order: seq<PageId>, maxNumPages: int, page: Page)
    requires Tracks(order, pages.Keys) && |pages| > maxNumPages && Evicted(pages, order).Some?
    ensures var left := Evicted(pages, order).value;
      Place(left.0, left.1, maxNumPages, page).None? <==>
        && (forall p, q :: p in pages && q in pages && !pages[p].IsDirty() && !pages[q].IsDirty() ==> p == q)
        && !(page.id in pages && pages[page.id].IsDirty())
  {
    var left := Evicted(pages, order).value;
    var k := LastClean(order, pages).value;
    var v := order[k];
    assert left.0 == pages - {v};
    assert !pages[v].IsDirty();
    assert |left.0| == |pages| - 1 >= maxNumPages;
    if forall p, q :: p in pages && q in pages && !pages[p].IsDirty() && !pages[q].IsDirty() ==> p == q {
      assert forall p :: p in left.0 ==> left.0[p].IsDirty();
    } else {
      var p, q :| p in pages && q in pages && !pages[p].IsDirty() && !pages[q].IsDirty() && p != q;
      var w := if p == v then q else p;
      assert w in left.0 && !left.0[w].IsDirty();
    }
  }

  /** updateBufferPool's loop: absorb the pages of `list` in order, stopping at
      the first failed eviction. */
  function AbsorbAll(pages: Pages, order: seq<PageId>, maxNumPages: int, list: seq<Page>, tid: TransactionId)
    : (r: Option<(Pages, seq<PageId>)>)
    requires Tracks(order, pages.Keys)
    ensures r.Some? ==> Tracks(r.value.1, r.value.0.Keys)
    decreases |list|
  {
    if list == [] then Some((pages, order))
    else
      match AbsorbAll(pages, order, maxNumPages, list[..|list| - 1], tid)
      case None => None
      case Some(state) => Absorb(state.0, state.1, maxNumPages, list[|list| - 1], tid)
  }

  class BufferPool {
    const maxNumPages: int
    /** the cache: page id -> page */
    var pages: Pages
    /** the recency list, most recently used first */
    var order: seq<PageId>
    /** the storage files */
    var disk: Disk
    const lockManager: LockManager

    ghost predicate Valid()
      reads this, lockManager
    {
      Consistent(pages, order, disk, Capacity(maxNumPages)) && lockManager.Valid()
    }

    constructor (numPages: int, storage: Disk)
      ensures Valid() && fresh(lockManager)
      ensures maxNumPages == numPages && disk == storage
      ensures pages == map[] && order == [] && lockManager.lockMap == map[]
    {
      maxNumPages := numPages;
      pages := map[];
      order := [];
      disk := storage;
      lockManager := new LockManager();
    }

    /** getPage: one lock attempt (a refusal aborts the transaction and changes
        no cache state), then the cache step Fetched describes. */
    method GetPage(tid: TransactionId, pid: PageId, perm: Permissions) returns (r: Result<Page>)
      requires Valid()
      modifies this, lockManager
      ensures Valid() && disk == old(disk)
      ensures lockManager.lockMap == Locks.Acquire(old(lockManager.lockMap), pid, tid, LockFor(perm)).1
      ensures !Locks.Acquire(old(lockManager.lockMap), pid, tid, LockFor(perm)).0 ==>
        r == Err(TransactionAborted) && pages == old(pages) && order == old(order)
      ensures Locks.Acquire(old(lockManager.lockMap), pid, tid, LockFor(perm)).0 ==>
        match Fetched(old(pages), old(order), disk, maxNumPages, pid)
        case Ok(state) => r == Ok(state.0[pid]) && (pages, order) == state
        case Err(e) => r == Err(e) && pages == old(pages) && order == old(order)
    {
      var lockType := LockFor(perm);
      var isAcquired := lockManager.AcquiredLock(pid, tid, lockType);
      if !isAcquired {
        return Err(TransactionAborted);
      }
      r := Fetch(pid);
    }

    /** getPage once its lock is granted. */
    method Fetch(pid: PageId) returns (r: Result<Page>)
      requires Valid()
      modifies this
      ensures Valid() && disk == old(disk) && lockManager.lockMap == old(lockManager.lockMap)
      ensures match Fetched(old(pages), old(order), disk, maxNumPages, pid)
        case Ok(state) => r == Ok(state.0[pid]) && (pages, order) == state
        case Err(e) => r == Err(e) && pages == old(pages) && order == old(order)
    {
      FetchedConsistent(pages, order, disk, maxNumPages, pid);
      if pid !in pages {
        if pid !in disk {
          return Err(PageNotInFile);
        }
        var page := ReadPage(disk, pid);
        if |pages| >= maxNumPages {
          var evicted := EvictPage();
          if evicted.Fail? {
            return Err(evicted.error);
          }
        }
        pages := pages[pid := page];
        order := AddToHead(order, pid);
        MoveHeadKeeps(order, pid);
      }
      order := MoveToHead(order, pid);
      return Ok(pages[pid]);
    }

    /** releasePage: drop `tid`'s lock on `pid`. */
    method ReleasePage(tid: TransactionId, pid: PageId)
      requires Valid()
      modifies lockManager
      ensures Valid()
      ensures lockManager.lockMap == Locks.Release(old(lockManager.lockMap), tid, pid).1
    {
      var _ := lockManager.ReleaseLock(tid, pid);
    }

    /** unsafeReleasePage: the same release, under another name. */
    method UnsafeReleasePage(tid: TransactionId, pid: PageId)
      requires Valid()
      modifies lockManager
      ensures Valid()
      ensures lockManager.lockMap == Locks.Release(old(lockManager.lockMap), tid, pid).1
    {
      var _ := lockManager.ReleaseLock(tid, pid);
    }

    /** holdsLock as written: it answers false without looking at the lock table. */
    function HoldsLock(tid: TransactionId, p: PageId): (held: bool)
      ensures !held
    {
      false
    }

    /** holdsLock as documented: true exactly when the lock table records a lock
        of `tid` on `p`. */
    method HoldsLockIntended(tid: TransactionId, p: PageId) returns (held: bool)
      ensures held <==> Locks.Holds(lockManager.lockMap, tid, p)
    {
      held := lockManager.IsHoldLock(tid, p);
    }

    /** flushPage: write a dirty page to storage and mark it clean; a clean page
        is left alone. */
    method FlushPage(pid: PageId)
      requires pid in pages
      modifies this
      ensures order == old(order)
      ensures old(pages)[pid].IsDirty() ==> disk == old(disk)[pid := old(pages)[pid].content]
      ensures old(pages)[pid].IsDirty() ==> pages == old(pages)[pid := old(pages)[pid].(dirtier := None)]
      ensures !old(pages)[pid].IsDirty() ==> pages == old(pages) && disk == old(disk)
    {
      var flushPage := pages[pid];
      if flushPage.IsDirty() {
        disk := disk[pid := flushPage.content];
        pages := pages[pid := flushPage.(dirtier := None)];
      }
    }

    /** flushPages (commit): write back exactly the pages `tid` dirtied. */
    method FlushPages(tid: TransactionId)
      requires Valid()
      modifies this
      ensures Valid() && order == old(order)
      ensures (pages, disk) == Flush(old(pages), old(disk), DirtiedBy(old(pages), tid))
    {
      ghost var sel := DirtiedBy(pages, tid);
      var todo := pages.Keys;
      FlushLoopEnds(pages, disk, sel);
      while todo != {}
        invariant todo <= old(pages).Keys && order == old(order)
        invariant (pages, disk) == Flush(old(pages), old(disk), sel - todo)
        decreases todo
      {
        var pageId :| pageId in todo;
        FlushStep(old(pages), old(disk), sel, todo, pageId);
        var page := pages[pageId];
        if page.dirtier == Some(tid) {
          FlushOne(pages, disk, pageId);
          FlushPage(pageId);
        }
        todo := todo - {pageId};
      }
      FlushConsistent(old(pages), order, old(disk), Capacity(maxNumPages), sel);
    }

    /** flushAllPages: write back every dirty page. */
    method FlushAllPages()
      requires Valid()
      modifies this
      ensures Valid() && order == old(order)
      ensures (pages, disk) == Flush(old(pages), old(disk), DirtyIds(old(pages)))
    {
      ghost var sel := DirtyIds(pages);
      var todo := pages.Keys;
      FlushLoopEnds(pages, disk, sel);
      while todo != {}
        invariant todo <= old(pages).Keys && order == old(order)
        invariant (pages, disk) == Flush(old(pages), old(disk), sel - todo)
        decreases todo
      {
        var pageId :| pageId in todo;
        FlushStep(old(pages), old(disk), sel, todo, pageId);
        if pages[pageId].IsDirty() {
          FlushOne(pages, disk, pageId);
        }
        FlushPage(pageId);
        todo := todo - {pageId};
      }
      FlushConsistent(old(pages), order, old(disk), Capacity(maxNumPages), sel);
    }

    /** discardPage: drop an entry without writing it; an absent id is a no-op. */
    method DiscardPage(pid: PageId)
      requires Valid()
      modifies this
      ensures Valid() && disk == old(disk)
      ensures pages == old(pages) - {pid}
      ensures order == Without(old(order), {pid})
    {
      if pid in pages {
        DropConsistent(pages, order, disk, Capacity(maxNumPages), pid);
        order := Remove(order, pid);
        pages := pages - {pid};
      } else {
        WithoutDisjoint(order, {pid});
      }
    }

    /** restorePages (abort): reload every page `tid` dirtied from storage and
        move it to the head of the recency list. */
    method RestorePages(tid: TransactionId)
      requires Valid()
      modifies this
      ensures Valid() && disk == old(disk)
      ensures RestoredAfterAbort(old(pages), old(order), disk, pages, order, tid)
    {
      var cache, recency := Restored(pages, order, disk, Capacity(maxNumPages), tid);
      pages, order := cache, recency;
    }

    /** transactionComplete(tid, commit): commit flushes, abort restores; then
        every lock of `tid` is released. */
    method TransactionComplete(tid: TransactionId, commit: bool)
      requires Valid()
      modifies this, lockManager
      ensures Valid() && lockManager.lockMap == Locks.ReleaseAll(old(lockManager.lockMap), tid)
      ensures commit ==> order == old(order)
      ensures commit ==> (pages, disk) == Flush(old(pages), old(disk), DirtiedBy(old(pages), tid))
      ensures !commit ==> disk == old(disk)
      ensures !commit ==> RestoredAfterAbort(old(pages), old(order), disk, pages, order, tid)
    {
      if commit {
        FlushPages(tid);
      } else {
        RestorePages(tid);
      }
      lockManager.CompleteTranslation(tid);
    }

    /** transactionComplete(tid): commit. */
    method TransactionCommit(tid: TransactionId)
      requires Valid()
      modifies this, lockManager
      ensures Valid() && lockManager.lockMap == Locks.ReleaseAll(old(lockManager.lockMap), tid)
      ensures order == old(order)
      ensures (pages, disk) == Flush(old(pages), old(disk), DirtiedBy(old(pages), tid))
    {
      TransactionComplete(tid, true);
    }

    /** One pass of updateBufferPool's loop: the step Absorb describes. A failed
        eviction leaves the cache as it was. */
    method AbsorbPage(page: Page, tid: TransactionId) returns (r: Outcome)
      requires Valid() && page.id in disk
      modifies this
      ensures Valid() && disk == old(disk)
      ensures r.Fail? ==> r == Fail(AllPagesDirty) && pages == old(pages) && order == old(order)
      ensures r.Fail? <==> Absorb(old(pages), old(order), maxNumPages, page, tid).None?
      ensures r.Pass? ==> (pages, order) == Absorb(old(pages), old(order), maxNumPages, page, tid).value
    {
      AbsorbConsistent(pages, order, disk, maxNumPages, page, tid);
      var dirtied := page.(dirtier := Some(tid));
      if |pages| > maxNumPages {
        r := EvictPage();
        if r.Fail? {
          return;
        }
      }
      if dirtied.id in pages {
        pages := pages[dirtied.id := dirtied];
      } else {
        if |pages| >= maxNumPages {
          r := EvictPage();
          if r.Fail? {
            return;
          }
        }
        pages := pages[dirtied.id := dirtied];
        order := AddToHead(order, dirtied.id);
      }
      return Pass;
    }

    /** updateBufferPool: absorb the pages an insert or delete dirtied, in list
        order; an eviction that finds every page dirty stops the loop. */
    method UpdateBufferPool(pageList: seq<Page>, tid: TransactionId) returns (r: Outcome)
      requires Valid() && forall i :: 0 <= i < |pageList| ==> pageList[i].id in disk
      modifies this
      ensures Valid() && disk == old(disk)
      ensures r.Fail? ==> r == Fail(AllPagesDirty)
      ensures r.Fail? <==> AbsorbAll(old(pages), old(order), maxNumPages, pageList, tid).None?
      ensures r.Pass? ==> (pages, order) == AbsorbAll(old(pages), old(order), maxNumPages, pageList, tid).value
    {
      var i := 0;
      while i < |pageList|
        invariant 0 <= i <= |pageList|
        invariant Valid() && disk == old(disk)
        invariant AbsorbAll(old(pages), old(order), maxNumPages, pageList[..i], tid) == Some((pages, order))
      {
        AbsorbAllNext(old(pages), old(order), maxNumPages, pageList, tid, i);
        r := AbsorbPage(pageList[i], tid);
        if r.Fail? {
          AbsorbAllStops(old(pages), old(order), maxNumPages, pageList, tid, i + 1);
          return;
        }
        i := i + 1;
      }
      assert pageList[..i] == pageList;
      r := Pass;
    }

    /** evictPage (NO-STEAL): scan from the tail, moving each dirty page to the
        head, and remove the first clean page; fail when none of the examined
        pages is clean. */
    method EvictPage() returns (r: Outcome)
      requires Valid() && |pages| >= maxNumPages
      modifies this
      ensures Valid() && disk == old(disk)
      ensures match Evicted(old(pages), old(order))
        case None => r == Fail(AllPagesDirty) && pages == old(pages) && order == old(order)
        case Some(state) => r == Pass && (pages, order) == state
    {
      TracksCard(order, pages.Keys);
      var victim, recency := NoStealScan(pages, order, maxNumPages);
      if victim.None? {
        order := recency;
        return Fail(AllPagesDirty);
      }
      var k := victim.value;
      var node := order[k];
      ghost var left := pages - {node};
      EvictConsistent(pages, order, disk, Capacity(maxNumPages), k + 1);
      assert !pages[node].IsDirty();
      order := recency;
      FlushPage(node);
      pages := pages - {node};
      assert pages == left;
      return Pass;
    }
  }

  /** evictPage's loop: up to maxNumPages times, unlink the tail node and link it
      again at the head while it is dirty; stop at the first clean one. Reports
      the victim's position in the list as it was, and the list as it is left. */
  method NoStealScan(pages: Pages, order: seq<PageId>, maxNumPages: int)
    returns (victim: Option<nat>, recency: seq<PageId>)
    requires forall p :: p in order ==> p in pages
    requires Distinct(order) && |order| == Capacity(maxNumPages)
    ensures victim == LastClean(order, pages)
    ensures victim.None? ==> recency == order
    ensures victim.Some? ==> victim.value < |order| && recency == RotatedPast(order, victim.value)
  {
    var n := |order|;
    recency := order;
    var i := 0;
    RotatedWhole(order);
    while i < maxNumPages
      invariant 0 <= i <= n
      invariant recency == Rotated(order, n - i)
      invariant DirtyFrom(order, pages, n - i)
    {
      var clean, next := ScanStep(pages, order, recency, n - i);
      if clean {
        return Some(n - i - 1), next;
      }
      recency := next;
      i := i + 1;
    }
    NoCleanPage(order, pages);
    return None, recency;
  }

  /** One round of evictPage's loop on a list rotated at `m`: removeLast hands
      back the node before the cut; a dirty one is linked again at the head
      (moving the cut one place), a clean one is the victim and stays unlinked. */
  method ScanStep(pages: Pages, ghost order: seq<PageId>, recency: seq<PageId>, ghost m: nat)
    returns (clean: bool, next: seq<PageId>)
    requires forall p :: p in order ==> p in pages
    requires Distinct(order) && 0 < m <= |order| && recency == Rotated(order, m)
    requires DirtyFrom(order, pages, m)
    ensures clean ==> LastClean(order, pages) == Some(m - 1) && next == RotatedPast(order, m - 1)
    ensures !clean ==> DirtyFrom(order, pages, m - 1) && next == Rotated(order, m - 1)
  {
    RotateStep(order, m);
    var unlinked := RemoveLast(recency);
    var node, rest := unlinked.0, unlinked.1;
    if pages[node].IsDirty() {
      DirtyFromStep(order, pages, m);
      clean, next := false, AddToHead(rest, node);
      assert order[m - 1..] + order[..m - 1] == Rotated(order, m - 1);
    } else {
      VictimIsLastClean(order, pages, m - 1);
      clean, next := true, rest;
    }
  }

  /** restorePages' loop over the cached pages: each page `tid` dirtied is
      replaced by the stored image and moved to the head of the list. */
  method Restored(pages: Pages, order: seq<PageId>, disk: Disk, capacity: nat, tid: TransactionId)
    returns (cache: Pages, recency: seq<PageId>)
    requires Consistent(pages, order, disk, capacity)
    ensures Consistent(cache, recency, disk, capacity)
    ensures RestoredAfterAbort(pages, order, disk, cache, recency, tid)
  {
    ghost var front;
    cache, recency, front := RestoreLoop(pages, order, disk, tid);
    RestoreEnd(pages, order, disk, capacity, tid, front, cache, recency);
  }

  /** The loop itself: afterwards exactly the pages `tid` dirtied are reloaded,
      and they make up the list's prefix `front`, ahead of the others in their
      old order. */
  method RestoreLoop(pages: Pages, order: seq<PageId>, disk: Disk, tid: TransactionId)
    returns (cache: Pages, recency: seq<PageId>, ghost front: seq<PageId>)
    requires forall p :: p in pages ==> p in disk
    requires Tracks(order, pages.Keys)
    ensures cache == Reloaded(pages, disk, DirtiedBy(pages, tid))
    ensures Tracks(front, DirtiedBy(pages, tid)) && recency == front + Without(order, DirtiedBy(pages, tid))
  {
    ghost var sel := DirtiedBy(pages, tid);
    cache, recency := pages, order;
    var todo := cache.Keys;
    ghost var done: set<PageId> := {};
    front := [];
    assert cache == Reloaded(pages, disk, {});
    WithoutDisjoint(order, {});
    while todo != {}
      invariant todo <= pages.Keys
      invariant done == sel - todo
      invariant cache == Reloaded(pages, disk, done)
      invariant Tracks(front, done) && recency == front + Without(order, done)
      decreases todo
    {
      var pageId :| pageId in todo;
      cache, recency, done, front := RestoreVisit(pages, order, disk, tid, todo, done, front, cache, recency, pageId);
      todo := todo - {pageId};
    }
    assert done == sel;
  }

  /** The body of restorePages' loop for one cached page: a page `tid`
      dirtied is replaced by the stored image and moved to the head, any other
      page is left alone. `done` and `front` are the pages restored so far and
      the list prefix they form. */
  method RestoreVisit(pages: Pages, order: seq<PageId>, disk: Disk, tid: TransactionId,
                      ghost todo: set<PageId>, ghost done: set<PageId>, ghost front: seq<PageId>,
                      cache: Pages, recency: seq<PageId>, pageId: PageId)
    returns (cache': Pages, recency': seq<PageId>, ghost done': set<PageId>, ghost front': seq<PageId>)
    requires forall p :: p in pages ==> p in disk
    requires Tracks(order, pages.Keys) && todo <= pages.Keys && pageId in todo
    requires done == DirtiedBy(pages, tid) - todo
    requires cache == Reloaded(pages, disk, done)
    requires Tracks(front, done) && recency == front + Without(order, done)
    ensures done' == DirtiedBy(pages, tid) - (todo - {pageId})
    ensures cache' == Reloaded(pages, disk, done')
    ensures Tracks(front', done') && recency' == front' + Without(order, done')
  {
    VisitOne(DirtiedBy(pages, tid), todo, done, pageId);
    var page := cache[pageId];
    if page.dirtier == Some(tid) {
      var pageFromDisk := ReadPage(disk, pageId);
      ReloadOneMore(pages, disk, done, pageId);
      RestoreStep(order, front, done, pageId);
      TracksAddToHead(front, done, pageId);
      cache' := cache[pageId := pageFromDisk];
      recency' := MoveToHead(recency, pageId);
      done', front' := done + {pageId}, [pageId] + front;
    } else {
      cache', recency', done', front' := cache, recency, done, front;
    }
  }

  /** One restoration step keeps the recency list split as (restored ids in front)
      + (the rest in their old order). */
  lemma RestoreStep(order0: seq<PageId>, front: seq<PageId>, done: set<PageId>, p: PageId)
    requires Distinct(order0) && Tracks(front, done)
    requires p in order0 && p !in done
    ensures p in front + Without(order0, done)
    ensures Distinct(front + Without(order0, done))
    ensures MoveToHead(front + Without(order0, done), p) == [p] + front + Without(order0, done + {p})
  {
    var w := Without(order0, done);
    assert p in w;
    WithoutDistinct(order0, done);
    DistinctAppend(front, w);
    calc {
      MoveToHead(front + w, p);
      [p] + Without(front + w, {p});
      { WithoutAppend(front, w, {p}); }
      [p] + (Without(front, {p}) + Without(w, {p}));
      { WithoutDisjoint(front, {p}); WithoutTwice(order0, done, {p}); }
      [p] + (front + Without(order0, done + {p}));
      { AppendAssoc([p], front, Without(order0, done + {p})); }
      [p] + front + Without(order0, done + {p});
    }
  }

  /** When the loop has visited every page, the cache and the list are those
      RestoredAfterAbort describes, and they are consistent. */
  lemma RestoreEnd(pages: Pages, order: seq<PageId>, disk: Disk, capacity: nat,
                   tid: TransactionId, front: seq<PageId>, cache: Pages, recency: seq<PageId>)
    requires Consistent(pages, order, disk, capacity)
    requires Tracks(front, DirtiedBy(pages, tid))
    requires cache == Reloaded(pages, disk, DirtiedBy(pages, tid))
    requires recency == front + Without(order, DirtiedBy(pages, tid))
    ensures Consistent(cache, recency, disk, capacity)
    ensures RestoredAfterAbort(pages, order, disk, cache, recency, tid)
  {
    var done := DirtiedBy(pages, tid);
    SplitAtFront(front, done, Without(order, done));
    RestoredConsistent(pages, order, disk, capacity, front, done);
  }

  /** Reloading pages and moving them to the front keeps the invariant. */
  lemma RestoredConsistent(pages: Pages, order: seq<PageId>, disk: Disk, capacity: nat,
                           front: seq<PageId>, done: set<PageId>)
    requires Consistent(pages, order, disk, capacity)
    requires Tracks(front, done) && done <= pages.Keys
    ensures Consistent(Reloaded(pages, disk, done), front + Without(order, done), disk, capacity)
  {
    WithoutDistinct(order, done);
    DistinctAppend(front, Without(order, done));
    var r := Reloaded(pages, disk, done);
    assert r.Keys == pages.Keys;
    assert |r| == |pages|;
  }

  /** The restored ids form the front of the list. */
  lemma SplitAtFront(front: seq<PageId>, done: set<PageId>, rest: seq<PageId>)
    requires Tracks(front, done)
    ensures |done| <= |front + rest|
    ensures (front + rest)[..|done|] == front && (front + rest)[|done|..] == rest
    ensures forall p :: p in (front + rest)[..|done|] <==> p in done
  {
    TracksCard(front, done);
  }

  /** Visiting one more id of `todo` in a loop that collects the ids of `sel`. */
  lemma VisitOne(sel: set<PageId>, todo: set<PageId>, done: set<PageId>, p: PageId)
    requires done == sel - todo && p in todo
    ensures p !in done
    ensures p in sel ==> done + {p} == sel - (todo - {p})
    ensures p !in sel ==> done == sel - (todo - {p})
    ensures todo - {p} < todo
  {
  }

  /** Fetching a page that was just fetched is a hit that changes nothing: the
      page is already cached and already at the head. */
  lemma FetchedAgain(pages: Pages, order: seq<PageId>, disk: Disk, maxNumPages: int, pid: PageId)
    requires Tracks(order, pages.Keys)
    requires Fetched(pages, order, disk, maxNumPages, pid).Ok?
    ensures var state := Fetched(pages, order, disk, maxNumPages, pid).value;
      Fetched(state.0, state.1, disk, maxNumPages, pid) == Ok(state)
  {
    var state := Fetched(pages, order, disk, maxNumPages, pid).value;
    MoveHeadKeeps(state.1, pid);
  }

  /** holdsLock as written misses a lock the lock table records: a first Share
      request on a page is granted, yet holdsLock answers false. */
  lemma HoldsLockMissesGrantedLock(pool: BufferPool, tid: TransactionId, pid: PageId)
    ensures Locks.Acquire(map[], pid, tid, Share).0
    ensures Locks.Holds(Locks.Acquire(map[], pid, tid, Share).1, tid, pid)
    ensures !pool.HoldsLock(tid, pid)
  {
  }

  /** A granted getPage keeps the cache invariant. */
  lemma FetchedConsistent(pages: Pages, order: seq<PageId>, disk: Disk, maxNumPages: int, pid: PageId)
    requires Consistent(pages, order, disk, Capacity(maxNumPages))
    ensures Fetched(pages, order, disk, maxNumPages, pid).Ok? ==>
      Consistent(Fetched(pages, order, disk, maxNumPages, pid).value.0,
                 Fetched(pages, order, disk, maxNumPages, pid).value.1, disk, Capacity(maxNumPages))
  {
    if pid !in pages && pid in disk {
      var room := if |pages| >= maxNumPages then Evicted(pages, order) else Some((pages, order));
      if room.Some? {
        InsertConsistent(room.value.0, room.value.1, disk, Capacity(maxNumPages), ReadPage(disk, pid));
      }
    }
  }

  /** A pass of updateBufferPool keeps the invariant, and an over-full cache
      (possible only when maxNumPages is negative) fails its first eviction. */
  lemma AbsorbConsistent(pages: Pages, order: seq<PageId>, disk: Disk, maxNumPages: int,
                         page: Page, tid: TransactionId)
    requires Consistent(pages, order, disk, Capacity(maxNumPages)) && page.id in disk
    ensures |pages| > maxNumPages ==> Evicted(pages, order).None?
    ensures Absorb(pages, order, maxNumPages, page, tid).Some? ==>
      Consistent(Absorb(pages, order, maxNumPages, page, tid).value.0,
                 Absorb(pages, order, maxNumPages, page, tid).value.1, disk, Capacity(maxNumPages))
  {
    var dirtied := page.(dirtier := Some(tid));
    if |pages| <= maxNumPages {
      if dirtied.id in pages {
        assert pages[dirtied.id := dirtied].Keys == pages.Keys;
      } else {
        var room := if |pages| >= maxNumPages then Evicted(pages, order) else Some((pages, order));
        if room.Some? {
          InsertConsistent(room.value.0, room.value.1, disk, Capacity(maxNumPages), dirtied);
        }
      }
    }
  }

  /** One more pass of the loop extends the absorbed prefix by one page. */
  lemma AbsorbAllNext(pages: Pages, order: seq<PageId>, maxNumPages: int,
                      list: seq<Page>, tid: TransactionId, i: nat)
    requires Tracks(order, pages.Keys) && i < |list|
    requires AbsorbAll(pages, order, maxNumPages, list[..i], tid).Some?
    ensures var state := AbsorbAll(pages, order, maxNumPages, list[..i], tid).value;
      AbsorbAll(pages, order, maxNumPages, list[..i + 1], tid) == Absorb(state.0, state.1, maxNumPages, list[i], tid)
  {
    assert list[..i + 1][..i] == list[..i];
  }

  /** Once a prefix of the list fails, the whole list fails. */
  lemma {:induction false} AbsorbAllStops(pages: Pages, order: seq<PageId>, maxNumPages: int,
                                          list: seq<Page>, tid: TransactionId, n: nat)
    requires Tracks(order, pages.Keys) && 0 < n <= |list|
    requires AbsorbAll(pages, order, maxNumPages, list[..n], tid).None?
    ensures AbsorbAll(pages, order, maxNumPages, list, tid).None?
    decreases |list|
  {
    if n < |list| {
      var init := list[..|list| - 1];
      assert init[..n] == list[..n];
      AbsorbAllStops(pages, order, maxNumPages, init, tid, n);
    } else {
      assert list[..n] == list;
    }
  }

  /** updateBufferPool keeps the invariant. */
  lemma {:induction false} AbsorbAllConsistent(pages: Pages, order: seq<PageId>, disk: Disk, maxNumPages: int,
                                               list: seq<Page>, tid: TransactionId)
    requires Consistent(pages, order, disk, Capacity(maxNumPages))
    requires forall i :: 0 <= i < |list| ==> list[i].id in disk
    ensures AbsorbAll(pages, order, maxNumPages, list, tid).Some? ==>
      Consistent(AbsorbAll(pages, order, maxNumPages, list, tid).value.0,
                 AbsorbAll(pages, order, maxNumPages, list, tid).value.1, disk, Capacity(maxNumPages))
    decreases |list|
  {
    if list != [] {
      var init := list[..|list| - 1];
      AbsorbAllConsistent(pages, order, disk, maxNumPages, init, tid);
      var prefix := AbsorbAll(pages, order, maxNumPages, init, tid);
      if prefix.Some? {
        AbsorbConsistent(prefix.value.0, prefix.value.1, disk, maxNumPages, list[|list| - 1], tid);
      }
    }
  }

  /** What a completed updateBufferPool leaves in the cache: every listed page,
      dirtied by `tid`, in its last listed version (NO-STEAL never evicts them
      again); every other cached page as it was; and every page that was dirty
      before still cached. */
  lemma {:induction false} AbsorbAllEffect(pages: Pages, order: seq<PageId>, maxNumPages: int,
                                           list: seq<Page>, tid: TransactionId)
    requires Tracks(order, pages.Keys)
    ensures AbsorbAll(pages, order, maxNumPages, list, tid).Some? ==>
      var cache := AbsorbAll(pages, order, maxNumPages, list, tid).value.0;
      && (forall p :: p in Absorbed(list, tid) ==> p in cache && cache[p] == Absorbed(list, tid)[p])
      && (forall p :: p in cache && p !in Absorbed(list, tid) ==> p in pages && cache[p] == pages[p])
      && (forall p :: p in pages && pages[p].IsDirty() ==> p in cache)
    decreases |list|
  {
    if list != [] {
      var init := list[..|list| - 1];
      AbsorbAllEffect(pages, order, maxNumPages, init, tid);
    }
  }

  lemma AppendAssoc(a: seq<PageId>, b: seq<PageId>, c: seq<PageId>)
    ensures a + (b + c) == a + b + c
  {
  }
}
