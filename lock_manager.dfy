/** The lab5 lock manager: the table of page locks that the buffer pool consults
    and updates in place. Each method follows the branches of the source and is
    proved to agree with the rule table in module Locks. */
module LockManagement {
  import opened Types
  import Locks

  class LockManager {
    /** page -> (transaction -> mode); a page nobody holds has no entry */
    var lockMap: Locks.Table

    ghost predicate Valid()
      reads this
    {
      Locks.WellFormed(lockMap)
    }

    constructor ()
      ensures Valid() && lockMap == map[]
    {
      lockMap := map[];
    }

    /** One non-blocking attempt to lock `pid` for `tid` in mode `requiredType`. */
    method AcquiredLock(pid: PageId, tid: TransactionId, requiredType: LockType) returns (granted: bool)
      requires Valid()
      modifies this
      ensures (granted, lockMap) == Locks.Acquire(old(lockMap), pid, tid, requiredType)
      ensures Valid()
    {
      if pid !in lockMap {
        lockMap := lockMap[pid := map[tid := requiredType]];
        return true;
      }
      var pageLocks := lockMap[pid];
      if tid !in pageLocks {
        if |pageLocks| > 1 {
          if requiredType == Share {
            SeveralHoldersAreShared(pageLocks);
            lockMap := lockMap[pid := pageLocks[tid := Share]];
            return true;
          } else {
            return false;
          }
        }
        if |pageLocks| == 1 {
          // the only lock on the page
          var holder :| holder in pageLocks;
          OnlyHolder(pageLocks, holder);
          var curLock := pageLocks[holder];
          if curLock == Share {
            if requiredType == Share {
              lockMap := lockMap[pid := pageLocks[tid := Share]];
              return true;
            } else {
              return false;
            }
          } else {
            return false;
          }
        }
      } else {
        var pageLock := pageLocks[tid];
        if pageLock == Share {
          if requiredType == Share {
            return true;
          } else {
            if |pageLocks| == 1 {
              OnlyHolder(pageLocks, tid);
              lockMap := lockMap[pid := pageLocks[tid := Exclusive]];
              return true;
            } else {
              OnlyHolderIfSingle(pageLocks, tid);
              return false;
            }
          }
        }
        return pageLock == Exclusive;
      }
      return false;
    }

    /** Release `tid`'s lock on `pid`; reports whether it held one. */
    method ReleaseLock(tid: TransactionId, pid: PageId) returns (released: bool)
      requires Valid()
      modifies this
      ensures (released, lockMap) == Locks.Release(old(lockMap), tid, pid)
      ensures Valid()
    {
      var held := IsHoldLock(tid, pid);
      if held {
        var locks := lockMap[pid] - {tid};
        if |locks| == 0 {
          lockMap := lockMap - {pid};
        } else {
          lockMap := lockMap[pid := locks];
        }
        return true;
      }
      return false;
    }

    /** Whether `tid` holds a lock of either mode on `pid`. */
    method IsHoldLock(tid: TransactionId, pid: PageId) returns (held: bool)
      ensures held <==> pid in lockMap && tid in lockMap[pid]
    {
      if pid !in lockMap {
        return false;
      }
      var locks := lockMap[pid];
      if tid !in locks {
        return false;
      }
      return true;
    }

    /** Release every lock `tid` holds, page by page over the locked pages. */
    method CompleteTranslation(tid: TransactionId)
      requires Valid()
      modifies this
      ensures Valid()
      ensures lockMap == Locks.ReleaseAll(old(lockMap), tid)
    {
      var todo := lockMap.Keys;
      ghost var start := lockMap;
      ReleasedNothing(start, tid);
      while todo != {}
        invariant todo <= start.Keys
        invariant lockMap == ReleasedExcept(start, tid, todo)
        invariant Valid()
        decreases todo
      {
        var pageId :| pageId in todo;
        ReleaseOneMore(start, tid, todo, pageId);
        var _ := ReleaseLock(tid, pageId);
        todo := todo - {pageId};
      }
      ReleasedEverything(start, tid);
    }
  }

  /** The table after releasing `tid`'s locks on every page except those in `todo`. */
  ghost function ReleasedExcept(t: Locks.Table, tid: TransactionId, todo: set<PageId>): Locks.Table {
    map p | p in t && (p in todo || t[p].Keys != {tid}) :: if p in todo then t[p] else t[p] - {tid}
  }

  lemma ReleasedNothing(t: Locks.Table, tid: TransactionId)
    ensures ReleasedExcept(t, tid, t.Keys) == t
  {
  }

  lemma ReleasedEverything(t: Locks.Table, tid: TransactionId)
    ensures ReleasedExcept(t, tid, {}) == Locks.ReleaseAll(t, tid)
  {
  }

  /** Releasing the lock on one more page of `todo` shrinks `todo` by that page. */
  lemma ReleaseOneMore(t: Locks.Table, tid: TransactionId, todo: set<PageId>, p: PageId)
    requires p in todo && todo <= t.Keys
    ensures Locks.Release(ReleasedExcept(t, tid, todo), tid, p).1 == ReleasedExcept(t, tid, todo - {p})
  {
    var before := ReleasedExcept(t, tid, todo);
    var after := ReleasedExcept(t, tid, todo - {p});
    var r := Locks.Release(before, tid, p).1;
    assert before[p] == t[p];
    forall q | q != p
      ensures q in r <==> q in after
      ensures q in r ==> r[q] == after[q]
    {
    }
    if tid in t[p] && t[p].Keys == {tid} {
      assert p !in r && p !in after;
    } else if tid in t[p] {
      assert t[p] - {tid} != map[] by {
        var u :| u in t[p] && u != tid;
        assert u in t[p] - {tid};
      }
      assert p in r && p in after && r[p] == after[p];
    } else {
      assert t[p] - {tid} == t[p];
    }
  }

  /** Under the invariant, a page with two or more holders is held in Share by all. */
  lemma SeveralHoldersAreShared(rec: Locks.Record)
    requires Locks.Compatible(rec) && |rec| > 1
    ensures Locks.AllShared(rec)
  {
    forall u | u in rec ensures rec[u] == Share {
      if rec[u] == Exclusive {
        assert false;
      }
    }
  }

  lemma OnlyHolder(rec: Locks.Record, u: TransactionId)
    requires |rec| == 1 && u in rec
    ensures rec.Keys == {u}
  {
    forall v | v in rec ensures v == u {
      if v != u {
        assert {u, v} <= rec.Keys;
        assert |{u, v}| == 2;
        SubsetCard({u, v}, rec.Keys);
      }
    }
  }

  lemma OnlyHolderIfSingle(rec: Locks.Record, u: TransactionId)
    requires u in rec && |rec| != 1
    ensures rec.Keys != {u}
  {
  }

  lemma SubsetCard(a: set<TransactionId>, b: set<TransactionId>)
    requires a <= b
    ensures |a| <= |b|
  {
    assert b == a + (b - a);
  }
}
