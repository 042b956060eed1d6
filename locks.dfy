/** The lock table of the lab5 buffer pool as a value: for every page, the
    transactions that hold a lock on it and the mode each holds. The rules below
    are the reference the imperative lock manager is proved against. */
module Locks {
  import opened Types

  /** The holders of one page and their modes. */
  type Record = map<TransactionId, LockType>

  /** The whole table: page -> holders. A page without holders has no entry. */
  type Table = map<PageId, Record>

  /** `tid` has an entry in `pid`'s record. */
  predicate Holds(t: Table, tid: TransactionId, pid: PageId) {
    pid in t && tid in t[pid]
  }

  predicate AllShared(rec: Record) {
    forall u :: u in rec ==> rec[u] == Share
  }

  /** The two-phase-locking invariant of one page: it has holders, and an
      Exclusive holder is the only holder (so the holders are all Share, or
      exactly one Exclusive). */
  predicate Compatible(rec: Record) {
    rec != map[] && forall u :: u in rec && rec[u] == Exclusive ==> rec.Keys == {u}
  }

  predicate WellFormed(t: Table) {
    forall p :: p in t ==> Compatible(t[p])
  }

  /** Every entry other than (`pid`, `tid`) is the same in `t` and `t'`. */
  ghost predicate SameElsewhere(t: Table, t': Table, pid: PageId, tid: TransactionId) {
    forall p, u :: p != pid || u != tid ==>
      (Holds(t', u, p) <==> Holds(t, u, p)) && (Holds(t, u, p) ==> t'[p][u] == t[p][u])
  }

  /** The rule table for one non-blocking lock request: the grant decision and
      the table afterwards.
      - a page with no record: granted, and `tid` becomes its only holder;
      - a holder of Exclusive: granted, nothing changes;
      - a holder of Share asking for Share: granted, nothing changes;
      - a holder of Share asking for Exclusive: granted (upgraded in place) only
        when it is the sole holder;
      - a non-holder: granted Share only when every holder holds Share, and
        never granted Exclusive. */
  function Acquire(t: Table, pid: PageId, tid: TransactionId, mode: LockType): (r: (bool, Table))
    ensures r.0 <==>
      || pid !in t
      || (tid in t[pid] && (t[pid][tid] == Exclusive || mode == Share || t[pid].Keys == {tid}))
      || (tid !in t[pid] && mode == Share && AllShared(t[pid]))
    ensures pid !in t ==> r.1 == t[pid := map[tid := mode]]
    ensures Holds(t, tid, pid) && t[pid][tid] == Share && mode == Exclusive && t[pid].Keys == {tid} ==>
      r.1 == t[pid := t[pid][tid := Exclusive]]
    ensures Holds(t, tid, pid) && (t[pid][tid] == Exclusive || mode == Share) ==> r.1 == t
    ensures pid in t && tid !in t[pid] && mode == Share && AllShared(t[pid]) ==>
      r.1 == t[pid := t[pid][tid := Share]]
    ensures r.0 ==> Holds(r.1, tid, pid) && (mode == Exclusive ==> r.1[pid][tid] == Exclusive)
    ensures !r.0 ==> r.1 == t
    ensures SameElsewhere(t, r.1, pid, tid)
    ensures WellFormed(t) ==> WellFormed(r.1)
  {
    if pid !in t then (true, t[pid := map[tid := mode]])
    else
      var rec := t[pid];
      if tid in rec then
        if rec[tid] == Exclusive || mode == Share then (true, t)
        else if rec.Keys == {tid} then (true, t[pid := rec[tid := Exclusive]])
        else (false, t)
      else if mode == Share && AllShared(rec) then (true, t[pid := rec[tid := Share]])
      else (false, t)
  }

  /** Releasing `tid`'s lock on `pid`: reports whether it was held, drops only
      that entry, and drops the page's record once nobody holds it. */
  function Release(t: Table, tid: TransactionId, pid: PageId): (r: (bool, Table))
    ensures r.0 == Holds(t, tid, pid)
    ensures !Holds(r.1, tid, pid)
    ensures SameElsewhere(t, r.1, pid, tid)
    ensures r.0 ==> (pid in r.1 <==> t[pid].Keys != {tid})
    ensures forall p :: p in r.1 && p != pid ==> p in t && r.1[p] == t[p]
    ensures WellFormed(t) ==> WellFormed(r.1)
  {
    if !Holds(t, tid, pid) then (false, t)
    else
      var rest := t[pid] - {tid};
      if rest == map[] then
        assert forall u :: u in t[pid] && u != tid ==> u in rest;
        (true, t - {pid})
      else (true, t[pid := rest])
  }

  /** Releasing every lock `tid` holds: the table commit and abort leave behind. */
  function ReleaseAll(t: Table, tid: TransactionId): (r: Table)
    ensures forall p :: !Holds(r, tid, p)
    ensures forall p, u :: u != tid ==>
      (Holds(r, u, p) <==> Holds(t, u, p)) && (Holds(t, u, p) ==> r[p][u] == t[p][u])
    ensures forall p :: p in r ==> p in t && (r[p] == t[p] <==> tid !in t[p])
    ensures WellFormed(t) ==> WellFormed(r)
  {
    var r := map p | p in t && t[p].Keys != {tid} :: t[p] - {tid};
    ReleasedHolders(t, tid, r);
    ReleasedRecords(t, tid, r);
    r
  }

  /** ReleaseAll's table: `tid` holds nothing, every other holder keeps its mode. */
  lemma ReleasedHolders(t: Table, tid: TransactionId, r: Table)
    requires r == map p | p in t && t[p].Keys != {tid} :: t[p] - {tid}
    ensures forall p :: !Holds(r, tid, p)
    ensures forall p, u :: u != tid ==>
      (Holds(r, u, p) <==> Holds(t, u, p)) && (Holds(t, u, p) ==> r[p][u] == t[p][u])
  {
    forall p, u | u != tid
      ensures (Holds(r, u, p) <==> Holds(t, u, p)) && (Holds(t, u, p) ==> r[p][u] == t[p][u])
    {
      if p in t && p !in r {
        assert t[p].Keys == {tid};
      }
    }
  }

  /** ReleaseAll's table: only the records naming `tid` change, and the
      invariant survives. */
  lemma ReleasedRecords(t: Table, tid: TransactionId, r: Table)
    requires r == map p | p in t && t[p].Keys != {tid} :: t[p] - {tid}
    ensures forall p :: p in r ==> p in t && (r[p] == t[p] <==> tid !in t[p])
    ensures WellFormed(t) ==> WellFormed(r)
  {
    forall p | p in r
      ensures r[p] == t[p] <==> tid !in t[p]
    {
      if tid in t[p] {
        assert tid !in r[p];
      }
    }
    if WellFormed(t) {
      forall p | p in r
        ensures Compatible(r[p])
      {
        var w :| w in t[p];
        if w == tid {
          assert t[p].Keys - {tid} != {};
          var v :| v in t[p].Keys - {tid};
          assert v in r[p];
        } else {
          assert w in r[p];
        }
      }
    }
  }
}
