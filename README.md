# SimpleDB buffer pools and table statistics in Dafny

This project models three classes of a SimpleDB course database and proves
properties of the models:

- **The lab5 `BufferPool`.** It is a page cache with least-recently-used
  replacement. Pages sit in a hash map plus a doubly linked recency list. The
  pool takes page-level two-phase locks through an inner `LockManager`. It runs
  a NO-STEAL policy: eviction never writes out a dirty page. Commit flushes the
  transaction's dirty pages. Abort reloads them from storage.
- **The lab3 `BufferPool`.** It is the same cache without locks or
  transactions, and it runs a STEAL policy: eviction drops the tail of the
  recency list, writing it back first when it is dirty.
- **The lab4 `TableStats`.** One scan finds each integer column's minimum and
  maximum and counts the rows. Then one histogram is built per column and fed
  every value. It also gives a scan-cost estimate and a name-to-statistics
  registry.

How the model is laid out:

- `types.dfy`: page ids, transaction ids, pages with their dirtying transaction,
  errors, and Java's 32-bit `int` with wrap-around (`Wrap32`).
- `recency.dfy`: the linked recency list as a sequence, with the head of the
  list at index 0. `addToHead`, `remove`, `moveToHead` and `removeLast` are
  proved against a reference filter, `Without`.
- `locks.dfy`: the lock table as a value, `page -> (transaction -> mode)`. Its
  grant, release and release-all rules are stated semantically. A well-formed
  table has, for each page, either only Share holders or one Exclusive holder,
  and every rule preserves that.
- `lock_manager.dfy`: the `LockManager` class. Its methods follow the source's
  branches over a `lockMap` field and are proved equal to the rules in
  `locks.dfy`.
- `page_cache.dfy`: the pieces both pools share:
  - the cache invariant `Consistent`: the list holds each cached id once, the
    cache respects its capacity, and a clean cached page holds the stored
    image;
  - the NO-STEAL victim;
  - flushing, as a reference `Flush` over a set of ids;
  - reloading;
  - the last version of each page in a list (`Absorbed`).
- `buffer_pool_lab5.dfy` and `buffer_pool_lab3.dfy`:
  - Each pool is a class with fields `pages` (the hash map), `order` (the
    list) and `disk` (the storage the pool reads from and writes to). The lab5
    pool also has a `lockManager`.
  - Each method is proved equal to a value-level function: `Fetched` for
    getPage, `Evicted`/`Stolen` for evictPage, `Absorb`/`AbsorbAll` for
    updateBufferPool, and `Flush` for the flush operations.
  - Lemmas state what those functions preserve: the cache invariant; dirty
    pages never being evicted (lab5); and what a reader of each page sees
    (lab3).
- `table_stats.dfy`:
  - The two scans are loops over the table's rows.
  - The histograms are multisets of the values they were given.
  - The scan cost is a 32-bit product.
  - The registry is a class with a `statsMap` field.

## Model

| member | source | states |
|---|---|---|
| Recency.AddToHead | acmdb-lab5/src/java/simpledb/BufferPool.java:54-59 | linking an id missing from the list puts it first, adds no other id, and leaves the rest of the list in its order |
| Recency.Remove | acmdb-lab5/src/java/simpledb/BufferPool.java:61-64 | unlinking a node from a list without repeats leaves exactly the other ids in their order |
| Recency.MoveToHead | acmdb-lab5/src/java/simpledb/BufferPool.java:66-69 | the moved id comes first, followed by every other id in its previous order; the list keeps the same ids |
| Recency.RemoveLast | acmdb-lab5/src/java/simpledb/BufferPool.java:71-75 | returns the tail node and the list without it |
| Recency.MoveHeadKeeps | acmdb-lab5/src/java/simpledb/BufferPool.java:66-69 | moving the head node to the head changes nothing |
| Recency.WithoutTwice | acmdb-lab5/src/java/simpledb/BufferPool.java:61-64 | unlinking one set of nodes and then another equals unlinking their union |
| Recency.TracksCard | acmdb-lab5/src/java/simpledb/BufferPool.java:31-52 | a list that holds every cached id exactly once is as long as the cache is large |
| Locks.Acquire | acmdb-lab5/src/java/simpledb/BufferPool.java:101-173 | a lock is granted exactly when the page has no record, the requester holds Exclusive, asks for Share while holding, is the sole holder asking to upgrade, or asks for Share while every holder holds Share. The new table is given per case: a fresh record with the requester alone; the sole holder upgraded in place; a Share entry added beside the other Share holders; otherwise unchanged. A refusal changes nothing, and well-formed tables stay well formed |
| Locks.Release | acmdb-lab5/src/java/simpledb/BufferPool.java:176-187 | reports whether the lock was held; afterwards it is not held; the page's record disappears exactly when the releaser was its only holder; every other entry is unchanged; the table stays well formed |
| Locks.ReleaseAll | acmdb-lab5/src/java/simpledb/BufferPool.java:201-205 | the transaction holds no lock afterwards; every other transaction keeps each lock it had, in the same mode; a record changes exactly when the transaction held it; the table stays well formed |
| LockManagement.LockManager.AcquiredLock | acmdb-lab5/src/java/simpledb/BufferPool.java:101-173 | the source's branch structure returns the grant decision and leaves the lock map that `Locks.Acquire` prescribes, keeping the table well formed |
| LockManagement.LockManager.ReleaseLock | acmdb-lab5/src/java/simpledb/BufferPool.java:176-187 | the result and the new lock map are those of `Locks.Release` |
| LockManagement.LockManager.IsHoldLock | acmdb-lab5/src/java/simpledb/BufferPool.java:189-199 | true exactly when the page has a record that names the transaction |
| LockManagement.LockManager.CompleteTranslation | acmdb-lab5/src/java/simpledb/BufferPool.java:201-205 | releasing the transaction on every page of the key set leaves the lock map of `Locks.ReleaseAll` |
| LockManagement.ReleaseOneMore | acmdb-lab5/src/java/simpledb/BufferPool.java:202-204 | one more release in the completeTranslation loop takes that page out of the pages still to visit |
| LockManagement.SeveralHoldersAreShared | acmdb-lab5/src/java/simpledb/BufferPool.java:116-122 | a well-formed record with more than one holder holds only Share locks, so granting Share there is safe |
| PageCache.ReadPage | acmdb-lab5/src/java/simpledb/BufferPool.java:272-273 | a page read from storage carries the requested id, is clean and holds the stored image |
| PageCache.LastClean | acmdb-lab5/src/java/simpledb/BufferPool.java:519-537 | the position it returns holds a clean page and every page after it toward the tail is dirty; it returns None exactly when every listed page is dirty |
| PageCache.DirtiedBy | acmdb-lab5/src/java/simpledb/BufferPool.java:503-508 | exactly the cached ids whose page the transaction dirtied |
| PageCache.DirtyIds | acmdb-lab5/src/java/simpledb/BufferPool.java:460-492 | exactly the cached ids whose page is dirty |
| PageCache.Flush | acmdb-lab5/src/java/simpledb/BufferPool.java:488-496 | flushing a set of dirty ids writes each of their contents to storage and marks each clean; every other cached page and every other stored image is unchanged |
| PageCache.FlushOne | acmdb-lab5/src/java/simpledb/BufferPool.java:488-496 | flushing one dirty page stores its content and clears its dirtier |
| PageCache.FlushTwice | acmdb-lab5/src/java/simpledb/BufferPool.java:500-510 | flushing one set and then a disjoint set equals flushing both at once, so the hash-map visiting order does not matter |
| PageCache.FlushAllCleansEverything | acmdb-lab5/src/java/simpledb/BufferPool.java:457-464 | after flushing every dirty page, no cached page is dirty and storage holds each formerly dirty page's content |
| PageCache.FlushConsistent | acmdb-lab5/src/java/simpledb/BufferPool.java:488-496 | flushing keeps the cache invariant |
| PageCache.DropConsistent | acmdb-lab5/src/java/simpledb/BufferPool.java:474-482 | dropping a cached page and unlinking its node keeps the cache invariant |
| PageCache.EvictConsistent | acmdb-lab5/src/java/simpledb/BufferPool.java:519-537 | rotating the dirty pages the scan passed to the head and dropping the clean victim keeps the cache invariant |
| PageCache.Reloaded | acmdb-lab5/src/java/simpledb/BufferPool.java:328-341 | the cache keeps its ids; each reloaded id holds the clean stored image and every other page is unchanged |
| PageCache.Absorbed | acmdb-lab5/src/java/simpledb/BufferPool.java:371-393 | an entry for exactly the listed ids, each marked dirty by the transaction, holding the version of the id's last occurrence in the list |
| PageCache.LinkAtHead | acmdb-lab5/src/java/simpledb/BufferPool.java:277-279 | the cache gains exactly the new page and the list becomes that id followed by the old list |
| PageCache.InsertConsistent | acmdb-lab5/src/java/simpledb/BufferPool.java:277-279 | inserting a page into a cache with room keeps the cache invariant |
| PageCache.ReplaceConsistent | acmdb-lab5/src/java/simpledb/BufferPool.java:380-383 | replacing a cached page by a dirty one in place keeps the cache invariant |
| PageCache.ReplaceVisible | acmdb-lab3/src/java/simpledb/BufferPool.java:189-192 | after the replacement a reader of that page sees the new content, and no other page's visible content changes |
| BufferPoolLab5.LockFor | acmdb-lab5/src/java/simpledb/BufferPool.java:257 | Share exactly for READ_ONLY, Exclusive otherwise |
| BufferPoolLab5.Evicted | acmdb-lab5/src/java/simpledb/BufferPool.java:516-541 | None exactly when every cached page is dirty; otherwise one clean page leaves, chosen as the clean page nearest the tail; no dirty page is evicted; the remaining entries are unchanged |
| BufferPoolLab5.Fetched | acmdb-lab5/src/java/simpledb/BufferPool.java:271-283 | a hit leaves the cache as it is and moves the id to the head (`[pid] + Without(order, {pid})`). A miss with room adds the stored image at the head and evicts nothing. A miss on a full cache removes exactly `Evicted`'s victim, with `Evicted`'s order, then adds the image at the head. PageNotInFile exactly when the id is neither cached nor stored; AllPagesDirty exactly on a miss into a full cache of dirty pages |
| BufferPoolLab5.Absorb | acmdb-lab5/src/java/simpledb/BufferPool.java:372-391 | the page is cached, dirtied by the transaction, and every other surviving entry comes unchanged from the old cache. A cached id within capacity is replaced in place with the order kept. A new id with room is linked at the head with nothing evicted. A new id on a full cache replaces exactly `Evicted`'s victim. None exactly when an eviction is needed and finds no clean page: for a pool within capacity, a new id into a full cache of dirty pages; for an over-full one, at most one clean page and the id not a dirty cached one |
| BufferPoolLab5.Place | acmdb-lab5/src/java/simpledb/BufferPool.java:380-390 | the second half of a pass: a cached id is replaced in place; a new one is linked at the head, after evicting exactly `Evicted`'s victim when the cache is full; None exactly when that eviction finds every page dirty |
| BufferPoolLab5.OverfullPlace | acmdb-lab5/src/java/simpledb/BufferPool.java:375-390 | after an over-full cache evicts its last clean page, placing the page fails exactly when no other page was clean and the id is not a dirty cached one |
| BufferPoolLab5.AbsorbAll | acmdb-lab5/src/java/simpledb/BufferPool.java:371-396 | the pages of the list absorbed one after another; the list still holds each cached id once |
| BufferPoolLab5.BufferPool.constructor | acmdb-lab5/src/java/simpledb/BufferPool.java:213-223 | an empty cache, an empty list and an empty lock map, with the given capacity |
| BufferPoolLab5.BufferPool.GetPage | acmdb-lab5/src/java/simpledb/BufferPool.java:254-285 | the lock map becomes the one `Locks.Acquire` gives. A refused lock aborts with TransactionAborted and leaves the cache untouched. A granted lock gives the result of `Fetched` and the new cache and list. Storage never changes |
| BufferPoolLab5.BufferPool.Fetch | acmdb-lab5/src/java/simpledb/BufferPool.java:271-283 | the cache step of getPage: result, cache and list are those of `Fetched`, and an error leaves the pool untouched |
| BufferPoolLab5.BufferPool.ReleasePage | acmdb-lab5/src/java/simpledb/BufferPool.java:296-300 | the lock map becomes that of `Locks.Release` |
| BufferPoolLab5.BufferPool.UnsafeReleasePage | acmdb-lab5/src/java/simpledb/BufferPool.java:302-306 | the lock map becomes that of `Locks.Release` |
| BufferPoolLab5.BufferPool.HoldsLock | acmdb-lab5/src/java/simpledb/BufferPool.java:321-325 | always false, as written |
| BufferPoolLab5.BufferPool.HoldsLockIntended | acmdb-lab5/src/java/simpledb/BufferPool.java:321-325 | true exactly when the lock manager records the transaction on the page |
| BufferPoolLab5.BufferPool.FlushPage | acmdb-lab5/src/java/simpledb/BufferPool.java:488-496 | a dirty page's content is stored and the page marked clean; a clean page changes nothing |
| BufferPoolLab5.BufferPool.FlushPages | acmdb-lab5/src/java/simpledb/BufferPool.java:500-510 | the new cache and storage are those of `Flush` over the pages the transaction dirtied; the list is unchanged |
| BufferPoolLab5.BufferPool.FlushAllPages | acmdb-lab5/src/java/simpledb/BufferPool.java:457-464 | the new cache and storage are those of `Flush` over every dirty page; the list is unchanged |
| BufferPoolLab5.BufferPool.DiscardPage | acmdb-lab5/src/java/simpledb/BufferPool.java:474-482 | the id leaves the cache and the list; everything else, storage included, is unchanged |
| BufferPoolLab5.BufferPool.RestorePages | acmdb-lab5/src/java/simpledb/BufferPool.java:328-341 | every page the transaction dirtied is reloaded from storage and moved to the front of the list; every other page keeps its entry and its relative order |
| BufferPoolLab5.BufferPool.TransactionComplete | acmdb-lab5/src/java/simpledb/BufferPool.java:350-368 | commit flushes the transaction's pages and abort restores them; either way the transaction's locks are all released |
| BufferPoolLab5.BufferPool.TransactionCommit | acmdb-lab5/src/java/simpledb/BufferPool.java:314-318 | the commit case of the two-argument overload |
| BufferPoolLab5.BufferPool.AbsorbPage | acmdb-lab5/src/java/simpledb/BufferPool.java:372-391 | one pass of updateBufferPool gives the state of `Absorb`; it fails with AllPagesDirty, leaving the pool untouched, exactly when `Absorb` gives None |
| BufferPoolLab5.BufferPool.UpdateBufferPool | acmdb-lab5/src/java/simpledb/BufferPool.java:371-396 | passes with the state of `AbsorbAll`, or fails with AllPagesDirty exactly when `AbsorbAll` gives None; storage never changes |
| BufferPoolLab5.BufferPool.EvictPage | acmdb-lab5/src/java/simpledb/BufferPool.java:516-541 | the new cache and list are those of `Evicted`; when every page is dirty it fails with AllPagesDirty and the list is back in its original order |
| BufferPoolLab5.NoStealScan | acmdb-lab5/src/java/simpledb/BufferPool.java:519-537 | the eviction loop stops at the clean page nearest the tail, with the dirty pages it passed rotated to the head; with none clean the list is back where it started |
| BufferPoolLab5.Restored | acmdb-lab5/src/java/simpledb/BufferPool.java:329-340 | the restore loop keeps the cache invariant and leaves the state `RestoredAfterAbort` describes |
| BufferPoolLab5.RestoreStep | acmdb-lab5/src/java/simpledb/BufferPool.java:336-338 | moving a restored page to the head prepends it to those already restored and leaves the unvisited ones in their order |
| BufferPoolLab5.RestoredConsistent | acmdb-lab5/src/java/simpledb/BufferPool.java:328-341 | reloading any set of pages and moving them to the front keeps the cache invariant |
| BufferPoolLab5.FetchedAgain | acmdb-lab5/src/java/simpledb/BufferPool.java:271-283 | calling getPage again right after a successful call hits, and returns the same page with the same cache and list |
| BufferPoolLab5.HoldsLockMissesGrantedLock | acmdb-lab5/src/java/simpledb/BufferPool.java:321-325 | a transaction granted a Share lock on a free page holds it, yet holdsLock reports false |
| BufferPoolLab5.FetchedConsistent | acmdb-lab5/src/java/simpledb/BufferPool.java:271-283 | a successful getPage keeps the cache invariant |
| BufferPoolLab5.AbsorbConsistent | acmdb-lab5/src/java/simpledb/BufferPool.java:372-391 | a successful pass of updateBufferPool keeps the cache invariant; in a pool over capacity no page is clean, so the over-capacity eviction always fails |
| BufferPoolLab5.AbsorbAllConsistent | acmdb-lab5/src/java/simpledb/BufferPool.java:371-396 | a successful updateBufferPool keeps the cache invariant |
| BufferPoolLab5.AbsorbAllStops | acmdb-lab5/src/java/simpledb/BufferPool.java:371-396 | once one page of the list fails, the whole call fails |
| BufferPoolLab5.AbsorbAllEffect | acmdb-lab5/src/java/simpledb/BufferPool.java:371-396 | after a successful updateBufferPool: each listed page is cached in its last version, dirtied by the transaction; every other cached page is an unchanged earlier entry; no dirty page was evicted |
| BufferPoolLab3.Stolen | acmdb-lab3/src/java/simpledb/BufferPool.java:318-330 | None exactly when the cache is empty. Otherwise the tail page leaves and every other page stays; the list loses its tail; storage gains the victim's image exactly when it was dirty and is otherwise unchanged |
| BufferPoolLab3.Fetched | acmdb-lab3/src/java/simpledb/BufferPool.java:118-133 | a hit leaves the cache and storage as they are and moves the id to the head. A miss with room adds the stored image at the head, stealing and writing nothing. A miss on a full cache first steals exactly the tail through `Stolen`, with `Stolen`'s storage. PageNotInFile exactly when the id is neither cached nor stored; NullLink exactly on a miss into a pool of capacity zero or less |
| BufferPoolLab3.Absorb | acmdb-lab3/src/java/simpledb/BufferPool.java:181-199 | the page is cached, dirtied by the transaction, and every other entry comes unchanged from the old cache. Storage keeps every id and changes only where a cached dirty page was written back. A cached id within capacity is replaced in place, with the list and storage unchanged. A new id with room is linked at the head with nothing stolen. A new id on a full cache replaces exactly the stolen tail. None exactly when an eviction meets an empty cache |
| BufferPoolLab3.Place | acmdb-lab3/src/java/simpledb/BufferPool.java:189-199 | the second half of a pass: a cached id is replaced in place; a new one is linked at the head, after stealing exactly the tail when the cache is full; None exactly when that steal meets an empty cache |
| BufferPoolLab3.AbsorbAll | acmdb-lab3/src/java/simpledb/BufferPool.java:180-205 | the pages of the list absorbed one after another; the list still holds each cached id once |
| BufferPoolLab3.BufferPool.constructor | acmdb-lab3/src/java/simpledb/BufferPool.java:79-87 | an empty cache and list with the given capacity |
| BufferPoolLab3.BufferPool.GetPage | acmdb-lab3/src/java/simpledb/BufferPool.java:118-133 | result, cache, list and storage are those of `Fetched`; an error leaves the pool untouched |
| BufferPoolLab3.BufferPool.ReleasePage | acmdb-lab3/src/java/simpledb/BufferPool.java:144-147 | changes nothing |
| BufferPoolLab3.BufferPool.TransactionCommit | acmdb-lab3/src/java/simpledb/BufferPool.java:154-157 | changes nothing |
| BufferPoolLab3.BufferPool.TransactionComplete | acmdb-lab3/src/java/simpledb/BufferPool.java:173-177 | changes nothing |
| BufferPoolLab3.BufferPool.FlushPages | acmdb-lab3/src/java/simpledb/BufferPool.java:309-312 | changes nothing |
| BufferPoolLab3.BufferPool.HoldsLock | acmdb-lab3/src/java/simpledb/BufferPool.java:160-164 | always false |
| BufferPoolLab3.BufferPool.FlushPage | acmdb-lab3/src/java/simpledb/BufferPool.java:297-305 | a dirty page's content is stored and the page marked clean; a clean page changes nothing |
| BufferPoolLab3.BufferPool.FlushAllPages | acmdb-lab3/src/java/simpledb/BufferPool.java:266-273 | the new cache and storage are those of `Flush` over every dirty page; the list is unchanged |
| BufferPoolLab3.BufferPool.DiscardPage | acmdb-lab3/src/java/simpledb/BufferPool.java:283-291 | the id leaves the cache and the list; storage is unchanged |
| BufferPoolLab3.BufferPool.AbsorbPage | acmdb-lab3/src/java/simpledb/BufferPool.java:181-199 | one pass gives the state of `Absorb`; it fails with NullLink, leaving the pool untouched, exactly when `Absorb` gives None |
| BufferPoolLab3.BufferPool.UpdateBufferPool | acmdb-lab3/src/java/simpledb/BufferPool.java:180-205 | passes with the state of `AbsorbAll`, or fails with NullLink exactly when `AbsorbAll` gives None |
| BufferPoolLab3.BufferPool.EvictPage | acmdb-lab3/src/java/simpledb/BufferPool.java:318-330 | the new cache, list and storage are those of `Stolen`; an empty list fails with NullLink |
| BufferPoolLab3.StolenConsistent | acmdb-lab3/src/java/simpledb/BufferPool.java:318-330 | eviction keeps the cache invariant |
| BufferPoolLab3.StolenVisible | acmdb-lab3/src/java/simpledb/BufferPool.java:318-330 | eviction changes what no reader sees: every stored page shows the same content as before, and a dirty victim's content is written to storage |
| BufferPoolLab3.FetchedConsistent | acmdb-lab3/src/java/simpledb/BufferPool.java:118-133 | a successful getPage keeps the cache invariant |
| BufferPoolLab3.FetchedVisible | acmdb-lab3/src/java/simpledb/BufferPool.java:118-133 | a successful getPage changes no page's visible content |
| BufferPoolLab3.AbsorbConsistent | acmdb-lab3/src/java/simpledb/BufferPool.java:181-199 | a successful pass keeps the cache invariant; a pool over capacity cannot arise |
| BufferPoolLab3.AbsorbVisible | acmdb-lab3/src/java/simpledb/BufferPool.java:181-199 | after a pass the absorbed page shows its new content and every other page shows what it showed before |
| BufferPoolLab3.AbsorbAllStops | acmdb-lab3/src/java/simpledb/BufferPool.java:180-205 | once one page of the list fails, the whole call fails |
| BufferPoolLab3.AbsorbAllConsistent | acmdb-lab3/src/java/simpledb/BufferPool.java:180-205 | a successful updateBufferPool keeps the cache invariant and loses no stored page |
| BufferPoolLab3.AbsorbAllShows | acmdb-lab3/src/java/simpledb/BufferPool.java:180-205 | after a successful updateBufferPool each listed page shows its last version in the list, even when it was evicted (and written back) later in the same call |
| BufferPoolLab3.AbsorbAllKeeps | acmdb-lab3/src/java/simpledb/BufferPool.java:180-205 | after a successful updateBufferPool every stored page not in the list shows what it showed before |
| BufferPoolLab3.ServedStep | acmdb-lab3/src/java/simpledb/BufferPool.java:118-133 | one more getPage call extends a run of calls by one `Fetched` step |
| BufferPoolLab3.LeastRecentlyUsedScenario | acmdb-lab3/src/java/simpledb/BufferPool.java:118-133 | with room for two pages, getPage on A, B, A, C evicts B and leaves C then A in the list |
| BufferPoolLab3.ScenarioHit | acmdb-lab3/src/java/simpledb/BufferPool.java:131-132 | a hit on the second page moves it to the head without changing the cache |
| BufferPoolLab3.ScenarioEviction | acmdb-lab3/src/java/simpledb/BufferPool.java:121-130 | a miss into the full cache evicts the tail and links the new page at the head |
| TableStatistics.Min32 | acmdb-lab4/src/java/simpledb/TableStats.java:143 | Math.min: the smaller argument |
| TableStatistics.Max32 | acmdb-lab4/src/java/simpledb/TableStats.java:142 | Math.max: the larger argument |
| TableStatistics.ColumnMin | acmdb-lab4/src/java/simpledb/TableStats.java:133-144 | no value of the column is below it; on a non-empty table some row attains it; on an empty table it is Integer.MAX_VALUE |
| TableStatistics.ColumnMax | acmdb-lab4/src/java/simpledb/TableStats.java:134-144 | no value of the column is above it; on a non-empty table some row attains it; on an empty table it is Integer.MIN_VALUE |
| TableStatistics.IntValues | acmdb-lab4/src/java/simpledb/TableStats.java:178-185 | the values of an integer column, one per row, each row's value included |
| TableStatistics.StringValues | acmdb-lab4/src/java/simpledb/TableStats.java:178-188 | the values of a string column, one per row, each row's value included |
| TableStatistics.ScanColumn | acmdb-lab4/src/java/simpledb/TableStats.java:133-144 | one column's scan yields the column's minimum and maximum, and counts every row while scanning column 0 only |
| TableStatistics.ScanBounds | acmdb-lab4/src/java/simpledb/TableStats.java:122-149 | each integer column's bounds are its minimum and maximum; a string column keeps 0; the row count is the number of rows when column 0 is an integer column and 0 otherwise |
| TableStatistics.BuildHistograms | acmdb-lab4/src/java/simpledb/TableStats.java:157-165 | integer columns get an empty histogram over their [min, max] with 100 bins, the others an empty string histogram; the two key sets together are exactly the column indices |
| TableStatistics.IntFedStep | acmdb-lab4/src/java/simpledb/TableStats.java:178-190 | feeding the rows before j and then row j feeds every histogram the column's values up to row j |
| TableStatistics.IntHistogram.AddValue | acmdb-lab4/src/java/simpledb/TableStats.java:184 | one more occurrence of the value is recorded; bins and bounds are unchanged |
| TableStatistics.StringHistogram.AddValue | acmdb-lab4/src/java/simpledb/TableStats.java:187 | one more occurrence of the value is recorded; the bin count is unchanged |
| TableStatistics.AddFields | acmdb-lab4/src/java/simpledb/TableStats.java:181-189 | every field of one row is added to its column's histogram and to no other |
| TableStatistics.TableStats.constructor | acmdb-lab4/src/java/simpledb/TableStats.java:93-168 | the statistics are valid: the row count as above, and per column one histogram holding exactly the column's values, integer ones over the column's scanned bounds |
| TableStatistics.TableStats.AddValueToHist | acmdb-lab4/src/java/simpledb/TableStats.java:171-196 | each histogram receives exactly the multiset of its column's values; nothing else changes |
| TableStatistics.TableStats.AddTuple | acmdb-lab4/src/java/simpledb/TableStats.java:179-189 | each histogram receives its field of the row |
| TableStatistics.TableStats.EstimateScanCost | acmdb-lab4/src/java/simpledb/TableStats.java:223-226 | the page count times the cost per page, reduced to a Java int (congruent to the true product modulo 2^32) |
| TableStatistics.TableStats.TotalTuples | acmdb-lab4/src/java/simpledb/TableStats.java:291-294 | the number of rows when column 0 is an integer column, 0 otherwise |
| TableStatistics.ScanCost | acmdb-lab4/src/java/simpledb/TableStats.java:223-226 | congruent to the product modulo 2^32, and equal to it when it fits in an int |
| TableStatistics.ScanCostOverflows | acmdb-lab4/src/java/simpledb/TableStats.java:225 | with cost 1000 per page, 2147484 pages give a negative cost, below that of 2147483 pages |
| TableStatistics.ScanCostIntended | acmdb-lab4/src/java/simpledb/TableStats.java:223-226 | the exact product, never negative for non-negative inputs |
| TableStatistics.ScanCostAgrees | acmdb-lab4/src/java/simpledb/TableStats.java:223-226 | the written and the intended cost agree exactly when the product fits in an int |
| TableStatistics.ScanCostIntendedMonotone | acmdb-lab4/src/java/simpledb/TableStats.java:223-226 | the intended cost never falls as the table grows |
| TableStatistics.HistogramWithinBounds | acmdb-lab4/src/java/simpledb/TableStats.java:128-190 | an integer histogram holds one value per row, all within its [min, max], and on a non-empty table both bounds are values it holds |
| TableStatistics.ValuesWithinBounds | acmdb-lab4/src/java/simpledb/TableStats.java:133-144 | every value of an integer column lies between the scanned minimum and maximum |
| TableStatistics.HistogramKeys | acmdb-lab4/src/java/simpledb/TableStats.java:157-165 | every column index has a histogram in exactly one of the two maps, and no other key exists |
| TableStatistics.EmptyTableBounds | acmdb-lab4/src/java/simpledb/TableStats.java:133-148 | on an empty table an integer histogram spans [Integer.MAX_VALUE, Integer.MIN_VALUE] and holds nothing |
| TableStatistics.StatsRegistry.GetTableStats | acmdb-lab4/src/java/simpledb/TableStats.java:20-22 | the statistics registered under the name, None when there are none |
| TableStatistics.StatsRegistry.SetTableStats | acmdb-lab4/src/java/simpledb/TableStats.java:24-26 | a later lookup of the name returns the new statistics, and every other name keeps its entry |

## Left out

- Storage (the catalog, `DbFile.readPage` and `writePage`) is the pool's `disk` field, a map from page id to page image. Reading an id with no image gives `PageNotInFile`. `insertTuple` and `deleteTuple` are not modelled: they only forward the heap file's list of changed pages to `updateBufferPool`, which is modelled and takes that list as its argument. `updateBufferPool` requires every listed page to exist in storage, as the heap file guarantees.
- The lock wait in lab5 `getPage` (the retry loop with its 500 ms deadline) is modelled as one attempt: a refused lock aborts with `TransactionAborted`. Clocks and threads are outside the model, and so are the `synchronized` and concurrent-map guarantees.
- The page-size getters and setters, the page byte layout and `printStackTrace` calls are not modelled. Neither are the exceptions `flushPage` swallows, because the storage map cannot fail to write.
- Pages are values. In the source, `markDirty` changes the caller's `Page` objects, so those objects are shared. The model does not track that sharing.
- The source's hash-map iteration order is not modelled. `flushPages` and `flushAllPages` are proved independent of order, and `restorePages` is specified for any visiting order.
- BufferPoolLab5.BufferPool.UpdateBufferPool: on failure the contract states only that the pool stays consistent and that storage is unchanged. It does not state that the pages absorbed before the failing one stay absorbed, although the source does keep them.
- BufferPoolLab3.BufferPool.UpdateBufferPool: the same holds on failure.
- BufferPoolLab5.BufferPool.EvictPage: it is specified for a pool at capacity, the only state in which it is called. Its loop runs `maxNumPages` times, which then equals the list's length.
- The lab3 constructor links `tail.next` where the lab5 one links `tail.prev` (acmdb-lab3/src/java/simpledb/BufferPool.java:85). The first `addToHead` sets `tail.prev`, so the difference is only observable on the empty list. There `removeLast` dereferences a null link either way, which the model reports as `NullLink`.
- TableStats:
  - `estimateSelectivity` and `avgSelectivity` are not modelled: they delegate to the histogram classes, which are not part of this model. A histogram is represented by the multiset of values it received.
  - `estimateTableCardinality` is left out because it is floating point.
  - `setStatsMap` is left out because it uses reflection.
  - `computeStatistics` is left out because it iterates the catalog and prints.
  - `getStatsMap` is the registry's `statsMap` field.
- The table is the sequence of rows a sequential scan returns. The page count is a parameter of the constructor, and the rows are required to match the table's descriptor. The exception handler around the scans is not modelled.
- TableStatistics.TableStats.TotalTuples: the row count is an unbounded integer. The source's `int` counter would wrap after 2^31 rows.

## Findings

| source | as written | input that shows it | evidently intended | confidence | as-written member | corrected member |
|---|---|---|---|---|---|---|
| acmdb-lab5/src/java/simpledb/BufferPool.java:321-325 | `holdsLock` always returns false | a transaction granted a Share lock on a page no one holds, then `holdsLock` on that page | report whether the lock manager records the transaction on the page (its `isHoldLock`) | medium, not executed | BufferPoolLab5.HoldsLockMissesGrantedLock | BufferPoolLab5.BufferPool.HoldsLockIntended |
| acmdb-lab4/src/java/simpledb/TableStats.java:223-226 | `pagesNum * ioCostPerPage` is multiplied as `int` before it becomes a `double` | 2147484 pages at the cost of 1000 per page: the cost is negative and below that of a smaller table | the exact product, never negative | low, not executed | TableStatistics.ScanCostOverflows | TableStatistics.ScanCostIntended |
