/** Value-level pieces shared by the lab3 and lab5 buffer pools: the cache map,
    the storage files' contents, the NO-STEAL choice of a victim, and what
    writing pages back to storage does. */
module PageCache {
  import opened Types
  import opened Recency

  /** The cache: page id -> cached page. */
  type Pages = map<PageId, Page>

  /** The storage files as the pool sees them through readPage/writePage:
      page id -> the image last written. */
  type Disk = map<PageId, Content>

  /** What readPage hands back: a clean page holding the stored image. */
  function ReadPage(disk: Disk, pid: PageId): (p: Page)
    requires pid in disk
    ensures p.id == pid && !p.IsDirty() && p.content == disk[pid]
  {
    Page(pid, disk[pid], None)
  }

  /** The invariant both pools keep between calls. */
  ghost predicate Consistent(pages: Pages, order: seq<PageId>, disk: Disk, capacity: nat) {
    && Tracks(order, pages.Keys)
    && |pages| <= capacity
    && (forall p :: p in pages ==> pages[p].id == p && p in disk)
    // a clean cached page holds the stored image
    && (forall p :: p in pages && !pages[p].IsDirty() ==> pages[p].content == disk[p])
  }

  /** The usable capacity: a negative maxNumPages admits no page at all. */
  function Capacity(maxNumPages: int): nat {
    if maxNumPages < 0 then 0 else maxNumPages
  }

  /** NO-STEAL victim: the position of the clean page closest to the tail, or
      None when every listed page is dirty. */
  function LastClean(order: seq<PageId>, pages: Pages): (k: Option<nat>)
    requires forall p :: p in order ==> p in pages
    ensures k.Some? ==> k.value < |order| && !pages[order[k.value]].IsDirty()
    ensures k.Some? ==> forall j :: k.value < j < |order| ==> pages[order[j]].IsDirty()
    ensures k.None? ==> forall j :: 0 <= j < |order| ==> pages[order[j]].IsDirty()
  {
    if order == [] then None
    else if !pages[order[|order| - 1]].IsDirty() then Some(|order| - 1)
    else LastClean(order[..|order| - 1], pages)
  }

  /** Every listed page from position `k` to the tail is cached and dirty. */
  ghost predicate DirtyFrom(order: seq<PageId>, pages: Pages, k: nat) {
    forall j :: k <= j < |order| ==> order[j] in pages && pages[order[j]].IsDirty()
  }

  /** A tail-first scan that meets one more dirty page. */
  lemma DirtyFromStep(order: seq<PageId>, pages: Pages, k: nat)
    requires 0 < k <= |order| && DirtyFrom(order, pages, k)
    requires order[k - 1] in pages && pages[order[k - 1]].IsDirty()
    ensures DirtyFrom(order, pages, k - 1)
  {
  }

  /** The clean page a tail-first scan stops at is the one LastClean names. */
  lemma VictimIsLastClean(order: seq<PageId>, pages: Pages, k: nat)
    requires forall p :: p in order ==> p in pages
    requires k < |order| && !pages[order[k]].IsDirty()
    requires DirtyFrom(order, pages, k + 1)
    ensures LastClean(order, pages) == Some(k)
  {
  }

  /** A scan that meets only dirty pages finds no victim. */
  lemma NoCleanPage(order: seq<PageId>, pages: Pages)
    requires forall p :: p in order ==> p in pages
    requires DirtyFrom(order, pages, 0)
    ensures LastClean(order, pages) == None
  {
  }

  /** The ids of the pages dirtied by `tid`. */
  function DirtiedBy(pages: Pages, tid: TransactionId): (s: set<PageId>)
    ensures forall p :: p in s <==> p in pages && pages[p].dirtier == Some(tid)
  {
    set p | p in pages && pages[p].dirtier == Some(tid)
  }

  /** The ids of all dirty pages. */
  function DirtyIds(pages: Pages): (s: set<PageId>)
    ensures forall p :: p in s <==> p in pages && pages[p].IsDirty()
  {
    set p | p in pages && pages[p].IsDirty()
  }

  /** Write back the pages of `sel` (all dirty): storage receives their images
      and the cache marks them clean; every other page and stored image stays. */
  function Flush(pages: Pages, disk: Disk, sel: set<PageId>): (r: (Pages, Disk))
    requires sel <= DirtyIds(pages)
    ensures r.0.Keys == pages.Keys && r.1.Keys == disk.Keys + sel
    ensures forall p :: p in sel ==> r.0[p] == pages[p].(dirtier := None) && r.1[p] == pages[p].content
    ensures forall p :: p in pages && p !in sel ==> r.0[p] == pages[p]
    ensures forall p :: p in disk && p !in sel ==> r.1[p] == disk[p]
  {
    (map p | p in pages :: if p in sel then pages[p].(dirtier := None) else pages[p],
     map p | p in disk.Keys + sel :: if p in sel then pages[p].content else disk[p])
  }

  /** Dropping a cached page and its node keeps the invariant. */
  lemma DropConsistent(pages: Pages, order: seq<PageId>, disk: Disk, capacity: nat, pid: PageId)
    requires Consistent(pages, order, disk, capacity) && pid in pages
    ensures Consistent(pages - {pid}, Without(order, {pid}), disk, capacity)
  {
    WithoutDistinct(order, {pid});
    assert |pages - {pid}| < |pages| by {
      assert (pages - {pid}).Keys < pages.Keys;
    }
  }

  /** Evicting the node at the cut of a rotation keeps the invariant. */
  lemma EvictConsistent(pages: Pages, order: seq<PageId>, disk: Disk, capacity: nat, m: nat)
    requires Consistent(pages, order, disk, capacity) && 0 < m <= |order|
    ensures order[m - 1] in pages
    ensures Consistent(pages - {order[m - 1]}, order[m..] + order[..m - 1], disk, capacity)
  {
    var v := order[m - 1];
    var rest := pages - {v};
    RotatedDrop(order, pages.Keys, m);
    assert rest.Keys == pages.Keys - {v};
    assert |rest| <= |pages| by {
      assert rest.Keys <= pages.Keys;
    }
  }

  /** Dropping an entry forgets how it was last updated. */
  lemma UpdateThenDrop(pages: Pages, pid: PageId, page: Page)
    ensures pages[pid := page] - {pid} == pages - {pid}
  {
    var a := pages[pid := page] - {pid};
    assert a.Keys == (pages - {pid}).Keys;
  }

  /** Writing back nothing changes nothing. */
  lemma FlushNone(pages: Pages, disk: Disk)
    ensures Flush(pages, disk, {}) == (pages, disk)
  {
    var (p1, d1) := Flush(pages, disk, {});
    assert p1 == pages;
    assert d1 == disk;
  }

  /** Writing back one dirty page: its image is stored and its entry cleaned. */
  lemma FlushOne(pages: Pages, disk: Disk, pid: PageId)
    requires pid in pages && pages[pid].IsDirty()
    ensures Flush(pages, disk, {pid}) ==
      (pages[pid := pages[pid].(dirtier := None)], disk[pid := pages[pid].content])
  {
    var (p1, d1) := Flush(pages, disk, {pid});
    assert p1 == pages[pid := pages[pid].(dirtier := None)];
    assert d1 == disk[pid := pages[pid].content];
  }

  /** The cache after reloading the pages of `done` from storage: they hold the
      stored image, clean; every other entry stays. */
  function Reloaded(pages: Pages, disk: Disk, done: set<PageId>): (r: Pages)
    requires forall p :: p in pages ==> p in disk
    ensures r.Keys == pages.Keys
    ensures forall p :: p in r ==> r[p] == if p in done then ReadPage(disk, p) else pages[p]
  {
    map p | p in pages :: if p in done then ReadPage(disk, p) else pages[p]
  }

  /** Reloading one more page. */
  lemma ReloadOneMore(pages: Pages, disk: Disk, done: set<PageId>, pid: PageId)
    requires forall p :: p in pages ==> p in disk
    requires pid in pages
    ensures Reloaded(pages, disk, done)[pid := ReadPage(disk, pid)] == Reloaded(pages, disk, done + {pid})
  {
    var a := Reloaded(pages, disk, done)[pid := ReadPage(disk, pid)];
    var b := Reloaded(pages, disk, done + {pid});
    assert a.Keys == b.Keys;
    assert forall p :: p in a ==> a[p] == b[p];
  }

  /** Flushing keeps the invariant: what it writes is what it marks clean. */
  lemma FlushConsistent(pages: Pages, order: seq<PageId>, disk: Disk, capacity: nat, sel: set<PageId>)
    requires Consistent(pages, order, disk, capacity) && sel <= DirtyIds(pages)
    ensures Consistent(Flush(pages, disk, sel).0, order, Flush(pages, disk, sel).1, capacity)
  {
    var (pages', disk') := Flush(pages, disk, sel);
    assert pages'.Keys == pages.Keys;
    assert |pages'| == |pages'.Keys| == |pages.Keys| == |pages|;
  }

  /** One step of a flushing loop over the cached ids: `todo` are the ids not
      visited yet, `sel` the ids the loop writes back. Visiting `pid` meets it
      untouched, and writing it back (when selected) extends the flushed set. */
  lemma FlushStep(pages: Pages, disk: Disk, sel: set<PageId>, todo: set<PageId>, pid: PageId)
    requires sel <= DirtyIds(pages) && pid in todo && todo <= pages.Keys
    ensures pid in Flush(pages, disk, sel - todo).0
    ensures Flush(pages, disk, sel - todo).0[pid] == pages[pid]
    ensures pid !in sel ==> sel - todo == sel - (todo - {pid})
    ensures pid in sel ==> pages[pid].IsDirty()
    ensures pid in sel ==>
      Flush(Flush(pages, disk, sel - todo).0, Flush(pages, disk, sel - todo).1, {pid}) ==
      Flush(pages, disk, sel - (todo - {pid}))
  {
    if pid in sel {
      FlushTwice(pages, disk, sel - todo, {pid});
      assert sel - todo + {pid} == sel - (todo - {pid});
    }
  }

  /** A flushing loop starts from the unchanged state and ends having flushed `sel`. */
  lemma FlushLoopEnds(pages: Pages, disk: Disk, sel: set<PageId>)
    requires sel <= DirtyIds(pages)
    ensures Flush(pages, disk, sel - pages.Keys) == (pages, disk)
    ensures sel - {} == sel
  {
    assert sel - pages.Keys == {};
    FlushNone(pages, disk);
  }

  /** Writing back `a` and then `b` is writing back both at once. */
  lemma FlushTwice(pages: Pages, disk: Disk, a: set<PageId>, b: set<PageId>)
    requires a + b <= DirtyIds(pages) && a !! b
    ensures b <= DirtyIds(Flush(pages, disk, a).0)
    ensures Flush(Flush(pages, disk, a).0, Flush(pages, disk, a).1, b) == Flush(pages, disk, a + b)
  {
    var (p1, d1) := Flush(pages, disk, a);
    var (p2, d2) := Flush(p1, d1, b);
    var (p3, d3) := Flush(pages, disk, a + b);
    assert p2 == p3;
    assert d2 == d3;
  }

  /** After a flush of every dirty page no cached page is dirty, and storage
      holds each previously dirty page's image. */
  lemma FlushAllCleansEverything(pages: Pages, disk: Disk)
    ensures var (pages', disk') := Flush(pages, disk, DirtyIds(pages));
      DirtyIds(pages') == {} &&
      forall p :: p in pages && pages[p].IsDirty() ==> disk'[p] == pages[p].content
  {
  }

  /** The pages a list of dirtied pages leaves in the cache: for each id, its
      last occurrence in the list, marked dirty by `tid`. */
  function Absorbed(list: seq<Page>, tid: TransactionId): (m: Pages)
    ensures forall p :: p in m ==> m[p].id == p && m[p].dirtier == Some(tid)
    ensures forall i :: 0 <= i < |list| ==> list[i].id in m
    ensures forall p :: p in m ==> exists i :: 0 <= i < |list| && list[i].id == p
    // the version an id ends with is its last occurrence in the list
    ensures forall i :: 0 <= i < |list| && (forall j :: i < j < |list| ==> list[j].id != list[i].id) ==>
      m[list[i].id] == list[i].(dirtier := Some(tid))
  {
    if list == [] then map[]
    else
      var init := list[..|list| - 1];
      var last := list[|list| - 1];
      var m := Absorbed(init, tid)[last.id := last.(dirtier := Some(tid))];
      AbsorbedStepFacts(list, init, tid, Absorbed(init, tid));
      m
  }

  /** The inductive step of Absorbed's promises: what holds of the pages of
      `init` holds of `list` once its last page overrides its id's entry. */
  lemma AbsorbedStepFacts(list: seq<Page>, init: seq<Page>, tid: TransactionId, m0: Pages)
    requires |list| > 0 && init == list[..|list| - 1]
    requires forall i :: 0 <= i < |init| ==> init[i].id in m0
    requires forall p :: p in m0 ==> exists i :: 0 <= i < |init| && init[i].id == p
    requires forall i :: 0 <= i < |init| && (forall j :: i < j < |init| ==> init[j].id != init[i].id) ==>
      m0[init[i].id] == init[i].(dirtier := Some(tid))
    ensures var m := m0[list[|list| - 1].id := list[|list| - 1].(dirtier := Some(tid))];
      && (forall i :: 0 <= i < |list| ==> list[i].id in m)
      && (forall p :: p in m ==> exists i :: 0 <= i < |list| && list[i].id == p)
      && forall i :: 0 <= i < |list| && (forall j :: i < j < |list| ==> list[j].id != list[i].id) ==>
           m[list[i].id] == list[i].(dirtier := Some(tid))
  {
    StepCovers(list, init, tid, m0);
    StepListed(list, init, tid, m0);
    StepLastVersion(list, init, tid, m0);
  }

  /** Every listed id, the last one included, has an entry. */
  lemma StepCovers(list: seq<Page>, init: seq<Page>, tid: TransactionId, m0: Pages)
    requires |list| > 0 && init == list[..|list| - 1]
    requires forall i :: 0 <= i < |init| ==> init[i].id in m0
    ensures var m := m0[list[|list| - 1].id := list[|list| - 1].(dirtier := Some(tid))];
      forall i :: 0 <= i < |list| ==> list[i].id in m
  {
    forall i | 0 <= i < |list| - 1 ensures list[i].id in m0 {
      assert list[i] == init[i];
    }
  }

  /** Every entry comes from some listed page. */
  lemma StepListed(list: seq<Page>, init: seq<Page>, tid: TransactionId, m0: Pages)
    requires |list| > 0 && init == list[..|list| - 1]
    requires forall p :: p in m0 ==> exists i :: 0 <= i < |init| && init[i].id == p
    ensures var m := m0[list[|list| - 1].id := list[|list| - 1].(dirtier := Some(tid))];
      forall p :: p in m ==> exists i :: 0 <= i < |list| && list[i].id == p
  {
    var last := list[|list| - 1];
    forall p | p in m0 && p != last.id ensures exists i :: 0 <= i < |list| && list[i].id == p {
      var i :| 0 <= i < |init| && init[i].id == p;
      assert list[i] == init[i];
    }
    assert list[|list| - 1].id == last.id;
  }

  /** An id not listed again later ends with its last listed version. */
  lemma StepLastVersion(list: seq<Page>, init: seq<Page>, tid: TransactionId, m0: Pages)
    requires |list| > 0 && init == list[..|list| - 1]
    requires forall i :: 0 <= i < |init| ==> init[i].id in m0
    requires forall i :: 0 <= i < |init| && (forall j :: i < j < |init| ==> init[j].id != init[i].id) ==>
      m0[init[i].id] == init[i].(dirtier := Some(tid))
    ensures var m := m0[list[|list| - 1].id := list[|list| - 1].(dirtier := Some(tid))];
      forall i :: 0 <= i < |list| && (forall j :: i < j < |list| ==> list[j].id != list[i].id) ==>
        m[list[i].id] == list[i].(dirtier := Some(tid))
  {
    var last := list[|list| - 1];
    var m := m0[last.id := last.(dirtier := Some(tid))];
    forall i | 0 <= i < |list| && (forall j :: i < j < |list| ==> list[j].id != list[i].id)
      ensures m[list[i].id] == list[i].(dirtier := Some(tid))
    {
      if i < |list| - 1 {
        assert list[i] == init[i];
        assert list[|list| - 1].id != list[i].id;
        forall j | i < j < |init| ensures init[j].id != init[i].id {
          assert init[j] == list[j];
        }
      }
    }
  }

  /** Absorbing one more page overrides its id's entry. */
  lemma AbsorbedStep(list: seq<Page>, tid: TransactionId)
    requires |list| > 0
    ensures Absorbed(list, tid) ==
      Absorbed(list[..|list| - 1], tid)[list[|list| - 1].id := list[|list| - 1].(dirtier := Some(tid))]
  {
  }

  /** What a reader of `pid` sees: the cached page, else the stored image. */
  function Visible(pages: Pages, disk: Disk, pid: PageId): Content
    requires pid in pages || pid in disk
  {
    if pid in pages then pages[pid].content else disk[pid]
  }

  /** Putting `page` in the cache: readers of its id see its image, readers of
      any other id see what they saw before. */
  lemma ReplaceVisible(pages: Pages, disk: Disk, page: Page)
    ensures Visible(pages[page.id := page], disk, page.id) == page.content
    ensures forall p :: (p in pages || p in disk) && p != page.id ==>
      Visible(pages[page.id := page], disk, p) == Visible(pages, disk, p)
  {
  }

  /** A page that is not cached enters the cache and is linked at the head. */
  function LinkAtHead(pages: Pages, order: seq<PageId>, page: Page): (r: (Pages, seq<PageId>))
    requires Tracks(order, pages.Keys) && page.id !in pages
    ensures Tracks(r.1, r.0.Keys) && |r.1| > 0 && r.1[0] == page.id
    ensures r.1 == [page.id] + order && r.0 == pages[page.id := page]
    ensures page.id in r.0 && r.0[page.id] == page
    ensures forall p :: p in r.0 && p != page.id ==> p in pages && r.0[p] == pages[p]
    ensures forall p :: p in pages ==> p in r.0
  {
    TracksAddToHead(order, pages.Keys, page.id);
    (pages[page.id := page], AddToHead(order, page.id))
  }

  /** Replacing a cached entry by a dirty page of the same id keeps the invariant. */
  lemma ReplaceConsistent(pages: Pages, order: seq<PageId>, disk: Disk, capacity: nat, page: Page)
    requires Consistent(pages, order, disk, capacity)
    requires page.id in pages && page.IsDirty()
    ensures Consistent(pages[page.id := page], order, disk, capacity)
  {
    assert pages[page.id := page].Keys == pages.Keys;
  }

  /** Linking a new page at the head of a cache with room keeps the invariant. */
  lemma InsertConsistent(pages: Pages, order: seq<PageId>, disk: Disk, capacity: nat, page: Page)
    requires Consistent(pages, order, disk, capacity) && |pages| < capacity
    requires page.id !in pages && page.id in disk
    requires !page.IsDirty() ==> page.content == disk[page.id]
    ensures page.id !in order
    ensures Consistent(pages[page.id := page], AddToHead(order, page.id), disk, capacity)
  {
    var cache := pages[page.id := page];
    assert Tracks(AddToHead(order, page.id), cache.Keys) by {
      TracksAddToHead(order, pages.Keys, page.id);
      assert cache.Keys == pages.Keys + {page.id};
    }
    assert |cache| <= capacity by {
      InsertCard(pages, page);
    }
    InsertEntries(pages, disk, page);
  }

  lemma InsertCard(pages: Pages, page: Page)
    requires page.id !in pages
    ensures |pages[page.id := page]| == |pages| + 1
  {
  }

  /** The entries of the cache after linking `page`. */
  lemma InsertEntries(pages: Pages, disk: Disk, page: Page)
    requires forall p :: p in pages ==> pages[p].id == p && p in disk
    requires forall p :: p in pages && !pages[p].IsDirty() ==> pages[p].content == disk[p]
    requires page.id in disk && (!page.IsDirty() ==> page.content == disk[page.id])
    ensures forall p :: p in pages[page.id := page] ==> pages[page.id := page][p].id == p && p in disk
    ensures forall p :: p in pages[page.id := page] && !pages[page.id := page][p].IsDirty() ==>
      pages[page.id := page][p].content == disk[p]
  {
  }
}
