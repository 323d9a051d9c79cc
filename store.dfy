/** The four tables behind SiteRepository, PageRepository, LemmaRepository and
    IndexRepository, and the invariant that relates them.

    Sites are keyed by url (the program only ever looks a site up with
    findByUrl), a lemma row is keyed by its unique pair (site, lemma) and holds
    its frequency, and index rows are kept in insertion order. */
module Store {
  import opened Util

  type Url = string
  type PageId = nat

  datatype StatusType = INDEXING | INDEXED | FAILED

  datatype SiteRow = SiteRow(url: Url, name: string, status: StatusType,
                             statusTime: nat, lastError: Option<string>)

  datatype PageRow = PageRow(site: Url, path: string, code: int, content: string)

  datatype LemmaKey = LemmaKey(site: Url, text: string)

  datatype IndexRow = IndexRow(page: PageId, key: LemmaKey, rank: nat)

  /** A snapshot of the whole store. */
  datatype Db = Db(sites: map<Url, SiteRow>, pages: map<PageId, PageRow>,
                   lemmas: map<LemmaKey, nat>, indexes: seq<IndexRow>,
                   nextPageId: nat)

  const EmptyDb := Db(map[], map[], map[], [], 0)

  /** Number of index rows that point at lemma `k`. */
  function RowCount(idx: seq<IndexRow>, k: LemmaKey): nat
  {
    if idx == [] then 0
    else RowCount(idx[..|idx| - 1], k) + (if idx[|idx| - 1].key == k then 1 else 0)
  }

  /** Number of index rows for the pair (page, lemma). */
  function EdgeCount(idx: seq<IndexRow>, page: PageId, k: LemmaKey): nat
  {
    if idx == [] then 0
    else EdgeCount(idx[..|idx| - 1], page, k)
         + (if idx[|idx| - 1].page == page && idx[|idx| - 1].key == k then 1 else 0)
  }

  /** The frequency column, 0 when the lemma has no row. */
  function Freq(db: Db, k: LemmaKey): nat
  {
    if k in db.lemmas then db.lemmas[k] else 0
  }

  /** pageRepository.findByPath(path) is non-empty; note that it is not
      restricted to one site. */
  predicate PathExists(db: Db, path: string)
  {
    exists p :: p in db.pages && db.pages[p].path == path
  }

  /** The paths of all stored pages. */
  function Paths(db: Db): (r: set<string>)
    ensures forall path :: path in r <==> PathExists(db, path)
  {
    set p | p in db.pages :: db.pages[p].path
  }

  /** The pages that have an index row for lemma `k`. */
  function PagesWith(idx: seq<IndexRow>, k: LemmaKey): set<PageId>
  {
    set r | r in idx && r.key == k :: r.page
  }

  // ---------------------------------------------------------------------
  // The invariant

  ghost predicate SitesKeyed(db: Db)
  {
    forall u :: u in db.sites ==> db.sites[u].url == u
  }

  ghost predicate PagesOk(db: Db)
  {
    forall p :: p in db.pages ==> p < db.nextPageId && db.pages[p].site in db.sites
  }

  /** No two pages share a path. */
  ghost predicate PathsUnique(db: Db)
  {
    forall p, q :: p in db.pages && q in db.pages && p != q ==> db.pages[p].path != db.pages[q].path
  }

  ghost predicate RowOk(db: Db, r: IndexRow)
  {
    && r.page in db.pages
    && r.key in db.lemmas
    && r.key.site == db.pages[r.page].site
    && r.rank > 0
  }

  /** Every index row joins an existing page and an existing lemma of the
      same site, with a positive rank. */
  ghost predicate RowsOk(db: Db)
  {
    forall r :: r in db.indexes ==> RowOk(db, r)
  }

  /** At most one index row per (page, lemma). */
  ghost predicate EdgesUnique(db: Db)
  {
    forall page, k :: EdgeCount(db.indexes, page, k) <= 1
  }

  /** Lemma.frequency equals the number of index rows referencing it. */
  ghost predicate FrequencyCounted(db: Db)
  {
    forall k :: k in db.lemmas ==> k.site in db.sites && db.lemmas[k] == RowCount(db.indexes, k)
  }

  ghost predicate Consistent(db: Db)
  {
    SitesKeyed(db) && PagesOk(db) && PathsUnique(db) && RowsOk(db)
    && EdgesUnique(db) && FrequencyCounted(db)
  }

  // ---------------------------------------------------------------------
  // Store operations on snapshots

  /** deleteById on a site row: JPA cascades the removal to its pages, its
      lemmas and their index rows. */
  function DeleteSite(db: Db, u: Url): Db
  {
    Db(db.sites - {u},
       map p | p in db.pages && db.pages[p].site != u :: db.pages[p],
       map k | k in db.lemmas && k.site != u :: db.lemmas[k],
       DropSite(db.indexes, u),
       db.nextPageId)
  }

  function DropSite(idx: seq<IndexRow>, u: Url): (r: seq<IndexRow>)
    ensures forall x :: x in r <==> x in idx && x.key.site != u
  {
    if idx == [] then []
    else DropSite(idx[..|idx| - 1], u)
         + (if idx[|idx| - 1].key.site != u then [idx[|idx| - 1]] else [])
  }

  /** pageRepository.save of a new page: it gets the next identifier. */
  function AddPage(db: Db, row: PageRow): Db
  {
    db.(pages := db.pages[db.nextPageId := row], nextPageId := db.nextPageId + 1)
  }

  /** One step of the indexer: the lemma row for `k` is created with frequency
      1 or has its frequency raised by one, and the index row (page, k, rank)
      is appended. */
  function AddEdge(db: Db, page: PageId, k: LemmaKey, rank: nat): Db
  {
    db.(lemmas := db.lemmas[k := Freq(db, k) + 1],
        indexes := db.indexes + [IndexRow(page, k, rank)])
  }

  // ---------------------------------------------------------------------
  // Counting lemmas

  lemma {:induction false} RowCountDrop(idx: seq<IndexRow>, u: Url, k: LemmaKey)
    ensures RowCount(DropSite(idx, u), k) == if k.site == u then 0 else RowCount(idx, k)
    decreases |idx|
  {
    if idx != [] {
      var init := idx[..|idx| - 1];
      var last := idx[|idx| - 1];
      RowCountDrop(init, u, k);
      var d := DropSite(init, u);
      if last.key.site != u {
        assert DropSite(idx, u) == d + [last];
        assert (d + [last])[..|d + [last]| - 1] == d;
      } else {
        assert DropSite(idx, u) == d;
      }
    }
  }

  lemma {:induction false} EdgeCountDrop(idx: seq<IndexRow>, u: Url, page: PageId, k: LemmaKey)
    ensures EdgeCount(DropSite(idx, u), page, k) <= EdgeCount(idx, page, k)
    decreases |idx|
  {
    if idx != [] {
      var init := idx[..|idx| - 1];
      var last := idx[|idx| - 1];
      EdgeCountDrop(init, u, page, k);
      var d := DropSite(init, u);
      if last.key.site != u {
        assert DropSite(idx, u) == d + [last];
        assert (d + [last])[..|d + [last]| - 1] == d;
      } else {
        assert DropSite(idx, u) == d;
      }
    }
  }

  /** Dropping the rows of one site keeps the rows of the other sites. */
  lemma {:induction false} EdgeCountDropOther(idx: seq<IndexRow>, u: Url, page: PageId, k: LemmaKey)
    requires k.site != u
    ensures EdgeCount(DropSite(idx, u), page, k) == EdgeCount(idx, page, k)
    decreases |idx|
  {
    if idx != [] {
      var init := idx[..|idx| - 1];
      var last := idx[|idx| - 1];
      EdgeCountDropOther(init, u, page, k);
      var d := DropSite(init, u);
      if last.key.site != u {
        assert DropSite(idx, u) == d + [last];
        assert (d + [last])[..|d + [last]| - 1] == d;
      } else {
        assert DropSite(idx, u) == d;
      }
    }
  }

  /** Rows appended for other pages leave the rows of `page` as they were. */
  lemma {:induction false} EdgesKept(idx: seq<IndexRow>, idx': seq<IndexRow>, page: PageId)
    requires |idx| <= |idx'| && idx'[..|idx|] == idx
    requires forall j :: |idx| <= j < |idx'| ==> idx'[j].page != page
    ensures forall k :: EdgeCount(idx', page, k) == EdgeCount(idx, page, k)
    decreases |idx'|
  {
    if |idx| < |idx'| {
      var init := idx'[..|idx'| - 1];
      assert init[..|idx|] == idx;
      EdgesKept(idx, init, page);
    } else {
      assert idx' == idx'[..|idx|];
    }
  }

  lemma {:induction false} EdgeCountZeroMeansNoRow(idx: seq<IndexRow>, page: PageId, k: LemmaKey)
    ensures EdgeCount(idx, page, k) == 0 <==> forall r :: r in idx ==> !(r.page == page && r.key == k)
    decreases |idx|
  {
    if idx != [] {
      var init := idx[..|idx| - 1];
      EdgeCountZeroMeansNoRow(init, page, k);
      assert idx == init + [idx[|idx| - 1]];
    }
  }

  lemma {:induction false} RowCountZeroWithoutRows(idx: seq<IndexRow>, k: LemmaKey)
    requires forall r :: r in idx ==> r.key != k
    ensures RowCount(idx, k) == 0
    decreases |idx|
  {
    if idx != [] {
      RowCountZeroWithoutRows(idx[..|idx| - 1], k);
    }
  }

  lemma AppendCounts(idx: seq<IndexRow>, r: IndexRow, page: PageId, k: LemmaKey)
    ensures RowCount(idx + [r], k) == RowCount(idx, k) + (if r.key == k then 1 else 0)
    ensures EdgeCount(idx + [r], page, k)
            == EdgeCount(idx, page, k) + (if r.page == page && r.key == k then 1 else 0)
  {
    assert (idx + [r])[..|idx + [r]| - 1] == idx;
  }

  // ---------------------------------------------------------------------
  // Every store operation keeps the invariant

  lemma DeleteSiteKeepsConsistent(db: Db, u: Url)
    requires Consistent(db)
    ensures Consistent(DeleteSite(db, u))
    ensures u !in DeleteSite(db, u).sites
    ensures forall p :: p in DeleteSite(db, u).pages ==> DeleteSite(db, u).pages[p].site != u
    ensures forall k :: k in DeleteSite(db, u).lemmas ==> k.site != u
  {
    var d := DeleteSite(db, u);
    forall page, k ensures EdgeCount(d.indexes, page, k) <= 1 {
      EdgeCountDrop(db.indexes, u, page, k);
    }
    forall k | k in d.lemmas ensures d.lemmas[k] == RowCount(d.indexes, k) {
      RowCountDrop(db.indexes, u, k);
    }
    forall r | r in d.indexes ensures RowOk(d, r) {
      assert RowOk(db, r);
    }
  }

  lemma AddPageKeepsConsistent(db: Db, row: PageRow)
    requires Consistent(db)
    requires row.site in db.sites
    requires !PathExists(db, row.path)
    ensures Consistent(AddPage(db, row))
  {
    var d := AddPage(db, row);
    forall r | r in d.indexes ensures RowOk(d, r) {
      assert RowOk(db, r);
    }
  }

  /** The step the indexer takes for one lemma of a page keeps frequency equal
      to the number of index rows, provided the page had no row for it. */
  lemma AddEdgeKeepsConsistent(db: Db, page: PageId, k: LemmaKey, rank: nat)
    requires Consistent(db)
    requires page in db.pages && k.site == db.pages[page].site && rank > 0
    requires EdgeCount(db.indexes, page, k) == 0
    ensures Consistent(AddEdge(db, page, k, rank))
  {
    var d := AddEdge(db, page, k, rank);
    var r := IndexRow(page, k, rank);
    forall page', k' ensures EdgeCount(d.indexes, page', k') <= 1 {
      AppendCounts(db.indexes, r, page', k');
    }
    if k !in db.lemmas {
      forall x | x in db.indexes ensures x.key != k {
        assert RowOk(db, x);
      }
      RowCountZeroWithoutRows(db.indexes, k);
    }
    forall k' | k' in d.lemmas ensures k'.site in d.sites && d.lemmas[k'] == RowCount(d.indexes, k') {
      AppendCounts(db.indexes, r, page, k');
    }
    forall x | x in d.indexes ensures RowOk(d, x) {
      if x in db.indexes { assert RowOk(db, x); }
    }
  }

  /** Saving a page adds exactly its path to the paths in the store. */
  lemma PathsOfAddPage(db: Db, row: PageRow)
    requires PagesOk(db)
    ensures Paths(AddPage(db, row)) == Paths(db) + {row.path}
  {
    var d := AddPage(db, row);
    assert db.nextPageId in d.pages && d.pages[db.nextPageId].path == row.path;
    forall path | path in Paths(db) ensures path in Paths(d) {
      var p :| p in db.pages && db.pages[p].path == path;
      assert p in d.pages && d.pages[p] == db.pages[p];
    }
  }

  /** A page id the store has not handed out yet has no index row. */
  lemma FreshPageHasNoEdges(db: Db, page: PageId)
    requires Consistent(db)
    requires page !in db.pages
    ensures forall k :: EdgeCount(db.indexes, page, k) == 0
  {
    forall k ensures EdgeCount(db.indexes, page, k) == 0 {
      forall r | r in db.indexes ensures !(r.page == page && r.key == k) {
        assert RowOk(db, r);
      }
      EdgeCountZeroMeansNoRow(db.indexes, page, k);
    }
  }

  /** Upserting a site row under its own url keeps the invariant. */
  lemma SaveSiteKeepsConsistent(db: Db, row: SiteRow)
    requires Consistent(db)
    ensures Consistent(db.(sites := db.sites[row.url := row]))
  {
    var d := db.(sites := db.sites[row.url := row]);
    forall r | r in d.indexes ensures RowOk(d, r) {
      assert RowOk(db, r);
    }
  }

  /** The invariant the indexer exists to keep: the frequency of a lemma is
      the number of distinct pages that have an index row for it. */
  lemma FrequencyIsPageCount(db: Db, k: LemmaKey)
    requires Consistent(db)
    ensures Freq(db, k) == |PagesWith(db.indexes, k)|
  {
    if k in db.lemmas {
      RowCountIsPageCount(db.indexes, k);
    } else {
      forall r | r in db.indexes ensures r.key != k {
        assert RowOk(db, r);
      }
      assert PagesWith(db.indexes, k) == {};
    }
  }

  lemma {:induction false} RowCountIsPageCount(idx: seq<IndexRow>, k: LemmaKey)
    requires forall page :: EdgeCount(idx, page, k) <= 1
    ensures RowCount(idx, k) == |PagesWith(idx, k)|
    decreases |idx|
  {
    if idx == [] {
      assert PagesWith(idx, k) == {};
    } else {
      var init := idx[..|idx| - 1];
      var last := idx[|idx| - 1];
      assert idx == init + [last];
      forall page ensures EdgeCount(init, page, k) <= 1 {
        AppendCounts(init, last, page, k);
      }
      RowCountIsPageCount(init, k);
      if last.key == k {
        AppendCounts(init, last, last.page, k);
        EdgeCountZeroMeansNoRow(init, last.page, k);
        assert last.page !in PagesWith(init, k);
        assert PagesWith(idx, k) == PagesWith(init, k) + {last.page};
      } else {
        assert PagesWith(idx, k) == PagesWith(init, k);
      }
    }
  }

  /** The shared AtomicBoolean `indexingProcessing`. */
  class Flag {
    var value: bool

    constructor ()
      ensures !value
    {
      value := false;
    }
  }

  /** The repositories, as one mutable store. */
  class Store {
    var sites: map<Url, SiteRow>
    var pages: map<PageId, PageRow>
    var lemmas: map<LemmaKey, nat>
    var indexes: seq<IndexRow>
    var nextPageId: nat
    /** Instant.now(), modelled as a counter that every reading advances. */
    var clock: nat

    function Snapshot(): Db
      reads this
    {
      Db(sites, pages, lemmas, indexes, nextPageId)
    }

    ghost predicate Valid()
      reads this
    {
      Consistent(Snapshot())
    }

    constructor ()
      ensures Valid() && Snapshot() == EmptyDb
    {
      sites, pages, lemmas, indexes, nextPageId, clock := map[], map[], map[], [], 0, 0;
    }

    method Now() returns (t: nat)
      modifies this`clock
      ensures t == old(clock) && clock == old(clock) + 1
    {
      t := clock;
      clock := clock + 1;
    }

    /** siteRepository.save */
    method SaveSite(row: SiteRow)
      requires Valid()
      modifies this`sites
      ensures Valid()
      ensures sites == old(sites)[row.url := row]
    {
      SaveSiteKeepsConsistent(Snapshot(), row);
      sites := sites[row.url := row];
    }

    /** siteRepository.deleteById, with its cascade */
    method DeleteSiteByUrl(u: Url)
      requires Valid()
      modifies this`sites, this`pages, this`lemmas, this`indexes
      ensures Valid()
      ensures Snapshot() == DeleteSite(old(Snapshot()), u)
    {
      DeleteSiteKeepsConsistent(Snapshot(), u);
      var d := DeleteSite(Snapshot(), u);
      sites, pages, lemmas, indexes := d.sites, d.pages, d.lemmas, d.indexes;
    }

    /** pageRepository.save of a new page */
    method SavePage(row: PageRow) returns (id: PageId)
      requires Valid()
      requires row.site in sites && !PathExists(Snapshot(), row.path)
      modifies this`pages, this`nextPageId
      ensures Valid()
      ensures id == old(nextPageId) && id !in old(pages)
      ensures Snapshot() == AddPage(old(Snapshot()), row)
    {
      AddPageKeepsConsistent(Snapshot(), row);
      id := nextPageId;
      pages := pages[id := row];
      nextPageId := nextPageId + 1;
    }

    /** lemmaRepository.save of the lemma row with its raised frequency,
        then indexRepository.save of the page's edge to it. */
    method SaveLemmaAndIndexRows(k: LemmaKey, frequency: nat, row: IndexRow)
      requires Valid()
      requires row.key == k && row.page in pages && k.site == pages[row.page].site && row.rank > 0
      requires EdgeCount(indexes, row.page, k) == 0
      requires frequency == Freq(Snapshot(), k) + 1
      modifies this`lemmas, this`indexes
      ensures Valid()
      ensures Snapshot() == AddEdge(old(Snapshot()), row.page, k, row.rank)
    {
      AddEdgeKeepsConsistent(Snapshot(), row.page, k, row.rank);
      lemmas := lemmas[k := frequency];
      indexes := indexes + [row];
    }
  }
}
