/** IndexingServiceImpl: the life of a site row around a crawl. Every
    indexing job deletes the old row of the configured site (and with it, by
    cascade, its pages, lemmas and index rows), saves a fresh row with status
    INDEXING, crawls from the start link, and turns the row INDEXED only when
    the flag is still set afterwards. The jobs run one after the other here. */
module IndexingService {
  import opened Util
  import opened Store
  import opened LemmasAndIndexes
  import opened CreatingSiteMap

  /** A site of the configuration file (searchengine.config.Site). */
  datatype SiteConfig = SiteConfig(url: Url, name: string)

  /** The row mapAndSaveSiteEntityWithIndexingStatus saves, without its time. */
  function IndexingRow(site: SiteConfig): SiteRow
  {
    SiteRow(site.url, site.name, INDEXING, 0, None)
  }

  /** mapAndSaveSiteEntityWithIndexingStatus */
  method MapAndSaveSiteEntityWithIndexingStatus(store: Store, site: SiteConfig) returns (row: SiteRow)
    requires store.Valid()
    modifies store`sites, store`clock
    ensures store.Valid()
    ensures row == IndexingRow(site).(statusTime := old(store.clock))
    ensures store.sites == old(store.sites)[site.url := row]
    ensures store.Snapshot() == old(store.Snapshot()).(sites := store.sites)
  {
    var now := store.Now();
    row := SiteRow(site.url, site.name, INDEXING, now, None);
    store.SaveSite(row);
  }

  /** updateStatusIndexed */
  method UpdateStatusIndexed(store: Store, url: Url)
    requires store.Valid() && url in store.sites
    modifies store`sites, store`clock
    ensures store.Valid()
    ensures store.sites == old(store.sites)[url := old(store.sites[url]).(status := INDEXED, statusTime := old(store.clock))]
    ensures store.Snapshot() == old(store.Snapshot()).(sites := store.sites)
  {
    var now := store.Now();
    store.SaveSite(store.sites[url].(status := INDEXED, statusTime := now));
  }

  /** The store after the old row of `url` was removed: nothing of the site
      is left, and everything of the other sites is kept. */
  ghost predicate Cleared(db0: Db, db: Db, url: Url)
  {
    && db.sites.Keys == db0.sites.Keys - {url}
    && (forall u :: u in db.sites ==> db.sites[u] == db0.sites[u])
    && db.nextPageId == db0.nextPageId
    && (forall p :: p in db.pages ==> db.pages[p].site != url)
    && (forall p :: p in db.pages ==> p in db0.pages && db.pages[p] == db0.pages[p])
    && (forall p :: p in db0.pages && db0.pages[p].site != url ==> p in db.pages && db.pages[p] == db0.pages[p])
    && (forall r :: r in db.indexes ==> r.key.site != url)
    && (forall r :: r in db.indexes ==> r in db0.indexes)
    && (forall r :: r in db0.indexes && r.key.site != url ==> r in db.indexes)
    && (forall p, k :: EdgeCount(db.indexes, p, k) == if k.site == url then 0 else EdgeCount(db0.indexes, p, k))
  }

  /** siteRepository.deleteById, with its cascade, clears the site. */
  lemma ClearedByDelete(db0: Db, url: Url)
    requires Consistent(db0)
    ensures Cleared(db0, DeleteSite(db0, url), url)
  {
    forall p, k
      ensures EdgeCount(DropSite(db0.indexes, url), p, k) == if k.site == url then 0 else EdgeCount(db0.indexes, p, k)
    {
      if k.site == url {
        EdgeCountZeroMeansNoRow(DropSite(db0.indexes, url), p, k);
      } else {
        EdgeCountDropOther(db0.indexes, url, p, k);
      }
    }
  }

  /** A site without a row has nothing to clear: a consistent store keeps
      no page and no index row of it. */
  lemma ClearedWhenAbsent(db0: Db, url: Url)
    requires Consistent(db0) && url !in db0.sites
    ensures Cleared(db0, db0, url)
  {
    forall r | r in db0.indexes ensures r.key.site != url {
      assert RowOk(db0, r);
    }
    forall p: PageId, k: LemmaKey | k.site == url ensures EdgeCount(db0.indexes, p, k) == 0 {
      EdgeCountZeroMeansNoRow(db0.indexes, p, k);
    }
  }

  /** The paths of the pages of the sites other than `url`. */
  ghost function PathsOutside(db: Db, url: Url): set<string>
  {
    set p | p in db.pages && db.pages[p].site != url :: db.pages[p].path
  }

  /** After the clearing, the paths stored are those of the other sites. */
  lemma PathsOfCleared(db0: Db, db: Db, url: Url)
    requires Cleared(db0, db, url)
    ensures Paths(db) == PathsOutside(db0, url)
  {
    forall path | path in PathsOutside(db0, url) ensures path in Paths(db) {
      var p :| p in db0.pages && db0.pages[p].site != url && db0.pages[p].path == path;
      assert db.pages[p].path == path;
    }
    forall path | path in Paths(db) ensures path in PathsOutside(db0, url) {
      var p :| p in db.pages && db.pages[p].path == path;
      assert db0.pages[p] == db.pages[p];
    }
  }

  /** The site rows after one indexing job, `stopped` telling whether the
      flag was cleared: the site's row is fresh, INDEXED when the flag held and
      INDEXING or FAILED otherwise, and the other rows only moved in time. */
  ghost predicate SitesReindexed(before: map<Url, SiteRow>, after: map<Url, SiteRow>, site: SiteConfig, stopped: bool)
  {
    && after.Keys == before.Keys + {site.url}
    && (forall u :: u in before && u != site.url ==> Untimed(after[u]) == Untimed(before[u]))
    && (!stopped ==> Untimed(after[site.url]) == IndexingRow(site).(status := INDEXED))
    && (stopped ==>
          || Untimed(after[site.url]) == IndexingRow(site)
          || Untimed(after[site.url]) == Failed(IndexingRow(site), 0))
  }

  /** The pages and index rows after one indexing job: the other sites'
      are kept as they were, and every page and index row of the site comes
      from the new crawl, each page fetched from a link and indexed, each
      row ranking its lemma by its count in the page. */
  ghost predicate ContentReindexed(db0: Db, db: Db, url: Url, root: string, web: Web, m: Morphology)
  {
    && db0.nextPageId <= db.nextPageId
    && (forall p :: p in db0.pages && db0.pages[p].site != url ==>
          p in db.pages && db.pages[p] == db0.pages[p])
    && (forall p :: p in db.pages && db.pages[p].site != url ==>
          p in db0.pages && db.pages[p] == db0.pages[p])
    && (forall p :: p in db.pages && db.pages[p].site == url ==>
          p >= db0.nextPageId && PageFromWeb(db, p, url, root, web, m))
    && (forall r :: r in db0.indexes && r.key.site != url ==> r in db.indexes)
    && (forall r :: r in db.indexes && r.key.site != url ==> r in db0.indexes)
    && (forall r :: r in db.indexes && r.key.site == url ==>
          r.page >= db0.nextPageId && RankIsCount(db, r, m))
    && (forall p: PageId, k :: p < db0.nextPageId ==>
          EdgeCount(db.indexes, p, k) == if k.site == url then 0 else EdgeCount(db0.indexes, p, k))
  }

  /** One indexing job for `site`, crawling under `root`: the site rows and
      the content as such a job leaves them. */
  ghost predicate Reindexed(db0: Db, db: Db, site: SiteConfig, root: string, web: Web, m: Morphology, stopped: bool)
  {
    SitesReindexed(db0.sites, db.sites, site, stopped) && ContentReindexed(db0, db, site.url, root, web, m)
  }

  /** The rows of a crawl's site after the old rows were dropped: all
      belong to pages of the crawl; and all earlier rows are kept. */
  lemma RowsOfSiteAfterCrawl(db1: Db, db2: Db, url: Url, m: Morphology)
    requires forall r :: r in db1.indexes ==> r.key.site != url
    requires RowsOfNewPages(db1, db2, m)
    ensures forall r :: r in db2.indexes && r.key.site == url ==>
              r.page >= db1.nextPageId && RankIsCount(db2, r, m)
    ensures forall r :: r in db1.indexes ==> r in db2.indexes
  {
    var n := |db1.indexes|;
    forall j | 0 <= j < n ensures db2.indexes[j] == db1.indexes[j] && db2.indexes[j].key.site != url {
      assert db2.indexes[j] == db2.indexes[..n][j];
      assert db1.indexes[j] in db1.indexes;
    }
    forall r | r in db2.indexes && r.key.site == url
      ensures r.page >= db1.nextPageId && RankIsCount(db2, r, m)
    {
      var j :| 0 <= j < |db2.indexes| && db2.indexes[j] == r;
    }
  }

  /** The site rows through generalMethod. */
  lemma SitesOfJob(s0: map<Url, SiteRow>, sC: map<Url, SiteRow>, s2: map<Url, SiteRow>, s3: map<Url, SiteRow>,
                   site: SiteConfig, row: SiteRow, stopped: bool, now: nat)
    requires sC.Keys == s0.Keys - {site.url} && forall u :: u in sC ==> sC[u] == s0[u]
    requires Untimed(row) == IndexingRow(site)
    requires SitesAfterCrawl(sC[site.url := row], s2, site.url, stopped)
    requires !stopped ==> s3 == s2[site.url := s2[site.url].(status := INDEXED, statusTime := now)]
    requires stopped ==> s3 == s2
    ensures SitesReindexed(s0, s3, site, stopped)
  {
    var s1 := sC[site.url := row];
    forall u | u in s0 && u != site.url
      ensures Untimed(s3[u]) == Untimed(s0[u])
    {
      assert s1[u] == s0[u];
    }
  }

  /** The pages and index rows through generalMethod. */
  lemma ContentOfJob(db0: Db, dbC: Db, db1: Db, db2: Db, db3: Db, url: Url, root: string, web: Web, m: Morphology, stopped: bool)
    requires Cleared(db0, dbC, url) && PagesOk(db1) && RowsOk(db2)
    requires db1 == dbC.(sites := db1.sites)
    requires Crawled(db1, db2, url, root, web, m, stopped)
    requires db3 == db2.(sites := db3.sites)
    ensures ContentReindexed(db0, db3, url, root, web, m)
  {
    PagesOfJob(db0, dbC, db1, db2, db3, url, root, web, m, stopped);
    RowsOfSiteAfterCrawl(db1, db2, url, m);
    RowsOfOthersAfterCrawl(db0, dbC, db1, db2, url, root, web, m, stopped);
    EdgesOfJob(db0, dbC, db1, db2, url, root, web, m, stopped);
    assert forall r :: r in db2.indexes && r.key.site == url ==> RankIsCount(db3, r, m);
  }

  lemma PagesOfJob(db0: Db, dbC: Db, db1: Db, db2: Db, db3: Db, url: Url, root: string, web: Web, m: Morphology, stopped: bool)
    requires Cleared(db0, dbC, url)
    requires db1 == dbC.(sites := db1.sites)
    requires Crawled(db1, db2, url, root, web, m, stopped)
    requires db3 == db2.(sites := db3.sites)
    ensures forall p :: p in db0.pages && db0.pages[p].site != url ==> p in db3.pages && db3.pages[p] == db0.pages[p]
    ensures forall p :: p in db3.pages && db3.pages[p].site != url ==> p in db0.pages && db3.pages[p] == db0.pages[p]
    ensures forall p :: p in db3.pages && db3.pages[p].site == url ==> p >= db0.nextPageId && PageFromWeb(db3, p, url, root, web, m)
  {
    forall p | p in db3.pages && db3.pages[p].site == url ensures p >= db0.nextPageId && PageFromWeb(db3, p, url, root, web, m) {
      assert p !in db1.pages;
      PageFromWebSame(db2, db3, p, url, root, web, m);
    }
  }

  /** The rows of the other sites after a job are rows they had before. */
  lemma RowsOfOthersAfterCrawl(db0: Db, dbC: Db, db1: Db, db2: Db, url: Url, root: string, web: Web, m: Morphology, stopped: bool)
    requires Cleared(db0, dbC, url) && PagesOk(db1) && RowsOk(db2)
    requires db1 == dbC.(sites := db1.sites)
    requires Crawled(db1, db2, url, root, web, m, stopped)
    ensures forall r :: r in db2.indexes && r.key.site != url ==> r in db0.indexes
  {
    var n := |db1.indexes|;
    forall r | r in db2.indexes && r.key.site != url ensures r in db0.indexes {
      var j :| 0 <= j < |db2.indexes| && db2.indexes[j] == r;
      assert RowOk(db2, r);
      if j < n {
        assert r == db2.indexes[..n][j] && r in dbC.indexes;
      } else {
        assert false;
      }
    }
  }

  /** The rows of the pages stored before a job change only by losing the
      rows of the job's site. */
  lemma EdgesOfJob(db0: Db, dbC: Db, db1: Db, db2: Db, url: Url, root: string, web: Web, m: Morphology, stopped: bool)
    requires Cleared(db0, dbC, url)
    requires db1 == dbC.(sites := db1.sites)
    requires Crawled(db1, db2, url, root, web, m, stopped)
    ensures forall p: PageId, k :: p < db0.nextPageId ==>
              EdgeCount(db2.indexes, p, k) == if k.site == url then 0 else EdgeCount(db0.indexes, p, k)
  {
    forall p: PageId, k | p < db0.nextPageId
      ensures EdgeCount(db2.indexes, p, k) == if k.site == url then 0 else EdgeCount(db0.indexes, p, k)
    {
      EdgesKept(db1.indexes, db2.indexes, p);
    }
  }

  /** generalMethod: one indexing job for `site`, crawling from `link`,
      which is also the prefix every accepted link must contain. */
  method GeneralMethod(store: Store, flag: Flag, site: SiteConfig, link: Url, web: Web, m: Morphology, depth: nat)
    requires store.Valid()
    modifies store`pages, store`nextPageId, store`lemmas, store`indexes, store`sites, store`clock, flag
    ensures store.Valid() && site.url in store.sites
    ensures flag.value ==> old(flag.value)
    ensures old(flag.value) && NoStop(web) ==> flag.value
    ensures Reindexed(old(store.Snapshot()), store.Snapshot(), site, link, web, m, !flag.value)
    ensures CrawledAt(old(store.Snapshot()), store.Snapshot(), site.url, link, web, m, !flag.value)
  {
    ghost var db0 := store.Snapshot();
    if site.url in store.sites {
      ClearedByDelete(db0, site.url);
      store.DeleteSiteByUrl(site.url);
    } else {
      ClearedWhenAbsent(db0, site.url);
    }
    ghost var dbC := store.Snapshot();
    PathsOfCleared(db0, dbC, site.url);
    var row := MapAndSaveSiteEntityWithIndexingStatus(store, site);
    ghost var db1 := store.Snapshot();
    assert Paths(db1) == Paths(dbC);
    var task := new SiteMapTask(site.url, link, link, store, flag);
    task.Run(web, m, depth);
    ghost var db2 := store.Snapshot();
    ghost var now := store.clock;
    if flag.value {
      UpdateStatusIndexed(store, site.url);
    }
    JobOutcome(db0, dbC, db1, db2, store.Snapshot(), site, link, web, m, row, task.taskList, !flag.value, now);
  }

  /** What generalMethod leaves behind, from the clearing, the fresh row,
      the crawl and the final status. */
  lemma JobOutcome(db0: Db, dbC: Db, db1: Db, db2: Db, db3: Db, site: SiteConfig, link: Url, web: Web, m: Morphology,
                   row: SiteRow, tasks: seq<string>, stopped: bool, now: nat)
    requires Cleared(db0, dbC, site.url) && PagesOk(db1) && PagesOk(db2) && RowsOk(db2)
    requires Untimed(row) == IndexingRow(site) && db1 == dbC.(sites := dbC.sites[site.url := row])
    requires Paths(db1) == PathsOutside(db0, site.url)
    requires Crawled(db1, db2, site.url, link, web, m, stopped)
    requires RootCrawl(Paths(db1), db1.nextPageId, db2, site.url, link, link, web, m, tasks, stopped)
    requires !stopped ==> db3 == db2.(sites := db2.sites[site.url := db2.sites[site.url].(status := INDEXED, statusTime := now)])
    requires stopped ==> db3 == db2
    ensures Reindexed(db0, db3, site, link, web, m, stopped)
    ensures CrawledAt(db0, db3, site.url, link, web, m, stopped)
  {
    SitesOfJob(db0.sites, dbC.sites, db2.sites, db3.sites, site, row, stopped, now);
    ContentOfJob(db0, dbC, db1, db2, db3, site.url, link, web, m, stopped);
    assert db1.nextPageId == db0.nextPageId;
    JobCrawledAt(db0, db1, db2, db3, site.url, link, web, m, tasks, stopped);
  }

  /** The final status leaves the first node of the crawl in place. */
  lemma JobCrawledAt(db0: Db, db1: Db, db2: Db, db3: Db, url: Url, link: Url, web: Web, m: Morphology,
                     tasks: seq<string>, stopped: bool)
    requires PagesOk(db2) && db1.nextPageId == db0.nextPageId && Paths(db1) == PathsOutside(db0, url)
    requires RootCrawl(Paths(db1), db1.nextPageId, db2, url, link, link, web, m, tasks, stopped)
    requires db3.pages == db2.pages && db3.indexes == db2.indexes && db3.nextPageId == db2.nextPageId
    ensures CrawledAt(db0, db3, url, link, web, m, stopped)
  {
    assert db3.indexes[..|db2.indexes|] == db2.indexes;
    RootCrawlKept(Paths(db1), db1.nextPageId, db2, db3, url, link, link, web, m, tasks, stopped, stopped);
  }

  /** The site rows after the jobs for config[..i]: each configured site
      has a row, and all of them are INDEXED while the flag holds. */
  ghost predicate JobsDone(before: map<Url, SiteRow>, after: map<Url, SiteRow>, config: seq<SiteConfig>, i: nat,
                           stopped: bool)
    requires i <= |config|
  {
    && after.Keys == before.Keys + (set j | 0 <= j < i :: config[j].url)
    && (!stopped ==> forall j :: 0 <= j < i ==> after[config[j].url].status == INDEXED)
  }

  /** The job for config[i] extends the jobs before it. */
  lemma JobsStep(s0: map<Url, SiteRow>, s1: map<Url, SiteRow>, s2: map<Url, SiteRow>, config: seq<SiteConfig>,
                 i: nat, stopped1: bool, stopped2: bool)
    requires i < |config|
    requires JobsDone(s0, s1, config, i, stopped1)
    requires SitesReindexed(s1, s2, config[i], stopped2)
    requires !stopped2 ==> !stopped1
    ensures JobsDone(s0, s2, config, i + 1, stopped2)
  {
    assert (set j | 0 <= j < i + 1 :: config[j].url) == (set j | 0 <= j < i :: config[j].url) + {config[i].url};
    if !stopped2 {
      forall j | 0 <= j < i + 1 ensures s2[config[j].url].status == INDEXED {
        if config[j].url != config[i].url {
          assert Untimed(s2[config[j].url]) == Untimed(s1[config[j].url]);
        }
      }
    }
  }

  /** The store `db` holds the first node of the crawl of `site` from
      `link` that a job started on `db0`: the clearing left the paths of the
      other sites and the next page id as they were. */
  ghost predicate CrawledAt(db0: Db, db: Db, site: Url, link: Url, web: Web, m: Morphology, stopped: bool)
  {
    exists tasks :: RootCrawl(PathsOutside(db0, site), db0.nextPageId, db, site, link, link, web, m, tasks, stopped)
  }

  /** The urls of config[..i]. */
  function Urls(config: seq<SiteConfig>, i: nat): set<Url>
    requires i <= |config|
  {
    set j | 0 <= j < i :: config[j].url
  }

  /** The pages and index rows after the jobs for config[..i]: the sites
      outside the configuration keep theirs and get no others, and every page
      of a configured site is new, fetched from a link and indexed, every row
      of a configured site new and ranking its lemma by its count. */
  ghost predicate JobsContent(db0: Db, db: Db, config: seq<SiteConfig>, i: nat, web: Web, m: Morphology)
    requires i <= |config|
  {
    && db0.nextPageId <= db.nextPageId
    && (forall p :: p in db0.pages && db0.pages[p].site !in Urls(config, i) ==>
          p in db.pages && db.pages[p] == db0.pages[p])
    && (forall p :: p in db.pages && db.pages[p].site !in Urls(config, i) ==>
          p in db0.pages && db.pages[p] == db0.pages[p])
    && (forall p :: p in db.pages && db.pages[p].site in Urls(config, i) ==>
          p >= db0.nextPageId && PageFromWeb(db, p, db.pages[p].site, db.pages[p].site, web, m))
    && (forall r :: r in db0.indexes && r.key.site !in Urls(config, i) ==> r in db.indexes)
    && (forall r :: r in db.indexes && r.key.site !in Urls(config, i) ==> r in db0.indexes)
    && (forall r :: r in db.indexes && r.key.site in Urls(config, i) ==>
          r.page >= db0.nextPageId && RankIsCount(db, r, m))
  }

  /** Job j is the last of config[..i] for its site. */
  predicate LastFor(config: seq<SiteConfig>, i: nat, j: nat)
    requires j < i <= |config|
  {
    forall j' :: j < j' < i ==> config[j'].url != config[j].url
  }

  /** After the jobs for config[..i], where job j started on trace[j], the
      store holds, for each configured site, the first node of the last
      crawl from its url, over the paths the other sites had when that job
      started and with the page ids that were next then. */
  ghost predicate JobsCrawled(trace: seq<Db>, db: Db, config: seq<SiteConfig>, i: nat, web: Web, m: Morphology,
                              stopped: bool)
    requires i <= |config| && i <= |trace|
  {
    forall j :: 0 <= j < i && LastFor(config, i, j) ==>
      CrawledAt(trace[j], db, config[j].url, config[j].url, web, m, stopped)
  }

  /** One job for `site` took `before` to `after`: it reindexed the site and
      crawled from its url. */
  ghost predicate JobRan(before: Db, after: Db, site: SiteConfig, web: Web, m: Morphology)
  {
    exists stopped :: Reindexed(before, after, site, site.url, web, m, stopped)
                      && CrawledAt(before, after, site.url, site.url, web, m, stopped)
  }

  /** trace[0] is `db0`, trace[i] is `db`, and trace[j + 1] is what the job
      for config[j] made of trace[j]: the jobs ran one after the other, in
      the order of the configuration. */
  ghost predicate JobsTrace(db0: Db, trace: seq<Db>, db: Db, config: seq<SiteConfig>, i: nat, web: Web,
                            m: Morphology)
    requires i <= |config|
  {
    && |trace| == i + 1 && trace[0] == db0 && trace[i] == db
    && forall j :: 0 <= j < i ==> JobRan(trace[j], trace[j + 1], config[j], web, m)
  }

  /** The rows a page of site `s` has, when a job for another site drops
      that site's rows and adds rows for new pages only. */
  lemma IndexedAcrossJob(db1: Db, db2: Db, p: PageId, s: Url, u: Url, content: string, m: Morphology,
                         fault: Option<nat>)
    requires Indexed(db1, p, s, content, m, fault) && s != u
    requires forall k :: EdgeCount(db2.indexes, p, k) == if k.site == u then 0 else EdgeCount(db1.indexes, p, k)
    ensures Indexed(db2, p, s, content, m, fault)
  {
    IndexedMeans(db1, p, s, content, m, fault);
    IndexedKept(db1, db2, p, s, content, m, fault);
  }

  lemma PageFromWebAcrossJob(db1: Db, db2: Db, p: PageId, s: Url, root: string, u: Url, web: Web, m: Morphology)
    requires PageFromWeb(db1, p, s, root, web, m) && s != u
    requires p in db2.pages && db2.pages[p] == db1.pages[p]
    requires forall k :: EdgeCount(db2.indexes, p, k) == if k.site == u then 0 else EdgeCount(db1.indexes, p, k)
    ensures PageFromWeb(db2, p, s, root, web, m)
  {
    var a :| && LinkShapeOk(a, root, Href(a)) && db1.pages[p].path == Href(a) && db1.pages[p].content == web.content(a)
             && Indexed(db1, p, s, web.content(a), m, web.fault(a));
    IndexedAcrossJob(db1, db2, p, s, u, web.content(a), m, web.fault(a));
  }

  /** A job for another site keeps the first node of a crawl of `s`. */
  lemma RootCrawlAcrossJob(taken: set<string>, next: nat, db1: Db, db2: Db, s: Url, u: Url, web: Web, m: Morphology,
                           tasks: seq<string>, stopped1: bool, stopped2: bool)
    requires PagesOk(db1) && s != u && (!stopped2 ==> !stopped1)
    requires RootCrawl(taken, next, db1, s, s, s, web, m, tasks, stopped1)
    requires ContentReindexed(db1, db2, u, u, web, m)
    ensures RootCrawl(taken, next, db2, s, s, s, web, m, tasks, stopped2)
  {
    forall i | 0 <= i < |tasks| ensures RootPage(db2, next + i, s, web.status(s), tasks[i], web, m) {
      RootPageAcrossJob(db1, db2, next + i, s, u, web.status(s), tasks[i], web, m);
    }
  }

  /** A job for another site keeps a page of `s` that a crawl saved. */
  lemma RootPageAcrossJob(db1: Db, db2: Db, p: PageId, s: Url, u: Url, code: int, a: string, web: Web, m: Morphology)
    requires PagesOk(db1) && s != u
    requires ContentReindexed(db1, db2, u, u, web, m)
    ensures RootPage(db1, p, s, code, a, web, m) ==> RootPage(db2, p, s, code, a, web, m)
  {
    if RootPage(db1, p, s, code, a, web, m) {
      IndexedAcrossJob(db1, db2, p, s, u, web.content(a), m, web.fault(a));
    }
  }

  /** The pages through the job for config[i]. */
  lemma JobsPagesStep(db0: Db, db1: Db, db2: Db, config: seq<SiteConfig>, i: nat, web: Web, m: Morphology)
    requires i < |config| && PagesOk(db1)
    requires JobsContent(db0, db1, config, i, web, m)
    requires ContentReindexed(db1, db2, config[i].url, config[i].url, web, m)
    ensures forall p :: p in db0.pages && db0.pages[p].site !in Urls(config, i + 1) ==>
              p in db2.pages && db2.pages[p] == db0.pages[p]
    ensures forall p :: p in db2.pages && db2.pages[p].site !in Urls(config, i + 1) ==>
              p in db0.pages && db2.pages[p] == db0.pages[p]
    ensures forall p :: p in db2.pages && db2.pages[p].site in Urls(config, i + 1) ==>
              p >= db0.nextPageId && PageFromWeb(db2, p, db2.pages[p].site, db2.pages[p].site, web, m)
  {
    var u := config[i].url;
    assert Urls(config, i + 1) == Urls(config, i) + {u};
    forall p | p in db2.pages && db2.pages[p].site in Urls(config, i + 1)
      ensures p >= db0.nextPageId && PageFromWeb(db2, p, db2.pages[p].site, db2.pages[p].site, web, m)
    {
      var s := db2.pages[p].site;
      if s != u {
        assert p in db1.pages && db1.pages[p] == db2.pages[p];
        PageOfEarlierJob(db0, db1, db2, config, i, p, web, m);
      }
    }
  }

  /** A page of a site of config[..i] that the job for config[i] keeps. */
  lemma PageOfEarlierJob(db0: Db, db1: Db, db2: Db, config: seq<SiteConfig>, i: nat, p: PageId, web: Web,
                         m: Morphology)
    requires i < |config| && PagesOk(db1)
    requires JobsContent(db0, db1, config, i, web, m)
    requires ContentReindexed(db1, db2, config[i].url, config[i].url, web, m)
    requires p in db1.pages && db1.pages[p].site in Urls(config, i) && db1.pages[p].site != config[i].url
    requires p in db2.pages && db2.pages[p] == db1.pages[p]
    ensures p >= db0.nextPageId && PageFromWeb(db2, p, db1.pages[p].site, db1.pages[p].site, web, m)
  {
    assert p < db1.nextPageId;
    PageFromWebAcrossJob(db1, db2, p, db1.pages[p].site, db1.pages[p].site, config[i].url, web, m);
  }

  /** The index rows through the job for config[i]. */
  lemma JobsRowsStep(db0: Db, db1: Db, db2: Db, config: seq<SiteConfig>, i: nat, web: Web, m: Morphology)
    requires i < |config| && RowsOk(db1)
    requires JobsContent(db0, db1, config, i, web, m)
    requires ContentReindexed(db1, db2, config[i].url, config[i].url, web, m)
    ensures forall r :: r in db0.indexes && r.key.site !in Urls(config, i + 1) ==> r in db2.indexes
    ensures forall r :: r in db2.indexes && r.key.site !in Urls(config, i + 1) ==> r in db0.indexes
    ensures forall r :: r in db2.indexes && r.key.site in Urls(config, i + 1) ==>
              r.page >= db0.nextPageId && RankIsCount(db2, r, m)
  {
    var u := config[i].url;
    assert Urls(config, i + 1) == Urls(config, i) + {u};
    forall r | r in db2.indexes && r.key.site in Urls(config, i + 1) && r.key.site != u
      ensures r.page >= db0.nextPageId && RankIsCount(db2, r, m)
    {
      assert RowOk(db1, r);
    }
  }

  /** The jobs for config[..i] and the job for config[i]. */
  lemma JobsContentStep(db0: Db, db1: Db, db2: Db, config: seq<SiteConfig>, i: nat, web: Web, m: Morphology)
    requires i < |config| && PagesOk(db1) && RowsOk(db1)
    requires JobsContent(db0, db1, config, i, web, m)
    requires ContentReindexed(db1, db2, config[i].url, config[i].url, web, m)
    ensures JobsContent(db0, db2, config, i + 1, web, m)
  {
    JobsPagesStep(db0, db1, db2, config, i, web, m);
    JobsRowsStep(db0, db1, db2, config, i, web, m);
  }

  /** The crawls through the job for config[i], which started on db1. */
  lemma JobsCrawledStep(trace: seq<Db>, db1: Db, db2: Db, config: seq<SiteConfig>, i: nat, web: Web, m: Morphology,
                        stopped1: bool, stopped2: bool)
    requires i < |config| && i <= |trace| && PagesOk(db1) && (!stopped2 ==> !stopped1)
    requires JobsCrawled(trace, db1, config, i, web, m, stopped1)
    requires ContentReindexed(db1, db2, config[i].url, config[i].url, web, m)
    requires CrawledAt(db1, db2, config[i].url, config[i].url, web, m, stopped2)
    ensures JobsCrawled(trace[..i] + [db1], db2, config, i + 1, web, m, stopped2)
  {
    var t := trace[..i] + [db1];
    forall j | 0 <= j < i + 1 && LastFor(config, i + 1, j)
      ensures CrawledAt(t[j], db2, config[j].url, config[j].url, web, m, stopped2)
    {
      if j < i {
        assert LastFor(config, i, j) && t[j] == trace[j];
        var tasks :| RootCrawl(PathsOutside(trace[j], config[j].url), trace[j].nextPageId, db1, config[j].url,
                               config[j].url, config[j].url, web, m, tasks, stopped1);
        RootCrawlAcrossJob(PathsOutside(trace[j], config[j].url), trace[j].nextPageId, db1, db2, config[j].url,
                           config[i].url, web, m, tasks, stopped1, stopped2);
      }
    }
  }

  /** What the jobs for config[..i], started on `db0`, have done: they ran
      one after the other through `trace`, the flag is only cleared by a stop
      point, and the statuses, the content and the crawls are as those jobs
      leave them. */
  ghost predicate JobsInv(db0: Db, trace: seq<Db>, db: Db, config: seq<SiteConfig>, i: nat, web: Web, m: Morphology,
                          flag: bool)
    requires i <= |config|
  {
    && JobsTrace(db0, trace, db, config, i, web, m)
    && (NoStop(web) ==> flag)
    && JobsDone(db0.sites, db.sites, config, i, !flag)
    && JobsContent(db0, db, config, i, web, m)
    && JobsCrawled(trace, db, config, i, web, m, !flag)
  }

  /** The jobs for config[..i] and the job for config[i]. */
  lemma JobStep(db0: Db, trace: seq<Db>, before: Db, after: Db, config: seq<SiteConfig>, i: nat, web: Web,
                m: Morphology, flagBefore: bool, flagAfter: bool)
    requires i < |config| && PagesOk(before) && RowsOk(before)
    requires (flagAfter ==> flagBefore) && (flagBefore && NoStop(web) ==> flagAfter)
    requires JobsInv(db0, trace, before, config, i, web, m, flagBefore)
    requires Reindexed(before, after, config[i], config[i].url, web, m, !flagAfter)
    requires CrawledAt(before, after, config[i].url, config[i].url, web, m, !flagAfter)
    ensures JobsInv(db0, trace + [after], after, config, i + 1, web, m, flagAfter)
  {
    JobsStep(db0.sites, before.sites, after.sites, config, i, !flagBefore, !flagAfter);
    JobsContentStep(db0, before, after, config, i, web, m);
    JobsTraceStep(db0, trace, before, after, config, i, web, m, !flagAfter);
    JobsCrawledStep(trace, before, after, config, i, web, m, !flagBefore, !flagAfter);
  }

  /** The trace through the job for config[i]. */
  lemma JobsTraceStep(db0: Db, trace: seq<Db>, before: Db, after: Db, config: seq<SiteConfig>, i: nat, web: Web,
                      m: Morphology, stopped: bool)
    requires i < |config|
    requires JobsTrace(db0, trace, before, config, i, web, m)
    requires Reindexed(before, after, config[i], config[i].url, web, m, stopped)
    requires CrawledAt(before, after, config[i].url, config[i].url, web, m, stopped)
    ensures trace[..i] + [before] == trace
    ensures JobsTrace(db0, trace + [after], after, config, i + 1, web, m)
  {
    assert trace[..i] + [before] == trace;
    var t := trace + [after];
    forall j | 0 <= j < i + 1 ensures JobRan(t[j], t[j + 1], config[j], web, m) {
      if j < i {
        assert t[j] == trace[j] && t[j + 1] == trace[j + 1];
      }
    }
  }

  /** startIndexing: set the flag, then one job per configured site, in
      the order of the configuration, each crawling from the site's url;
      `trace` holds the store as each job found it, and the final store. */
  method StartIndexing(store: Store, flag: Flag, config: seq<SiteConfig>, web: Web, m: Morphology, depth: nat)
    returns (ghost trace: seq<Db>)
    requires store.Valid()
    modifies store`pages, store`nextPageId, store`lemmas, store`indexes, store`sites, store`clock, flag
    ensures store.Valid()
    ensures JobsInv(old(store.Snapshot()), trace, store.Snapshot(), config, |config|, web, m, flag.value)
  {
    flag.value := true;
    trace := [store.Snapshot()];
    JobsStart(store.Snapshot(), config, web, m);
    for i := 0 to |config|
      invariant store.Valid()
      invariant JobsInv(old(store.Snapshot()), trace, store.Snapshot(), config, i, web, m, flag.value)
    {
      trace := RunJob(store, flag, config, i, web, m, depth, old(store.Snapshot()), trace);
    }
  }

  /** Before the first job nothing is done. */
  lemma JobsStart(db0: Db, config: seq<SiteConfig>, web: Web, m: Morphology)
    ensures JobsInv(db0, [db0], db0, config, 0, web, m, true)
  {
    assert Urls(config, 0) == {};
  }

  /** The job for config[i] inside startIndexing. */
  method RunJob(store: Store, flag: Flag, config: seq<SiteConfig>, i: nat, web: Web, m: Morphology, depth: nat,
                ghost db0: Db, ghost trace: seq<Db>) returns (ghost trace': seq<Db>)
    requires i < |config| && store.Valid()
    requires JobsInv(db0, trace, store.Snapshot(), config, i, web, m, flag.value)
    modifies store`pages, store`nextPageId, store`lemmas, store`indexes, store`sites, store`clock, flag
    ensures store.Valid() && trace' == trace + [store.Snapshot()]
    ensures JobsInv(db0, trace', store.Snapshot(), config, i + 1, web, m, flag.value)
  {
    ghost var before := store.Snapshot();
    ghost var flagBefore := flag.value;
    GeneralMethod(store, flag, config[i], config[i].url, web, m, depth);
    JobStep(db0, trace, before, store.Snapshot(), config, i, web, m, flagBefore, flag.value);
    trace' := trace + [store.Snapshot()];
  }

  /** indexPage: set the flag and run one job for `site` from `link`. */
  method IndexPage(store: Store, flag: Flag, site: SiteConfig, link: Url, web: Web, m: Morphology, depth: nat)
    requires store.Valid()
    modifies store`pages, store`nextPageId, store`lemmas, store`indexes, store`sites, store`clock, flag
    ensures store.Valid() && site.url in store.sites
    ensures NoStop(web) ==> flag.value
    ensures Reindexed(old(store.Snapshot()), store.Snapshot(), site, link, web, m, !flag.value)
    ensures CrawledAt(old(store.Snapshot()), store.Snapshot(), site.url, link, web, m, !flag.value)
  {
    flag.value := true;
    GeneralMethod(store, flag, site, link, web, m, depth);
  }
}
