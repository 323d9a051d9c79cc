/** StatisticsServiceImpl.getStatistics: one detailed item per configured
    site, in the order of the configuration, and totals that add the items up. */
module StatisticsService {
  import opened Util
  import opened Store
  import opened IndexingService

  /** DetailedStatisticsItem(url, name, status, statusTime, error, pages, lemmas) */
  datatype Item = Item(url: string, name: string, status: string, statusTime: nat, error: string,
                       pages: nat, lemmas: nat)

  /** TotalStatistics */
  datatype Total = Total(sites: nat, indexing: bool, pages: nat, lemmas: nat)

  /** StatisticsResponse with its StatisticsData */
  datatype Statistics = Statistics(result: bool, total: Total, detailed: seq<Item>)

  const NotIndexedStatus: string := "NOT INDEXED"
  const NotIndexedError: string := "Сайт не проиндексирован"

  /** String.valueOf on the status enum. */
  function StatusName(s: StatusType): string
  {
    match s
    case INDEXING => "INDEXING"
    case INDEXED => "INDEXED"
    case FAILED => "FAILED"
  }

  /** The pages of the site with url `u`. */
  function SitePages(db: Db, u: Url): set<PageId>
  {
    set p | p in db.pages && db.pages[p].site == u
  }

  /** The lemma rows of the site with url `u`. */
  function SiteLemmas(db: Db, u: Url): set<LemmaKey>
  {
    set k | k in db.lemmas && k.site == u
  }

  /** The item for one configured site. A site with a row reports its
      counts (countBySiteEntity) and an empty error for a null lastError; a
      site without one reports NOT INDEXED, with the name in the url field
      and the url in the name field. */
  function ItemFor(db: Db, site: SiteConfig): (item: Item)
    ensures site.url !in db.sites ==>
              item == Item(site.name, site.url, NotIndexedStatus, 0, NotIndexedError, 0, 0)
    ensures site.url in db.sites ==>
              && item.url == site.url && item.name == site.name
              && item.status == StatusName(db.sites[site.url].status)
              && item.statusTime == db.sites[site.url].statusTime
              && item.pages == |SitePages(db, site.url)| && item.lemmas == |SiteLemmas(db, site.url)|
              && (db.sites[site.url].lastError == None ==> item.error == "")
              && (db.sites[site.url].lastError.Some? ==> item.error == db.sites[site.url].lastError.value)
  {
    if site.url in db.sites then
      var row := db.sites[site.url];
      var error := if row.lastError.None? then "" else row.lastError.value;
      Item(site.url, site.name, StatusName(row.status), row.statusTime, error,
           |SitePages(db, site.url)|, |SiteLemmas(db, site.url)|)
    else
      Item(site.name, site.url, NotIndexedStatus, 0, NotIndexedError, 0, 0)
  }

  function SumPages(items: seq<Item>): nat
  {
    if items == [] then 0 else SumPages(items[..|items| - 1]) + items[|items| - 1].pages
  }

  function SumLemmas(items: seq<Item>): nat
  {
    if items == [] then 0 else SumLemmas(items[..|items| - 1]) + items[|items| - 1].lemmas
  }

  /** getStatistics */
  method GetStatistics(store: Store, config: seq<SiteConfig>) returns (r: Statistics)
    ensures r.result && r.total.indexing
    ensures r.total.sites == |config|
    ensures |r.detailed| == |config|
    ensures forall i :: 0 <= i < |config| ==> r.detailed[i] == ItemFor(store.Snapshot(), config[i])
    ensures r.total.pages == SumPages(r.detailed) && r.total.lemmas == SumLemmas(r.detailed)
  {
    var db := store.Snapshot();
    var total := Total(|config|, true, 0, 0);
    var detailed: seq<Item> := [];
    for i := 0 to |config|
      invariant |detailed| == i
      invariant forall j :: 0 <= j < i ==> detailed[j] == ItemFor(db, config[j])
      invariant total == Total(|config|, true, SumPages(detailed), SumLemmas(detailed))
    {
      var item := ItemFor(db, config[i]);
      total := total.(pages := total.pages + item.pages, lemmas := total.lemmas + item.lemmas);
      assert (detailed + [item])[..i] == detailed;
      detailed := detailed + [item];
    }
    r := Statistics(true, total, detailed);
  }

  /** The urls of the configured sites. */
  function ConfigUrls(config: seq<SiteConfig>): set<Url>
  {
    set c | c in config :: c.url
  }

  /** The pages of the configured sites. */
  function ConfiguredPages(db: Db, config: seq<SiteConfig>): set<PageId>
  {
    set p | p in db.pages && db.pages[p].site in ConfigUrls(config)
  }

  predicate DistinctUrls(config: seq<SiteConfig>)
  {
    forall i, j :: 0 <= i < j < |config| ==> config[i].url != config[j].url
  }

  /** The pages of the configured sites split into those of the last site
      and those of the others. */
  lemma ConfiguredPagesSnoc(db: Db, init: seq<SiteConfig>, last: SiteConfig)
    requires last.url !in ConfigUrls(init)
    ensures ConfiguredPages(db, init + [last]) == ConfiguredPages(db, init) + SitePages(db, last.url)
    ensures ConfiguredPages(db, init) !! SitePages(db, last.url)
  {
    assert ConfigUrls(init + [last]) == ConfigUrls(init) + {last.url};
  }

  /** An item counts the pages of its site: a site without a row has none in
      a consistent store, so its item's 0 loses nothing. */
  lemma ItemCountsSitePages(db: Db, site: SiteConfig)
    requires PagesOk(db)
    ensures ItemFor(db, site).pages == |SitePages(db, site.url)|
  {
    if site.url !in db.sites {
      assert SitePages(db, site.url) == {};
    }
  }

  /** With each site configured once, the last url is not among the others. */
  lemma LastUrlIsNew(config: seq<SiteConfig>)
    requires DistinctUrls(config) && config != []
    ensures config[|config| - 1].url !in ConfigUrls(config[..|config| - 1])
  {
    var n := |config| - 1;
    forall c | c in config[..n] ensures c.url != config[n].url {
      var j :| 0 <= j < n && config[..n][j] == c;
    }
  }

  /** With each site configured once, total.pages counts every stored page of
      the configured sites exactly once. */
  lemma {:induction false} TotalPagesCountsConfiguredPages(db: Db, config: seq<SiteConfig>, items: seq<Item>)
    requires PagesOk(db) && DistinctUrls(config)
    requires |items| == |config| && forall i :: 0 <= i < |config| ==> items[i] == ItemFor(db, config[i])
    ensures SumPages(items) == |ConfiguredPages(db, config)|
    decreases |config|
  {
    if config != [] {
      var n := |config| - 1;
      var init, last := config[..n], config[n];
      TotalPagesCountsConfiguredPages(db, init, items[..n]);
      assert config == init + [last];
      LastUrlIsNew(config);
      ConfiguredPagesSnoc(db, init, last);
      ItemCountsSitePages(db, last);
    }
  }
}
