/** ApiController: the /api endpoints. The controller owns the indexing
    flag that the indexing jobs watch, the configured sites, and the store
    the services read and write. */
module ApiController {
  import opened Util
  import opened Store
  import opened LemmasAndIndexes
  import opened CreatingSiteMap
  import opened IndexingService
  import opened StatisticsService
  import opened SearchRanking
  import opened SearchService

  const AlreadyRunning: string := "Индексация уже запущена"
  const NotRunning: string := "Индексация не запущена"
  const OutsideConfiguredSites: string :=
    "Данная страница находится за пределами сайтов, указанных в конфигурационном файле"
  const EmptyQuery: string := "Задан пустой поисковый запрос"

  /** The defaultValue of the offset and limit request parameters. */
  const DefaultOffset: int := 0
  const DefaultLimit: int := 20

  datatype HttpStatus = BAD_REQUEST | NOT_FOUND | CONFLICT

  /** The body and status of a reply: TrueResponse with 200, FalseResponse(error),
      the statistics, or what the search service answered. */
  datatype Reply =
    | Accepted
    | Refused(status: HttpStatus, error: string)
    | StatisticsReply(statistics: Statistics)
    | SearchReply(outcome: SearchOutcome)

  // ---------------------------------------------------------------------
  // String.isBlank

  /** Character.isWhitespace: the space separators other than the
      no-break spaces U+00A0, U+2007 and U+202F, the line and paragraph
      separators, the controls U+0009-U+000D and U+001C-U+001F. */
  predicate IsWhitespace(c: char)
  {
    || c == ' ' || '\U{9}' <= c <= '\U{D}' || '\U{1C}' <= c <= '\U{1F}'
    || c == '\U{1680}' || ('\U{2000}' <= c <= '\U{200A}' && c != '\U{2007}')
    || c == '\U{2028}' || c == '\U{2029}' || c == '\U{205F}' || c == '\U{3000}'
  }

  /** String.isBlank: the string is empty or holds only whitespace. */
  function IsBlank(s: string): bool
  {
    s == [] || (IsWhitespace(s[0]) && IsBlank(s[1..]))
  }

  lemma {:induction false} IsBlankMeansAllWhitespace(s: string)
    ensures IsBlank(s) <==> forall i :: 0 <= i < |s| ==> IsWhitespace(s[i])
  {
    if s != [] {
      IsBlankMeansAllWhitespace(s[1..]);
      assert forall i :: 1 <= i < |s| ==> s[i] == s[1..][i - 1];
    }
  }

  // ---------------------------------------------------------------------
  // indexPage's search for the site of a url

  /** The first configured site whose url is a prefix of `url`. */
  method FirstSiteFor(config: seq<SiteConfig>, url: string) returns (found: Option<nat>)
    ensures found.Some? ==> found.value < |config| && StartsWith(url, config[found.value].url)
    ensures found.Some? ==> forall j :: 0 <= j < found.value ==> !StartsWith(url, config[j].url)
    ensures found.None? <==> forall j :: 0 <= j < |config| ==> !StartsWith(url, config[j].url)
  {
    for i := 0 to |config|
      invariant forall j :: 0 <= j < i ==> !StartsWith(url, config[j].url)
    {
      if StartsWith(url, config[i].url) {
        return Some(i);
      }
    }
    return None;
  }

  /** The endpoints, over one store, one flag and the configured sites. */
  class Controller {
    const store: Store
    const indexingProcessing: Flag
    const sites: seq<SiteConfig>

    constructor (store: Store, sites: seq<SiteConfig>)
      ensures this.store == store && this.sites == sites
      ensures !indexingProcessing.value
    {
      this.store := store;
      this.sites := sites;
      indexingProcessing := new Flag();
    }

    /** GET /statistics */
    method Statistics() returns (r: Reply)
      ensures r.StatisticsReply? && r.statistics.result
      ensures r.statistics.total.sites == |sites| == |r.statistics.detailed|
      ensures forall i :: 0 <= i < |sites| ==> r.statistics.detailed[i] == ItemFor(store.Snapshot(), sites[i])
      ensures r.statistics.total.pages == SumPages(r.statistics.detailed)
      ensures r.statistics.total.lemmas == SumLemmas(r.statistics.detailed)
    {
      var statistics := GetStatistics(store, sites);
      r := StatisticsReply(statistics);
    }

    /** GET /startIndexing: refused while indexing runs, otherwise every
        configured site is reindexed. */
    method StartIndexing(web: Web, m: Morphology, depth: nat) returns (r: Reply, ghost trace: seq<Db>)
      requires store.Valid()
      modifies store`pages, store`nextPageId, store`lemmas, store`indexes, store`sites, store`clock,
               indexingProcessing
      ensures store.Valid()
      ensures old(indexingProcessing.value) ==>
                && r == Refused(CONFLICT, AlreadyRunning)
                && indexingProcessing.value
                && store.Snapshot() == old(store.Snapshot())
      ensures !old(indexingProcessing.value) ==>
                && r == Accepted
                && (NoStop(web) ==> indexingProcessing.value)
                && JobsInv(old(store.Snapshot()), trace, store.Snapshot(), sites, |sites|, web, m,
                           indexingProcessing.value)
    {
      if indexingProcessing.value {
        return Refused(CONFLICT, AlreadyRunning), [];
      }
      trace := IndexingService.StartIndexing(store, indexingProcessing, sites, web, m, depth);
      r := Accepted;
    }

    /** GET /stopIndexing: refused unless indexing runs; clears the flag. */
    method StopIndexing() returns (r: Reply)
      modifies indexingProcessing
      ensures !indexingProcessing.value
      ensures r == if old(indexingProcessing.value) then Accepted else Refused(CONFLICT, NotRunning)
    {
      if !indexingProcessing.value {
        return Refused(CONFLICT, NotRunning);
      }
      indexingProcessing.value := false;
      r := Accepted;
    }

    /** POST /indexPage: the page is reindexed under the first configured
        site whose url it starts with; a url under none of them is refused. */
    method IndexPage(url: string, web: Web, m: Morphology, depth: nat) returns (r: Reply)
      requires store.Valid()
      modifies store`pages, store`nextPageId, store`lemmas, store`indexes, store`sites, store`clock,
               indexingProcessing
      ensures store.Valid()
      ensures (forall j :: 0 <= j < |sites| ==> !StartsWith(url, sites[j].url)) ==>
                && r == Refused(NOT_FOUND, OutsideConfiguredSites)
                && store.Snapshot() == old(store.Snapshot())
      ensures (exists j :: 0 <= j < |sites| && StartsWith(url, sites[j].url)) ==>
                && r == Accepted
                && exists i :: 0 <= i < |sites| && StartsWith(url, sites[i].url)
                     && (forall j :: 0 <= j < i ==> !StartsWith(url, sites[j].url))
                     && sites[i].url in store.sites
                     && (NoStop(web) ==> indexingProcessing.value)
                     && Reindexed(old(store.Snapshot()), store.Snapshot(), sites[i], url, web, m, !indexingProcessing.value)
                     && CrawledAt(old(store.Snapshot()), store.Snapshot(), sites[i].url, url, web, m,
                                  !indexingProcessing.value)
    {
      var found := FirstSiteFor(sites, url);
      if found.None? {
        return Refused(NOT_FOUND, OutsideConfiguredSites);
      }
      var i := found.value;
      IndexingService.IndexPage(store, indexingProcessing, sites[i], url, web, m, depth);
      r := Accepted;
    }

    /** GET /search: a blank query is refused; otherwise the search
        service answers, with offset 0 and limit 20 when they are not given. */
    method Search(query: string, site: Option<Url>, offset: Option<int>, limit: Option<int>,
                  m: Morphology, textOf: string -> string, title: string -> string) returns (r: Reply)
      requires store.Valid()
      ensures IsBlank(query) <==> r.Refused?
      ensures IsBlank(query) ==> r == Refused(BAD_REQUEST, EmptyQuery)
      ensures !IsBlank(query) ==>
                var off := if offset.Some? then offset.value else DefaultOffset;
                var lim := if limit.Some? then limit.value else DefaultLimit;
                && r.SearchReply?
                && (r.outcome.Conflict? <==> !SitesExistWithStatusIndexed(store.Snapshot(), CreateSearchList(sites, site)))
                && (r.outcome.Conflict? ==> r.outcome.error == NotAllIndexed)
                && (!r.outcome.Conflict? ==>
                      Answered(store.Snapshot(), CreateSearchList(sites, site), LemmaCounts(query, m).Keys, off, lim,
                               m, textOf, title, r.outcome))
                && (r.outcome.Found? && (off < 0 || lim < 0) ==> r.outcome.data == [])
    {
      if IsBlank(query) {
        return Refused(BAD_REQUEST, EmptyQuery);
      }
      var off := if offset.Some? then offset.value else DefaultOffset;
      var lim := if limit.Some? then limit.value else DefaultLimit;
      var outcome := SearchService.Search(store, sites, query, site, off, lim, m, textOf, title);
      r := SearchReply(outcome);
    }
  }
}
