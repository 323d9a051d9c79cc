/** SearchServiceImpl.search: the pages of the sites in scope that hold every
    lemma of the query, scored by the sum of their ranks, normalised by the
    best score, sorted by relevance, cut by offset and limit and described by
    their url, title and snippet. */
module SearchService {
  import opened Util
  import opened Store
  import opened IndexingService
  import opened LemmasAndIndexes
  import opened SearchRanking
  import opened SearchSnippet

  const NotAllIndexed: string := "Не все сайты проиндексированы"

  /** SearchData */
  datatype SearchData = SearchData(site: Url, siteName: string, uri: string, title: string,
                                   snippet: string, relevance: real)

  /** What search answers: a SearchResponse (result true), a FalseResponse
      with status CONFLICT, or an exception. */
  datatype SearchOutcome = Found(count: nat, data: seq<SearchData>) | Conflict(error: string) | Crashed

  // ---------------------------------------------------------------------
  // getPagesAndAbsRelevanceMap

  /** The scores one site adds: nothing unless every query lemma matched a
      row below the frequency limit; otherwise the pages of the rarest lemma
      that have a row for every other one, scored by the sum of their ranks. */
  function SiteScores(db: Db, url: Url, query: seq<string>): map<PageId, nat>
  {
    var matched := SearchLemmasOnSites(db, url, query);
    if matched == [] || |matched| != |query| then map[]
    else IntendedScores(db.indexes, SeedOf(RowsOf(db.indexes, matched[0].key)), matched)
  }

  /** The scores of all sites in scope, a later site's putAll winning. */
  function AbsScores(db: Db, urls: seq<Url>, query: seq<string>): map<PageId, nat>
  {
    if urls == [] then map[]
    else AbsScores(db, urls[..|urls| - 1], query) + SiteScores(db, urls[|urls| - 1], query)
  }

  /** getPagesAndAbsRelevanceMap, the lemma set enumerated as `lemmasSet`;
      the loop over a page's lemmas is the corrected one. */
  method GetPagesAndAbsRelevanceMap(db: Db, searchSitesList: seq<Url>, lemmasSet: seq<string>)
    returns (pagesAndAbsRelevanceMap: map<PageId, nat>)
    requires forall i :: 0 <= i < |searchSitesList| ==> searchSitesList[i] in db.sites
    ensures pagesAndAbsRelevanceMap == AbsScores(db, searchSitesList, lemmasSet)
  {
    pagesAndAbsRelevanceMap := map[];
    for k := 0 to |searchSitesList|
      invariant pagesAndAbsRelevanceMap == AbsScores(db, searchSitesList[..k], lemmasSet)
    {
      AbsScoresSnoc(db, searchSitesList, k, lemmasSet);
      var url := searchSitesList[k];
      var lemmaEntitySet := SearchLemmasOnSites(db, url, lemmasSet);
      if lemmaEntitySet == [] || |lemmaEntitySet| != |lemmasSet| {
        assert pagesAndAbsRelevanceMap + SiteScores(db, url, lemmasSet) == pagesAndAbsRelevanceMap;
        continue;
      }
      var indexEntityList := RowsOf(db.indexes, lemmaEntitySet[0].key);
      var pageEntityMap := SeedMap(indexEntityList);
      var relevant := RelevantPages(db.indexes, pageEntityMap, lemmaEntitySet);
      pagesAndAbsRelevanceMap := pagesAndAbsRelevanceMap + relevant;
    }
    assert searchSitesList[..|searchSitesList|] == searchSitesList;
  }

  /** One more site in scope adds its scores over the earlier ones. */
  lemma AbsScoresSnoc(db: Db, urls: seq<Url>, k: nat, query: seq<string>)
    requires k < |urls|
    ensures AbsScores(db, urls[..k + 1], query) == AbsScores(db, urls[..k], query) + SiteScores(db, urls[k], query)
  {
    assert urls[..k + 1][..k] == urls[..k];
  }

  /** The loop that maps each index row of the rarest lemma to its page and
      rank. */
  method SeedMap(indexEntityList: seq<IndexRow>) returns (pageEntityMap: map<PageId, nat>)
    ensures pageEntityMap == SeedOf(indexEntityList)
  {
    pageEntityMap := map[];
    for j := 0 to |indexEntityList|
      invariant pageEntityMap == SeedOf(indexEntityList[..j])
    {
      assert indexEntityList[..j + 1][..j] == indexEntityList[..j];
      pageEntityMap := pageEntityMap[indexEntityList[j].page := indexEntityList[j].rank];
    }
    assert indexEntityList[..|indexEntityList|] == indexEntityList;
  }

  /** The page holds every query lemma on site `url`: the query has lemmas,
      each has a row on the site below the frequency limit, and the page has
      an index row for each of them. */
  ghost predicate PageMatches(db: Db, url: Url, lemmas: set<string>, p: PageId)
  {
    && lemmas != {}
    && forall t :: t in lemmas ==>
         && LemmaKey(url, t) in db.lemmas && db.lemmas[LemmaKey(url, t)] < MaxFrequency
         && RankOf(db.indexes, p, LemmaKey(url, t)).Some?
  }

  /** Each matched lemma is the row of a query word, and each query word has
      its row among the matched ones when all of them matched. */
  lemma MatchedAreTheQuery(db: Db, url: Url, query: seq<string>, lemmas: set<string>)
    requires forall t :: t in query <==> t in lemmas
    requires |SearchLemmasOnSites(db, url, query)| == |query|
    ensures forall i :: 0 <= i < |SearchLemmasOnSites(db, url, query)| ==>
              exists t :: t in lemmas && SearchLemmasOnSites(db, url, query)[i].key == LemmaKey(url, t)
    ensures forall t :: t in lemmas ==>
              exists i :: 0 <= i < |SearchLemmasOnSites(db, url, query)| && SearchLemmasOnSites(db, url, query)[i].key == LemmaKey(url, t)
  {
    var matched := SearchLemmasOnSites(db, url, query);
    SearchLemmasOnSitesSpec(db, url, query);
    forall i | 0 <= i < |matched| ensures exists t :: t in lemmas && matched[i].key == LemmaKey(url, t) {
      assert matched[i] in matched;
      var t :| t in query && Matches(db, url, t, matched[i]);
    }
    forall t | t in lemmas ensures exists i :: 0 <= i < |matched| && matched[i].key == LemmaKey(url, t) {
      var e := LemmaEntity(LemmaKey(url, t), db.lemmas[LemmaKey(url, t)]);
      assert Matches(db, url, t, e);
      assert e in matched;
    }
  }

  /** With all query words matched, a page has a row for every matched
      lemma exactly when it holds every query lemma on the site. */
  lemma {:induction false} AllRowsMeansMatch(db: Db, url: Url, query: seq<string>, lemmas: set<string>, p: PageId)
    requires forall t :: t in query <==> t in lemmas
    requires query != [] && |SearchLemmasOnSites(db, url, query)| == |query|
    ensures (forall i :: 0 <= i < |SearchLemmasOnSites(db, url, query)| ==>
               RankOf(db.indexes, p, SearchLemmasOnSites(db, url, query)[i].key).Some?)
            <==> PageMatches(db, url, lemmas, p)
  {
    SearchLemmasOnSitesSpec(db, url, query);
    MatchedAreTheQuery(db, url, query, lemmas);
    assert query[0] in lemmas;
  }

  /** A site scores a page exactly when the page holds every query lemma on
      it, and the score of a stored page is then at least one. */
  lemma SiteScoresSpec(db: Db, url: Url, query: seq<string>, lemmas: set<string>)
    requires forall t :: t in query <==> t in lemmas
    requires RowsOk(db)
    ensures forall p :: p in SiteScores(db, url, query) <==> PageMatches(db, url, lemmas, p)
    ensures forall p :: p in SiteScores(db, url, query) ==> p in db.pages && SiteScores(db, url, query)[p] >= 1
  {
    var matched := SearchLemmasOnSites(db, url, query);
    SearchLemmasOnSitesSpec(db, url, query);
    if query == [] {
      assert lemmas == {};
      assert matched == [];
    } else if |matched| != |query| {
      assert !forall t :: t in query ==> LemmaKey(url, t) in db.lemmas && db.lemmas[LemmaKey(url, t)] < MaxFrequency;
    } else {
      var idx := db.indexes;
      var k0 := matched[0].key;
      var seed := SeedOf(RowsOf(idx, k0));
      SeedOfRows(idx, k0);
      forall p ensures p in SiteScores(db, url, query) <==> PageMatches(db, url, lemmas, p) {
        HasRowsUpToMeans(idx, p, matched, |matched|);
        AllRowsMeansMatch(db, url, query, lemmas, p);
      }
      forall p | p in SiteScores(db, url, query) ensures p in db.pages && SiteScores(db, url, query)[p] >= 1 {
        var v := RankOf(idx, p, k0).value;
        assert IndexRow(p, k0, v) in idx;
        assert RowOk(db, IndexRow(p, k0, v));
      }
    }
  }

  /** The page holds every query lemma on one of the sites in scope. */
  ghost predicate InScope(db: Db, urls: seq<Url>, lemmas: set<string>, p: PageId)
  {
    exists i :: 0 <= i < |urls| && PageMatches(db, urls[i], lemmas, p)
  }

  lemma InScopeSnoc(db: Db, urls: seq<Url>, lemmas: set<string>, p: PageId)
    requires urls != []
    ensures InScope(db, urls, lemmas, p)
            <==> InScope(db, urls[..|urls| - 1], lemmas, p) || PageMatches(db, urls[|urls| - 1], lemmas, p)
  {
    var n := |urls| - 1;
    if InScope(db, urls, lemmas, p) {
      var i :| 0 <= i < |urls| && PageMatches(db, urls[i], lemmas, p);
      if i < n {
        assert urls[..n][i] == urls[i];
      }
    }
    if InScope(db, urls[..n], lemmas, p) {
      var i :| 0 <= i < n && PageMatches(db, urls[..n][i], lemmas, p);
      assert urls[..n][i] == urls[i];
    }
  }

  /** The map getPagesAndAbsRelevanceMap returns holds exactly the pages that
      hold every query lemma on one of the sites in scope, each scored at
      least one; a query without lemmas finds nothing. */
  lemma {:induction false} AbsScoresSpec(db: Db, urls: seq<Url>, query: seq<string>, lemmas: set<string>)
    requires forall t :: t in query <==> t in lemmas
    requires RowsOk(db)
    ensures forall p :: p in AbsScores(db, urls, query) <==> InScope(db, urls, lemmas, p)
    ensures forall p :: p in AbsScores(db, urls, query) ==> p in db.pages && AbsScores(db, urls, query)[p] >= 1
    ensures lemmas == {} ==> AbsScores(db, urls, query) == map[]
    decreases |urls|
  {
    if urls != [] {
      var n := |urls| - 1;
      AbsScoresSpec(db, urls[..n], query, lemmas);
      SiteScoresSpec(db, urls[n], query, lemmas);
      forall p ensures p in AbsScores(db, urls, query) <==> InScope(db, urls, lemmas, p) {
        InScopeSnoc(db, urls, lemmas, p);
      }
    }
  }

  // ---------------------------------------------------------------------
  // Relative relevance

  /** Collections.max over the absolute relevances. */
  method MaxAbsRelevance(pagesAndAbsRelevanceMap: map<PageId, nat>) returns (maxAbsRel: nat)
    requires pagesAndAbsRelevanceMap != map[]
    ensures exists p :: p in pagesAndAbsRelevanceMap && pagesAndAbsRelevanceMap[p] == maxAbsRel
    ensures forall p :: p in pagesAndAbsRelevanceMap ==> pagesAndAbsRelevanceMap[p] <= maxAbsRel
  {
    var abs := pagesAndAbsRelevanceMap;
    var keys := Enumerate(abs.Keys);
    var some :| some in abs;
    assert some in keys;
    maxAbsRel := abs[keys[0]];
    for i := 1 to |keys|
      invariant exists p :: p in abs && abs[p] == maxAbsRel
      invariant forall j :: 0 <= j < i ==> abs[keys[j]] <= maxAbsRel
    {
      if abs[keys[i]] > maxAbsRel {
        maxAbsRel := abs[keys[i]];
      }
    }
    forall p | p in abs ensures abs[p] <= maxAbsRel {
      var j :| 0 <= j < |keys| && keys[j] == p;
    }
  }

  /** The loop that divides every absolute relevance by the largest one. */
  method NormaliseRelevance(pagesAndAbsRelevanceMap: map<PageId, nat>, maxAbsRel: nat)
    returns (pagesAndRelRelevanceMap: map<PageId, real>)
    requires maxAbsRel > 0
    ensures pagesAndRelRelevanceMap.Keys == pagesAndAbsRelevanceMap.Keys
    ensures forall p :: p in pagesAndRelRelevanceMap ==>
              pagesAndRelRelevanceMap[p] == pagesAndAbsRelevanceMap[p] as real / maxAbsRel as real
  {
    var abs := pagesAndAbsRelevanceMap;
    var keys := Enumerate(abs.Keys);
    pagesAndRelRelevanceMap := map[];
    for i := 0 to |keys|
      invariant forall p :: p in pagesAndRelRelevanceMap <==> p in keys[..i]
      invariant forall p :: p in pagesAndRelRelevanceMap ==>
                  pagesAndRelRelevanceMap[p] == abs[p] as real / maxAbsRel as real
    {
      assert keys[..i + 1] == keys[..i] + [keys[i]];
      pagesAndRelRelevanceMap := pagesAndRelRelevanceMap[keys[i] := abs[keys[i]] as real / maxAbsRel as real];
    }
    assert keys[..|keys|] == keys;
  }

  lemma QuotientInUnit(a: real, m: real)
    requires 0.0 < a <= m
    ensures 0.0 < a / m <= 1.0
    ensures a == m ==> a / m == 1.0
  {
    assert (a / m) * m == a;
  }

  /** With every score at least one and the largest one as divisor, every
      relative relevance lies in (0, 1] and the best page gets exactly 1. */
  lemma RelevanceBounds(abs: map<PageId, nat>, maxAbsRel: nat, rel: map<PageId, real>)
    requires forall p :: p in abs ==> 1 <= abs[p] <= maxAbsRel
    requires exists p :: p in abs && abs[p] == maxAbsRel
    requires rel.Keys == abs.Keys
    requires forall p :: p in rel ==> rel[p] == abs[p] as real / maxAbsRel as real
    ensures forall p :: p in rel ==> 0.0 < rel[p] <= 1.0
    ensures exists p :: p in rel && rel[p] == 1.0
  {
    var best :| best in abs && abs[best] == maxAbsRel;
    assert best in rel;
    QuotientInUnit(abs[best] as real, maxAbsRel as real);
    forall p | p in rel ensures 0.0 < rel[p] <= 1.0 {
      QuotientInUnit(abs[p] as real, maxAbsRel as real);
    }
  }

  // ---------------------------------------------------------------------
  // Sorting, skip and limit

  /** A page with its relative relevance. */
  type Ranked = (PageId, real)

  predicate Descending(s: seq<Ranked>)
  {
    forall i, j :: 0 <= i < j < |s| ==> s[i].1 >= s[j].1
  }

  /** Insert `x` before the first entry of lower-or-equal relevance. */
  function InsertDescending(x: Ranked, s: seq<Ranked>): seq<Ranked>
  {
    if s == [] then [x]
    else if x.1 >= s[0].1 then [x] + s
    else [s[0]] + InsertDescending(x, s[1..])
  }

  lemma {:induction false} InsertDescendingKeeps(x: Ranked, s: seq<Ranked>)
    ensures multiset(InsertDescending(x, s)) == multiset(s) + multiset{x}
  {
    if s != [] && x.1 < s[0].1 {
      InsertDescendingKeeps(x, s[1..]);
      assert s == [s[0]] + s[1..];
    }
  }

  lemma {:induction false} InsertDescendingSpec(x: Ranked, s: seq<Ranked>)
    requires Descending(s)
    ensures multiset(InsertDescending(x, s)) == multiset(s) + multiset{x}
    ensures Descending(InsertDescending(x, s))
  {
    InsertDescendingKeeps(x, s);
    if s != [] && x.1 < s[0].1 {
      var rest := InsertDescending(x, s[1..]);
      InsertDescendingSpec(x, s[1..]);
      forall j | 0 <= j < |rest| ensures s[0].1 >= rest[j].1 {
        assert rest[j] in multiset(s[1..]) + multiset{x};
        if rest[j] != x {
          var k :| 0 <= k < |s[1..]| && s[1..][k] == rest[j];
          assert s[k + 1] == rest[j];
        }
      }
      var r := [s[0]] + rest;
      forall i, j | 0 <= i < j < |r| ensures r[i].1 >= r[j].1 {
        assert r[j] == rest[j - 1];
      }
    }
  }

  /** .sorted(Map.Entry.comparingByValue(Comparator.reverseOrder())) */
  function SortDescending(s: seq<Ranked>): seq<Ranked>
  {
    if s == [] then [] else InsertDescending(s[0], SortDescending(s[1..]))
  }

  /** Sorting orders the entries by relevance, highest first, and keeps each
      of them. */
  lemma {:induction false} SortDescendingSpec(s: seq<Ranked>)
    ensures multiset(SortDescending(s)) == multiset(s)
    ensures Descending(SortDescending(s))
  {
    if s != [] {
      SortDescendingSpec(s[1..]);
      InsertDescendingSpec(s[0], SortDescending(s[1..]));
      assert InsertDescending(s[0], SortDescending(s[1..])) == SortDescending(s);
      assert s == [s[0]] + s[1..];
    }
  }

  /** How many of `n` entries .skip(offset).limit(limit) keeps, for a
      non-negative offset and limit. */
  function WindowSize(n: int, offset: int, limit: int): int
  {
    Min(limit, Max(0, n - offset))
  }

  /** .skip(offset).limit(limit): None where a negative argument throws;
      otherwise the entries from `offset` on, at most `limit` of them, as
      many as there are up to that bound. */
  function SkipLimit<T>(s: seq<T>, offset: int, limit: int): (r: Option<seq<T>>)
    ensures r.None? <==> offset < 0 || limit < 0
    ensures r.Some? ==> |r.value| == WindowSize(|s|, offset, limit)
    ensures r.Some? && r.value != [] ==> offset + |r.value| <= |s|
    ensures r.Some? ==> forall i :: 0 <= i < |r.value| ==> r.value[i] == s[offset + i]
  {
    if offset < 0 || limit < 0 then None
    else
      var lo := Min(offset, |s|);
      Some(s[lo..lo + Min(limit, |s| - lo)])
  }

  // ---------------------------------------------------------------------
  // getSearchResponse

  /** The address getTitlePageEntity fetches: a relative path is joined to
      the site's url. */
  function TitleUrl(siteUrl: Url, path: string): (r: string)
    ensures StartsWith(path, "/") ==> r == siteUrl + path
    ensures !StartsWith(path, "/") ==> r == path
  {
    if StartsWith(path, "/") then siteUrl + path else path
  }

  /** getSnippet as a function of a page's content: the snippet of the
      page's visible text with the query words tagged. */
  function SnippetOf(lemmas: seq<string>, m: Morphology, textOf: string -> string): string -> Option<string>
  {
    content => Snippet(InsertingTags(textOf(content), m, lemmas))
  }

  /** `snippetOf` is getSnippet on pages with the visible text `textOf`. */
  ghost predicate IsSnippetOf(snippetOf: string -> Option<string>, lemmas: seq<string>, m: Morphology,
                              textOf: string -> string)
  {
    forall content :: snippetOf(content) == Snippet(InsertingTags(textOf(content), m, lemmas))
  }

  lemma SnippetOfIsSnippet(lemmas: seq<string>, m: Morphology, textOf: string -> string)
    ensures IsSnippetOf(SnippetOf(lemmas, m, textOf), lemmas, m, textOf)
  {
  }

  /** The SearchData of one page: None where getSnippet throws. */
  function DataFor(db: Db, e: Ranked, snippetOf: string -> Option<string>, title: string -> string): Option<SearchData>
    requires e.0 in db.pages && db.pages[e.0].site in db.sites
  {
    var page := db.pages[e.0];
    var site := db.sites[page.site];
    var snippet := snippetOf(page.content);
    if snippet.None? then None
    else Some(SearchData(site.url, site.name, page.path, title(TitleUrl(site.url, page.path)), snippet.value, e.1))
  }

  /** The body of the loop of getSearchResponse for one entry. */
  method PageData(db: Db, e: Ranked, lemmas: seq<string>, m: Morphology, textOf: string -> string,
                  snippetOf: string -> Option<string>, title: string -> string) returns (d: Option<SearchData>)
    requires e.0 in db.pages && db.pages[e.0].site in db.sites
    requires IsSnippetOf(snippetOf, lemmas, m, textOf)
    ensures d == DataFor(db, e, snippetOf, title)
  {
    var page := db.pages[e.0];
    var site := db.sites[page.site];
    var cleanText := InsertTags(textOf(page.content), m, lemmas);
    var snippet := GetSnippet(cleanText);
    assert snippet == snippetOf(page.content);
    if snippet.None? {
      return None;
    }
    d := Some(SearchData(site.url, site.name, page.path, title(TitleUrl(site.url, page.path)), snippet.value, e.1));
  }

  /** The pages hold stored pages of stored sites. */
  ghost predicate Stored(db: Db, pages: seq<Ranked>)
  {
    forall i :: 0 <= i < |pages| ==> pages[i].0 in db.pages && db.pages[pages[i].0].site in db.sites
  }

  /** The response getSearchResponse builds for `pages`: the first entry
      whose snippet throws fails it; otherwise one SearchData per entry. */
  function Describe(db: Db, pages: seq<Ranked>, snippetOf: string -> Option<string>,
                    title: string -> string): (r: SearchOutcome)
    requires Stored(db, pages)
    ensures r.Found? || r.Crashed?
    ensures r.Found? ==> r.count == |pages| == |r.data|
  {
    if pages == [] then Found(0, [])
    else
      var before := Describe(db, pages[..|pages| - 1], snippetOf, title);
      var d := DataFor(db, pages[|pages| - 1], snippetOf, title);
      if before.Crashed? || d.None? then Crashed else Found(before.count + 1, before.data + [d.value])
  }

  /** The i-th SearchData of the response describes the i-th entry. */
  lemma {:induction false} DescribeData(db: Db, pages: seq<Ranked>, snippetOf: string -> Option<string>,
                                        title: string -> string, i: nat)
    requires Stored(db, pages) && i < |pages|
    requires Describe(db, pages, snippetOf, title).Found?
    ensures DataFor(db, pages[i], snippetOf, title) == Some(Describe(db, pages, snippetOf, title).data[i])
  {
    var n := |pages| - 1;
    var init := pages[..n];
    var before := Describe(db, init, snippetOf, title);
    if i < n {
      DescribeData(db, init, snippetOf, title, i);
      assert init[i] == pages[i];
      assert Describe(db, pages, snippetOf, title).data[i] == before.data[i];
    }
  }

  /** The response fails exactly when the snippet of one of the entries
      throws. */
  lemma {:induction false} DescribeCrash(db: Db, pages: seq<Ranked>, snippetOf: string -> Option<string>,
                                         title: string -> string)
    requires Stored(db, pages)
    ensures Describe(db, pages, snippetOf, title).Crashed?
            <==> exists i :: 0 <= i < |pages| && DataFor(db, pages[i], snippetOf, title).None?
  {
    if pages != [] {
      var n := |pages| - 1;
      var init := pages[..n];
      DescribeCrash(db, init, snippetOf, title);
      var before := Describe(db, init, snippetOf, title);
      if before.Crashed? {
        var i :| 0 <= i < n && DataFor(db, init[i], snippetOf, title).None?;
        assert init[i] == pages[i];
      }
      if exists i :: 0 <= i < |pages| && DataFor(db, pages[i], snippetOf, title).None? {
        var i :| 0 <= i < |pages| && DataFor(db, pages[i], snippetOf, title).None?;
        if i < n {
          assert init[i] == pages[i];
        }
      }
    }
  }

  /** getSearchResponse */
  method GetSearchResponse(db: Db, sortedPages: seq<Ranked>, lemmas: seq<string>, m: Morphology,
                           textOf: string -> string, snippetOf: string -> Option<string>, title: string -> string)
    returns (r: SearchOutcome)
    requires Stored(db, sortedPages)
    requires IsSnippetOf(snippetOf, lemmas, m, textOf)
    ensures r == Describe(db, sortedPages, snippetOf, title)
  {
    var searchDataList: seq<SearchData> := [];
    for i := 0 to |sortedPages|
      invariant Describe(db, sortedPages[..i], snippetOf, title) == Found(i, searchDataList)
    {
      assert sortedPages[..i + 1][..i] == sortedPages[..i];
      var searchData := PageData(db, sortedPages[i], lemmas, m, textOf, snippetOf, title);
      if searchData.None? {
        CrashPersists(db, sortedPages, i + 1, snippetOf, title);
        return Crashed;
      }
      searchDataList := searchDataList + [searchData.value];
    }
    assert sortedPages[..|sortedPages|] == sortedPages;
    r := Found(|sortedPages|, searchDataList);
  }

  /** Once an entry fails, the whole response fails. */
  lemma {:induction false} CrashPersists(db: Db, pages: seq<Ranked>, k: nat, snippetOf: string -> Option<string>,
                                         title: string -> string)
    requires Stored(db, pages) && k <= |pages|
    requires Describe(db, pages[..k], snippetOf, title).Crashed?
    ensures Describe(db, pages, snippetOf, title).Crashed?
    decreases |pages| - k
  {
    if k < |pages| {
      assert pages[..k + 1][..k] == pages[..k];
      CrashPersists(db, pages, k + 1, snippetOf, title);
    } else {
      assert pages[..k] == pages;
    }
  }

  // ---------------------------------------------------------------------
  // search

  /** A result entry: a stored page of one of the sites in scope that holds
      every query lemma there, with a relevance in (0, 1]. */
  ghost predicate Good(db: Db, urls: seq<Url>, lemmas: set<string>, e: Ranked)
  {
    && e.0 in db.pages && db.pages[e.0].site in db.sites
    && 0.0 < e.1 <= 1.0
    && InScope(db, urls, lemmas, e.0)
  }

  ghost predicate AllGood(db: Db, urls: seq<Url>, lemmas: set<string>, s: seq<Ranked>)
  {
    forall i :: 0 <= i < |s| ==> Good(db, urls, lemmas, s[i])
  }

  /** A SearchData that describes such a page. */
  ghost predicate Hit(db: Db, urls: seq<Url>, lemmas: set<string>, d: SearchData)
  {
    && 0.0 < d.relevance <= 1.0
    && exists p :: p in db.pages && db.pages[p].path == d.uri && db.pages[p].site == d.site && InScope(db, urls, lemmas, p)
  }

  /** The largest score: the value Collections.max returns. */
  ghost function Largest(abs: map<PageId, nat>): (mx: nat)
    requires abs != map[]
    ensures exists p :: p in abs && abs[p] == mx
    ensures forall p :: p in abs ==> abs[p] <= mx
  {
    LargestExists(abs);
    var p :| p in abs && forall q :: q in abs ==> abs[q] <= abs[p];
    abs[p]
  }

  lemma {:induction false} LargestExists(abs: map<PageId, nat>)
    requires abs != map[]
    ensures exists p :: p in abs && forall q :: q in abs ==> abs[q] <= abs[p]
    decreases abs.Keys
  {
    var k :| k in abs;
    if !forall q :: q in abs ==> abs[q] <= abs[k] {
      var q0 :| q0 in abs && abs[q0] > abs[k];
      var rest := abs - {k};
      assert q0 in rest;
      assert rest.Keys < abs.Keys by {
        assert k !in rest.Keys;
      }
      LargestExists(rest);
      var p :| p in rest && forall q :: q in rest ==> rest[q] <= rest[p];
      forall q | q in abs ensures abs[q] <= abs[p] {
        if q != k {
          assert q in rest;
        }
      }
    }
  }

  /** The entries of pagesAndRelRelevanceMap in some order: every scored
      page exactly once, with its score divided by the largest score. */
  ghost predicate Normalised(abs: map<PageId, nat>, s: seq<Ranked>)
  {
    && abs != map[] && Largest(abs) > 0
    && |s| == |abs|
    && (forall i :: 0 <= i < |s| ==> s[i].0 in abs && s[i].1 == abs[s[i].0] as real / Largest(abs) as real)
    && (forall p {:trigger p in PagesOf(s)} :: p in abs ==> p in PagesOf(s))
  }

  /** The pages a list of entries holds. */
  ghost function PagesOf(s: seq<Ranked>): set<PageId>
  {
    set i | 0 <= i < |s| :: s[i].0
  }

  /** A ranking of the scored pages: those entries, most relevant first. */
  ghost predicate Ranking(abs: map<PageId, nat>, s: seq<Ranked>)
  {
    Normalised(abs, s) && Descending(s)
  }

  /** The normalised entries of stored pages in scope are good, and one of
      them has relevance 1. */
  lemma NormalisedIsGood(db: Db, urls: seq<Url>, lemmas: set<string>, abs: map<PageId, nat>, s: seq<Ranked>)
    requires PagesOk(db) && Scored(db, urls, lemmas, abs) && Normalised(abs, s)
    ensures AllGood(db, urls, lemmas, s)
    ensures exists i :: 0 <= i < |s| && s[i].1 == 1.0
  {
    var mx := Largest(abs);
    forall i | 0 <= i < |s| ensures Good(db, urls, lemmas, s[i]) {
      var p := s[i].0;
      QuotientInUnit(abs[p] as real, mx as real);
    }
    var best :| best in abs && abs[best] == mx;
    assert best in PagesOf(s);
    var k :| 0 <= k < |s| && s[k].0 == best;
    QuotientInUnit(abs[best] as real, mx as real);
  }

  /** A ranking of such pages is good and starts with relevance 1. */
  lemma RankingIsGood(db: Db, urls: seq<Url>, lemmas: set<string>, abs: map<PageId, nat>, s: seq<Ranked>)
    requires PagesOk(db) && Scored(db, urls, lemmas, abs) && Ranking(abs, s)
    ensures AllGood(db, urls, lemmas, s)
    ensures s != [] && s[0].1 == 1.0
  {
    NormalisedIsGood(db, urls, lemmas, abs, s);
    var k :| 0 <= k < |s| && s[k].1 == 1.0;
    assert Good(db, urls, lemmas, s[0]);
    if k > 0 {
      assert s[0].1 >= s[k].1;
    }
  }

  /** The cut of a good, sorted list is good and sorted, and starts with its
      head when the offset is 0. */
  lemma CutIsGood(db: Db, urls: seq<Url>, lemmas: set<string>, sorted: seq<Ranked>, offset: int, cut: seq<Ranked>)
    requires AllGood(db, urls, lemmas, sorted) && Descending(sorted)
    requires cut != [] ==> 0 <= offset && offset + |cut| <= |sorted|
    requires forall i :: 0 <= i < |cut| ==> cut[i] == sorted[offset + i]
    ensures AllGood(db, urls, lemmas, cut) && Descending(cut)
    ensures offset == 0 && cut != [] ==> |sorted| > 0 && cut[0] == sorted[0]
  {
    forall i, j | 0 <= i < j < |cut| ensures cut[i].1 >= cut[j].1 {
      assert cut[i] == sorted[offset + i] && cut[j] == sorted[offset + j];
    }
  }

  /** The response for good entries sorted by relevance lists pages that
      hold every query lemma, in that order, each with its relevance. */
  lemma OutcomeOfRanked(db: Db, urls: seq<Url>, lemmas: set<string>, ranked: seq<Ranked>,
                        snippetOf: string -> Option<string>, title: string -> string)
    requires SitesKeyed(db)
    requires AllGood(db, urls, lemmas, ranked) && Descending(ranked)
    ensures Stored(db, ranked)
    ensures var r := Describe(db, ranked, snippetOf, title);
      && (r.Found? || r.Crashed?)
      && (r.Found? ==> r.count == |r.data| == |ranked|)
      && (r.Found? ==> forall i :: 0 <= i < |r.data| ==> Hit(db, urls, lemmas, r.data[i]) && r.data[i].relevance == ranked[i].1)
      && (r.Found? ==> forall i, j :: 0 <= i < j < |r.data| ==> r.data[i].relevance >= r.data[j].relevance)
  {
    assert Stored(db, ranked) by {
      forall i | 0 <= i < |ranked| ensures ranked[i].0 in db.pages && db.pages[ranked[i].0].site in db.sites {
        assert Good(db, urls, lemmas, ranked[i]);
      }
    }
    var r := Describe(db, ranked, snippetOf, title);
    if r.Found? {
      forall i | 0 <= i < |r.data| ensures Hit(db, urls, lemmas, r.data[i]) && r.data[i].relevance == ranked[i].1 {
        assert Good(db, urls, lemmas, ranked[i]);
        DescribeData(db, ranked, snippetOf, title, i);
        var p := ranked[i].0;
        assert DataFor(db, ranked[i], snippetOf, title) == Some(r.data[i]);
        assert db.sites[db.pages[p].site].url == db.pages[p].site;
      }
      forall i, j | 0 <= i < j < |r.data| ensures r.data[i].relevance >= r.data[j].relevance {
        assert r.data[i].relevance == ranked[i].1 && r.data[j].relevance == ranked[j].1;
      }
    }
  }

  /** Every scored page is a stored page in scope, with a score of at least 1. */
  ghost predicate Scored(db: Db, urls: seq<Url>, lemmas: set<string>, abs: map<PageId, nat>)
  {
    forall p :: p in abs ==> p in db.pages && abs[p] >= 1 && InScope(db, urls, lemmas, p)
  }

  /** The entries of the relative-relevance map, in some order: each scored
      page once, with its score divided by the largest. */
  method RelativeRelevance(db: Db, urls: seq<Url>, lemmas: set<string>, abs: map<PageId, nat>)
    returns (entries: seq<Ranked>)
    requires Consistent(db)
    requires abs != map[]
    requires Scored(db, urls, lemmas, abs)
    ensures Normalised(abs, entries)
    ensures AllGood(db, urls, lemmas, entries)
    ensures exists i :: 0 <= i < |entries| && entries[i].1 == 1.0
  {
    var maxAbsRel := MaxAbsRelevance(abs);
    var rel := NormaliseRelevance(abs, maxAbsRel);
    entries := MapEntries(rel);
    EntriesAreNormalised(abs, maxAbsRel, rel, entries);
    NormalisedIsGood(db, urls, lemmas, abs, entries);
  }

  /** The entries of the map that divides each score by Collections.max are
      the normalised entries. */
  lemma EntriesAreNormalised(abs: map<PageId, nat>, maxAbsRel: nat, rel: map<PageId, real>, entries: seq<Ranked>)
    requires exists p :: p in abs && abs[p] == maxAbsRel
    requires forall p :: p in abs ==> 1 <= abs[p] <= maxAbsRel
    requires rel.Keys == abs.Keys
    requires forall p :: p in rel ==> rel[p] == abs[p] as real / maxAbsRel as real
    requires forall i :: 0 <= i < |entries| ==> entries[i].0 in rel && entries[i].1 == rel[entries[i].0]
    requires forall p :: p in rel ==> exists i :: 0 <= i < |entries| && entries[i].0 == p
    requires |entries| == |rel|
    ensures Normalised(abs, entries)
  {
    assert maxAbsRel == Largest(abs) by {
      var p :| p in abs && abs[p] == maxAbsRel;
      var q :| q in abs && abs[q] == Largest(abs);
      assert abs[q] <= maxAbsRel && abs[p] <= Largest(abs);
    }
    assert |rel| == |abs| by {
      assert |rel| == |rel.Keys| && |abs| == |abs.Keys|;
    }
    forall p | p in abs ensures p in PagesOf(entries) {
      assert p in rel;
      var i :| 0 <= i < |entries| && entries[i].0 == p;
    }
  }

  /** entrySet().stream(): every entry of the map once, in some order. */
  method MapEntries(rel: map<PageId, real>) returns (entries: seq<Ranked>)
    ensures forall i :: 0 <= i < |entries| ==> entries[i].0 in rel && entries[i].1 == rel[entries[i].0]
    ensures forall p :: p in rel ==> exists i :: 0 <= i < |entries| && entries[i].0 == p
    ensures |entries| == |rel|
  {
    var keys := Enumerate(rel.Keys);
    entries := seq(|keys|, i requires 0 <= i < |keys| => (keys[i], rel[keys[i]]));
    forall p | p in rel ensures exists i :: 0 <= i < |entries| && entries[i].0 == p {
      var i :| 0 <= i < |keys| && keys[i] == p;
      assert entries[i].0 == p;
    }
  }

  /** The scored pages with their relevance normalised by the largest score,
      sorted from the most to the least relevant: a ranking of them. */
  method RankPages(db: Db, urls: seq<Url>, lemmas: set<string>, abs: map<PageId, nat>)
    returns (sorted: seq<Ranked>)
    requires Consistent(db)
    requires abs != map[]
    requires Scored(db, urls, lemmas, abs)
    ensures Ranking(abs, sorted)
    ensures AllGood(db, urls, lemmas, sorted) && Descending(sorted)
    ensures sorted != [] && sorted[0].1 == 1.0
  {
    var entries := RelativeRelevance(db, urls, lemmas, abs);
    sorted := SortDescending(entries);
    SortDescendingSpec(entries);
    PermutationNormalised(abs, entries, sorted);
    RankingIsGood(db, urls, lemmas, abs, sorted);
  }

  /** A permutation of normalised entries is normalised. */
  lemma PermutationNormalised(abs: map<PageId, nat>, entries: seq<Ranked>, sorted: seq<Ranked>)
    requires Normalised(abs, entries)
    requires multiset(sorted) == multiset(entries)
    ensures Normalised(abs, sorted)
  {
    assert |sorted| == |multiset(sorted)| == |multiset(entries)| == |entries|;
    forall i | 0 <= i < |sorted|
      ensures sorted[i].0 in abs && sorted[i].1 == abs[sorted[i].0] as real / Largest(abs) as real
    {
      assert sorted[i] in multiset(entries);
      var j :| 0 <= j < |entries| && entries[j] == sorted[i];
    }
    forall p | p in abs ensures p in PagesOf(sorted) {
      assert p in PagesOf(entries);
      var j :| 0 <= j < |entries| && entries[j].0 == p;
      assert entries[j] in multiset(sorted);
      var i :| 0 <= i < |sorted| && sorted[i] == entries[j];
    }
  }

  /** The window skip and limit cut from stored pages holds stored pages. */
  lemma StoredWindow(db: Db, sorted: seq<Ranked>, offset: int, limit: int)
    requires Stored(db, sorted)
    requires SkipLimit(sorted, offset, limit).Some?
    ensures Stored(db, SkipLimit(sorted, offset, limit).value)
  {
    var w := SkipLimit(sorted, offset, limit).value;
    forall i | 0 <= i < |w| ensures w[i].0 in db.pages && db.pages[w[i].0].site in db.sites {
      assert w[i] == sorted[offset + i];
    }
  }

  /** The response for the ranking `sorted`: skip and limit throw on a
      negative argument; otherwise getSearchResponse describes the window. */
  function Outcome(db: Db, sorted: seq<Ranked>, offset: int, limit: int,
                   snippetOf: string -> Option<string>, title: string -> string): SearchOutcome
    requires Stored(db, sorted)
  {
    var window := SkipLimit(sorted, offset, limit);
    if window.None? then Crashed
    else
      StoredWindow(db, sorted, offset, limit);
      Describe(db, window.value, snippetOf, title)
  }

  /** The part of search after the absolute relevances are known: divide by
      the largest, sort, skip and limit, describe. */
  method RankAndDescribe(db: Db, urls: seq<Url>, lemmas: set<string>, lemmasSet: seq<string>,
                         abs: map<PageId, nat>, offset: int, limit: int,
                         m: Morphology, textOf: string -> string, snippetOf: string -> Option<string>,
                         title: string -> string) returns (r: SearchOutcome)
    requires Consistent(db)
    requires IsSnippetOf(snippetOf, lemmasSet, m, textOf)
    requires abs != map[]
    requires Scored(db, urls, lemmas, abs)
    ensures r.Found? || r.Crashed?
    ensures exists sorted :: Ranking(abs, sorted) && Stored(db, sorted)
                             && r == Outcome(db, sorted, offset, limit, snippetOf, title)
    ensures offset < 0 || limit < 0 ==> r.Crashed?
  {
    var sorted := RankPages(db, urls, lemmas, abs);
    assert Stored(db, sorted) by {
      forall i | 0 <= i < |sorted| ensures sorted[i].0 in db.pages && db.pages[sorted[i].0].site in db.sites {
        assert Good(db, urls, lemmas, sorted[i]);
      }
    }
    var page := SkipLimit(sorted, offset, limit);
    if page.None? {
      return Crashed;
    }
    var ranked := page.value;
    StoredWindow(db, sorted, offset, limit);
    r := GetSearchResponse(db, ranked, lemmasSet, m, textOf, snippetOf, title);
  }

  /** The query's lemma set in some order, and the absolute relevance of
      exactly the pages in scope. */
  method ScorePages(db: Db, urls: seq<Url>, counts: map<string, nat>)
    returns (lemmasSet: seq<string>, abs: map<PageId, nat>)
    requires RowsOk(db)
    requires forall i :: 0 <= i < |urls| ==> urls[i] in db.sites
    ensures Enumerates(lemmasSet, counts.Keys)
    ensures abs == AbsScores(db, urls, lemmasSet)
    ensures Scored(db, urls, counts.Keys, abs)
    ensures forall p :: InScope(db, urls, counts.Keys, p) ==> p in abs
    ensures counts == map[] ==> abs == map[]
  {
    lemmasSet := Enumerate(counts.Keys);
    abs := GetPagesAndAbsRelevanceMap(db, urls, lemmasSet);
    AbsScoresSpec(db, urls, lemmasSet, counts.Keys);
  }

  /** What search answers on one snapshot when every site in scope is
      indexed: for some iteration order of the query's lemma set, the empty
      response when no page is scored, and otherwise what a ranking of the
      scored pages gives after skip, limit and getSearchResponse. */
  ghost predicate Answered(db: Db, urls: seq<Url>, lemmas: set<string>, offset: int, limit: int,
                           m: Morphology, textOf: string -> string, title: string -> string, r: SearchOutcome)
  {
    exists order :: Enumerates(order, lemmas)
                    && AnsweredFor(db, AbsScores(db, urls, order), order, offset, limit, m, textOf, title, r)
  }

  /** The answer for the scores `abs` that the lemma order `order` gives. */
  ghost predicate AnsweredFor(db: Db, abs: map<PageId, nat>, order: seq<string>, offset: int, limit: int,
                              m: Morphology, textOf: string -> string, title: string -> string, r: SearchOutcome)
  {
    if abs == map[] then r == Found(0, [])
    else exists sorted :: Ranking(abs, sorted) && Stored(db, sorted)
                          && r == Outcome(db, sorted, offset, limit, SnippetOf(order, m, textOf), title)
  }

  /** The stored pages that hold every query lemma on a site in scope. */
  ghost function Hits(db: Db, urls: seq<Url>, lemmas: set<string>): set<PageId>
  {
    set p | p in db.pages && InScope(db, urls, lemmas, p)
  }

  /** The response data describe page `p`. */
  ghost predicate Listed(db: Db, p: PageId, data: seq<SearchData>)
  {
    p in db.pages && exists i :: 0 <= i < |data| && data[i].uri == db.pages[p].path && data[i].site == db.pages[p].site
  }

  /** getSnippet throws on page `p` for some iteration order of the lemmas. */
  ghost predicate SnippetThrows(db: Db, lemmas: set<string>, m: Morphology, textOf: string -> string, p: PageId)
  {
    p in db.pages && exists order :: Enumerates(order, lemmas) && SnippetOf(order, m, textOf)(db.pages[p].content).None?
  }

  /** A response to a window over `n` ranked pages: found or thrown, and a
      found one holds as many results as it counts, as many as skipping
      `offset` and keeping at most `limit` of the `n` leave. */
  ghost predicate Counted(r: SearchOutcome, n: int, offset: int, limit: int)
  {
    match r
    case Found(count, data) => count == |data| && (offset >= 0 && limit >= 0 ==> count == WindowSize(n, offset, limit))
    case Crashed => true
    case Conflict(_) => false
  }

  /** Every result is a hit, in order of decreasing relevance, and the first
      page starts at relevance 1. */
  ghost predicate InOrder(db: Db, urls: seq<Url>, lemmas: set<string>, offset: int, r: SearchOutcome)
  {
    match r
    case Found(_, data) =>
      && (forall i :: 0 <= i < |data| ==> Hit(db, urls, lemmas, data[i]))
      && (forall i, j :: 0 <= i < j < |data| ==> data[i].relevance >= data[j].relevance)
      && (offset == 0 && |data| > 0 ==> data[0].relevance == 1.0)
    case _ => true
  }

  /** With offset 0 and a limit that leaves room for all of them, every page
      of `hits` is listed. */
  ghost predicate Complete(db: Db, hits: set<PageId>, offset: int, limit: int, r: SearchOutcome)
  {
    match r
    case Found(_, data) => offset == 0 && limit >= |hits| ==> forall p :: p in hits ==> Listed(db, p, data)
    case _ => true
  }

  /** When the search throws: always on a negative offset or limit once a
      page of `hits` is scored, and otherwise only when the snippet of a page
      of `hits` throws. */
  ghost predicate CrashExplained(db: Db, lemmas: set<string>, hits: set<PageId>, offset: int, limit: int,
                                 m: Morphology, textOf: string -> string, r: SearchOutcome)
  {
    match r
    case Crashed =>
      && hits != {}
      && (offset < 0 || limit < 0 || exists p :: p in hits && SnippetThrows(db, lemmas, m, textOf, p))
    case _ => !(hits != {} && (offset < 0 || limit < 0))
  }

  /** What an answer means, with H the hits: the count is
      min(limit, max(0, |H| - offset)) and no hit gives the empty response;
      every result is a hit, in order of decreasing relevance, starting at 1
      on the first page; with offset 0 and a limit of at least |H| every hit
      is listed; and an exception comes only from a negative offset or
      limit, which always throws when there is a hit, or from a snippet that
      throws. */
  lemma AnswerSpec(db: Db, urls: seq<Url>, lemmas: set<string>, offset: int, limit: int,
                   m: Morphology, textOf: string -> string, title: string -> string, r: SearchOutcome)
    requires Consistent(db)
    requires Answered(db, urls, lemmas, offset, limit, m, textOf, title, r)
    ensures Hits(db, urls, lemmas) == {} ==> r == Found(0, [])
    ensures Counted(r, |Hits(db, urls, lemmas)|, offset, limit)
    ensures InOrder(db, urls, lemmas, offset, r)
    ensures Complete(db, Hits(db, urls, lemmas), offset, limit, r)
    ensures CrashExplained(db, lemmas, Hits(db, urls, lemmas), offset, limit, m, textOf, r)
  {
    var order :| Enumerates(order, lemmas)
                 && AnsweredFor(db, AbsScores(db, urls, order), order, offset, limit, m, textOf, title, r);
    OrderedSpec(db, urls, lemmas, order, offset, limit, m, textOf, title, r);
  }

  /** The same, for the answer of one iteration order of the lemmas. */
  lemma OrderedSpec(db: Db, urls: seq<Url>, lemmas: set<string>, order: seq<string>, offset: int, limit: int,
                    m: Morphology, textOf: string -> string, title: string -> string, r: SearchOutcome)
    requires SitesKeyed(db) && PagesOk(db) && RowsOk(db) && Enumerates(order, lemmas)
    ensures AnsweredFor(db, AbsScores(db, urls, order), order, offset, limit, m, textOf, title, r) ==>
              && (Hits(db, urls, lemmas) == {} ==> r == Found(0, []))
              && Counted(r, |Hits(db, urls, lemmas)|, offset, limit)
              && InOrder(db, urls, lemmas, offset, r)
              && Complete(db, Hits(db, urls, lemmas), offset, limit, r)
              && CrashExplained(db, lemmas, Hits(db, urls, lemmas), offset, limit, m, textOf, r)
  {
    var abs := AbsScores(db, urls, order);
    ScoredAreHits(db, urls, lemmas, order, abs);
    var hits := Hits(db, urls, lemmas);
    OrderedCount(db, urls, lemmas, order, abs, hits, offset, limit, m, textOf, title, r);
    OrderedInOrder(db, urls, lemmas, order, abs, hits, offset, limit, m, textOf, title, r);
    OrderedComplete(db, urls, lemmas, order, abs, hits, offset, limit, m, textOf, title, r);
    OrderedCrash(db, urls, lemmas, order, abs, hits, offset, limit, m, textOf, title, r);
  }

  /** The count of the answer for one iteration order of the lemmas, which
      scores the pages `abs`, the hits `hits`. */
  lemma OrderedCount(db: Db, urls: seq<Url>, lemmas: set<string>, order: seq<string>, abs: map<PageId, nat>,
                      hits: set<PageId>, offset: int, limit: int, m: Morphology, textOf: string -> string,
                      title: string -> string, r: SearchOutcome)
    requires SitesKeyed(db) && PagesOk(db) && Enumerates(order, lemmas) && Scored(db, urls, lemmas, abs)
    requires abs.Keys == hits && (abs == map[] <==> hits == {})
    ensures AnsweredFor(db, abs, order, offset, limit, m, textOf, title, r) ==> (hits == {} ==> r == Found(0, [])) && Counted(r, |hits|, offset, limit)
  {
    if abs != map[] && AnsweredFor(db, abs, order, offset, limit, m, textOf, title, r) {
      var sorted: seq<Ranked> :| Ranking(abs, sorted) && Stored(db, sorted)
                                 && r == Outcome(db, sorted, offset, limit, SnippetOf(order, m, textOf), title);
      RankedWindow(db, urls, lemmas, abs, hits, sorted, offset, limit, SnippetOf(order, m, textOf), title, r);
    }
  }

  /** The order of the answer for one iteration order of the lemmas. */
  lemma OrderedInOrder(db: Db, urls: seq<Url>, lemmas: set<string>, order: seq<string>, abs: map<PageId, nat>,
                      hits: set<PageId>, offset: int, limit: int, m: Morphology, textOf: string -> string,
                      title: string -> string, r: SearchOutcome)
    requires SitesKeyed(db) && PagesOk(db) && Enumerates(order, lemmas) && Scored(db, urls, lemmas, abs)
    requires abs.Keys == hits
    ensures AnsweredFor(db, abs, order, offset, limit, m, textOf, title, r) ==> InOrder(db, urls, lemmas, offset, r)
  {
    if abs != map[] && AnsweredFor(db, abs, order, offset, limit, m, textOf, title, r) {
      var sorted: seq<Ranked> :| Ranking(abs, sorted) && Stored(db, sorted)
                                 && r == Outcome(db, sorted, offset, limit, SnippetOf(order, m, textOf), title);
      RankedWindow(db, urls, lemmas, abs, hits, sorted, offset, limit, SnippetOf(order, m, textOf), title, r);
    }
  }

  /** The completeness of the answer for one iteration order of the lemmas. */
  lemma OrderedComplete(db: Db, urls: seq<Url>, lemmas: set<string>, order: seq<string>, abs: map<PageId, nat>,
                      hits: set<PageId>, offset: int, limit: int, m: Morphology, textOf: string -> string,
                      title: string -> string, r: SearchOutcome)
    requires SitesKeyed(db) && PagesOk(db) && Enumerates(order, lemmas) && Scored(db, urls, lemmas, abs)
    requires abs.Keys == hits
    ensures AnsweredFor(db, abs, order, offset, limit, m, textOf, title, r) ==> Complete(db, hits, offset, limit, r)
  {
    if abs != map[] && AnsweredFor(db, abs, order, offset, limit, m, textOf, title, r) {
      var sorted: seq<Ranked> :| Ranking(abs, sorted) && Stored(db, sorted)
                                 && r == Outcome(db, sorted, offset, limit, SnippetOf(order, m, textOf), title);
      RankedComplete(db, abs, hits, sorted, offset, limit, SnippetOf(order, m, textOf), title, r);
    }
  }

  /** The exceptions of the answer for one iteration order of the lemmas. */
  lemma OrderedCrash(db: Db, urls: seq<Url>, lemmas: set<string>, order: seq<string>, abs: map<PageId, nat>,
                      hits: set<PageId>, offset: int, limit: int, m: Morphology, textOf: string -> string,
                      title: string -> string, r: SearchOutcome)
    requires SitesKeyed(db) && PagesOk(db) && Enumerates(order, lemmas) && Scored(db, urls, lemmas, abs)
    requires abs.Keys == hits && (abs == map[] <==> hits == {})
    ensures AnsweredFor(db, abs, order, offset, limit, m, textOf, title, r) ==> CrashExplained(db, lemmas, hits, offset, limit, m, textOf, r)
  {
    if abs != map[] && AnsweredFor(db, abs, order, offset, limit, m, textOf, title, r) {
      var sorted: seq<Ranked> :| Ranking(abs, sorted) && Stored(db, sorted)
                                 && r == Outcome(db, sorted, offset, limit, SnippetOf(order, m, textOf), title);
      RankedCrash(db, lemmas, order, m, textOf, abs, hits, sorted, offset, limit, title, r);
    }
  }

  /** The window of a ranking of `abs`, counted against the hits. */
  lemma RankedWindow(db: Db, urls: seq<Url>, lemmas: set<string>, abs: map<PageId, nat>, hits: set<PageId>,
                     sorted: seq<Ranked>, offset: int, limit: int, snippetOf: string -> Option<string>,
                     title: string -> string, r: SearchOutcome)
    requires SitesKeyed(db) && PagesOk(db) && Scored(db, urls, lemmas, abs) && abs.Keys == hits
    requires Ranking(abs, sorted) && Stored(db, sorted)
    requires r == Outcome(db, sorted, offset, limit, snippetOf, title)
    ensures Counted(r, |hits|, offset, limit)
    ensures InOrder(db, urls, lemmas, offset, r)
  {
    RankingIsGood(db, urls, lemmas, abs, sorted);
    WindowSpec(db, urls, lemmas, sorted, offset, limit, snippetOf, title, r);
    assert |sorted| == |abs| == |hits|;
  }

  /** With offset 0 and a limit of at least the number of hits, a found
      response lists every hit. */
  lemma RankedComplete(db: Db, abs: map<PageId, nat>, hits: set<PageId>, sorted: seq<Ranked>, offset: int,
                       limit: int, snippetOf: string -> Option<string>, title: string -> string, r: SearchOutcome)
    requires SitesKeyed(db) && Stored(db, sorted) && Normalised(abs, sorted) && abs.Keys == hits
    requires r == Outcome(db, sorted, offset, limit, snippetOf, title)
    ensures Complete(db, hits, offset, limit, r)
  {
    if r.Found? && offset == 0 && limit >= |hits| {
      assert |hits| == |abs| == |sorted|;
      WindowComplete(db, sorted, limit, snippetOf, title, r);
      CoveredAreListed(db, abs, sorted, r.data);
    }
  }

  /** A ranking of the hits throws on a negative offset or limit, and with a
      valid offset and limit only when it holds a hit whose snippet
      throws. */
  lemma RankedCrash(db: Db, lemmas: set<string>, order: seq<string>, m: Morphology, textOf: string -> string,
                    abs: map<PageId, nat>, hits: set<PageId>, sorted: seq<Ranked>, offset: int, limit: int,
                    title: string -> string, r: SearchOutcome)
    requires Enumerates(order, lemmas) && Stored(db, sorted) && Normalised(abs, sorted) && abs.Keys == hits
    requires abs == map[] <==> hits == {}
    requires r == Outcome(db, sorted, offset, limit, SnippetOf(order, m, textOf), title)
    ensures CrashExplained(db, lemmas, hits, offset, limit, m, textOf, r)
  {
    if r.Crashed? && offset >= 0 && limit >= 0 {
      var i := WindowCrash(db, sorted, offset, limit, SnippetOf(order, m, textOf), title, r);
      ThrowingPageIsScored(db, lemmas, order, m, textOf, abs, sorted, i);
    }
  }

  /** Every scored page is ranked, so listing every ranked page lists every
      scored page. */
  lemma CoveredAreListed(db: Db, abs: map<PageId, nat>, sorted: seq<Ranked>, data: seq<SearchData>)
    requires forall p {:trigger p in PagesOf(sorted)} :: p in abs ==> p in PagesOf(sorted)
    requires forall i :: 0 <= i < |sorted| ==> Listed(db, sorted[i].0, data)
    ensures forall p :: p in abs ==> Listed(db, p, data)
  {
    forall p | p in abs ensures Listed(db, p, data) {
      assert p in PagesOf(sorted);
      var i :| 0 <= i < |sorted| && sorted[i].0 == p;
    }
  }

  /** A ranked page whose snippet throws is a scored page whose snippet
      throws. */
  lemma ThrowingPageIsScored(db: Db, lemmas: set<string>, order: seq<string>, m: Morphology, textOf: string -> string,
                             abs: map<PageId, nat>, sorted: seq<Ranked>, i: nat)
    requires Enumerates(order, lemmas) && Stored(db, sorted) && Normalised(abs, sorted)
    requires i < |sorted| && SnippetOf(order, m, textOf)(db.pages[sorted[i].0].content).None?
    ensures exists p :: p in abs && SnippetThrows(db, lemmas, m, textOf, p)
  {
    var p := sorted[i].0;
    assert p in abs && SnippetThrows(db, lemmas, m, textOf, p);
  }

  /** The scored pages are the hits, whatever the order of the lemmas. */
  lemma ScoredAreHits(db: Db, urls: seq<Url>, lemmas: set<string>, order: seq<string>, abs: map<PageId, nat>)
    requires RowsOk(db) && Enumerates(order, lemmas) && abs == AbsScores(db, urls, order)
    ensures abs.Keys == Hits(db, urls, lemmas)
    ensures abs == map[] <==> Hits(db, urls, lemmas) == {}
    ensures |abs| == |Hits(db, urls, lemmas)|
    ensures Scored(db, urls, lemmas, abs)
  {
    AbsScoresSpec(db, urls, order, lemmas);
    var hits := Hits(db, urls, lemmas);
    forall p ensures p in abs <==> p in hits {
      if p in abs {
        assert p in db.pages;
      }
    }
    assert abs.Keys == hits;
    assert |abs| == |abs.Keys|;
    if abs != map[] {
      var p :| p in abs;
      assert p in hits;
    }
  }

  /** The window of a good ranking: found with as many results as skip and
      limit leave, each a hit, in descending relevance, starting at 1 on
      the first page; a negative offset or limit throws. */
  lemma WindowSpec(db: Db, urls: seq<Url>, lemmas: set<string>, sorted: seq<Ranked>, offset: int, limit: int,
                   snippetOf: string -> Option<string>, title: string -> string, r: SearchOutcome)
    requires SitesKeyed(db)
    requires AllGood(db, urls, lemmas, sorted) && Descending(sorted) && sorted != [] && sorted[0].1 == 1.0
    requires Stored(db, sorted) && r == Outcome(db, sorted, offset, limit, snippetOf, title)
    ensures Counted(r, |sorted|, offset, limit)
    ensures InOrder(db, urls, lemmas, offset, r)
    ensures offset < 0 || limit < 0 ==> r.Crashed?
  {
    var w := SkipLimit(sorted, offset, limit);
    if w.Some? {
      var ranked := w.value;
      CutIsGood(db, urls, lemmas, sorted, offset, ranked);
      OutcomeOfRanked(db, urls, lemmas, ranked, snippetOf, title);
      if r.Found? && offset == 0 && |r.data| > 0 {
        assert r.data[0].relevance == ranked[0].1 == sorted[0].1;
      }
    }
  }

  /** With offset 0 and a limit of at least the ranking's length, a found
      response lists every ranked page. */
  lemma WindowComplete(db: Db, sorted: seq<Ranked>, limit: int, snippetOf: string -> Option<string>,
                       title: string -> string, r: SearchOutcome)
    requires SitesKeyed(db) && Stored(db, sorted)
    requires r == Outcome(db, sorted, 0, limit, snippetOf, title)
    requires r.Found? && limit >= |sorted|
    ensures forall i :: 0 <= i < |sorted| ==> Listed(db, sorted[i].0, r.data)
  {
    var ranked := SkipLimit(sorted, 0, limit).value;
    assert |ranked| == |sorted|;
    forall i | 0 <= i < |sorted| ensures Listed(db, sorted[i].0, r.data) {
      var p := sorted[i].0;
      assert ranked[i] == sorted[i];
      DescribeData(db, ranked, snippetOf, title, i);
      assert db.sites[db.pages[p].site].url == db.pages[p].site;
    }
  }

  /** A window that throws with a valid offset and limit holds a page whose
      snippet throws. */
  lemma WindowCrash(db: Db, sorted: seq<Ranked>, offset: int, limit: int, snippetOf: string -> Option<string>,
                    title: string -> string, r: SearchOutcome) returns (k: nat)
    requires Stored(db, sorted) && r == Outcome(db, sorted, offset, limit, snippetOf, title)
    requires r.Crashed? && offset >= 0 && limit >= 0
    ensures k < |sorted| && snippetOf(db.pages[sorted[k].0].content).None?
  {
    var ranked := SkipLimit(sorted, offset, limit).value;
    StoredWindow(db, sorted, offset, limit);
    DescribeCrash(db, ranked, snippetOf, title);
    var i :| 0 <= i < |ranked| && DataFor(db, ranked[i], snippetOf, title).None?;
    assert ranked[i] == sorted[offset + i];
    k := offset + i;
  }

  /** The pages of `urls` that hold every lemma of the query `counts`,
      ranked and described. */
  method SearchLemmas(db: Db, urls: seq<Url>, counts: map<string, nat>, offset: int, limit: int,
                      m: Morphology, textOf: string -> string, title: string -> string) returns (r: SearchOutcome)
    requires Consistent(db)
    requires forall i :: 0 <= i < |urls| ==> urls[i] in db.sites
    ensures r.Found? || r.Crashed?
    ensures Answered(db, urls, counts.Keys, offset, limit, m, textOf, title, r)
    ensures r.Found? && (offset < 0 || limit < 0) ==> r.data == []
    ensures counts == map[] ==> r == Found(0, [])
  {
    var lemmasSet, abs := ScorePages(db, urls, counts);
    if abs == map[] {
      r := Found(0, []);
      NothingScoredAnswered(db, urls, counts.Keys, lemmasSet, offset, limit, m, textOf, title);
      return;
    }
    var snippetOf := SnippetOf(lemmasSet, m, textOf);
    SnippetOfIsSnippet(lemmasSet, m, textOf);
    r := RankAndDescribe(db, urls, counts.Keys, lemmasSet, abs, offset, limit, m, textOf, snippetOf, title);
    ghost var sorted :| Ranking(abs, sorted) && Stored(db, sorted) && r == Outcome(db, sorted, offset, limit, snippetOf, title);
    RankingAnswered(db, urls, counts.Keys, lemmasSet, sorted, offset, limit, m, textOf, title);
  }

  /** With no page scored, the empty response is the answer. */
  lemma NothingScoredAnswered(db: Db, urls: seq<Url>, lemmas: set<string>, order: seq<string>, offset: int, limit: int,
                              m: Morphology, textOf: string -> string, title: string -> string)
    requires Enumerates(order, lemmas) && AbsScores(db, urls, order) == map[]
    ensures Answered(db, urls, lemmas, offset, limit, m, textOf, title, Found(0, []))
  {
    assert AnsweredFor(db, AbsScores(db, urls, order), order, offset, limit, m, textOf, title, Found(0, []));
  }

  /** The outcome of a ranking of the scored pages is the answer. */
  lemma RankingAnswered(db: Db, urls: seq<Url>, lemmas: set<string>, order: seq<string>, sorted: seq<Ranked>,
                        offset: int, limit: int, m: Morphology, textOf: string -> string, title: string -> string)
    requires Enumerates(order, lemmas)
    requires Ranking(AbsScores(db, urls, order), sorted) && Stored(db, sorted)
    ensures Answered(db, urls, lemmas, offset, limit, m, textOf, title,
                     Outcome(db, sorted, offset, limit, SnippetOf(order, m, textOf), title))
  {
    assert AnsweredFor(db, AbsScores(db, urls, order), order, offset, limit, m, textOf, title,
                       Outcome(db, sorted, offset, limit, SnippetOf(order, m, textOf), title));
  }

  /** search on one snapshot of the store, over the sites `urls`. The query's
      lemma set is enumerated in some order. */
  method SearchIn(db: Db, urls: seq<Url>, query: string, offset: int, limit: int,
                  m: Morphology, textOf: string -> string, title: string -> string) returns (r: SearchOutcome)
    requires Consistent(db)
    ensures r.Conflict? <==> !SitesExistWithStatusIndexed(db, urls)
    ensures r.Conflict? ==> r.error == NotAllIndexed
    ensures !r.Conflict? ==> Answered(db, urls, LemmaCounts(query, m).Keys, offset, limit, m, textOf, title, r)
    ensures r.Found? && (offset < 0 || limit < 0) ==> r.data == []
    ensures LemmaCounts(query, m) == map[] && !r.Conflict? ==> r == Found(0, [])
  {
    if !SitesExistWithStatusIndexed(db, urls) {
      return Conflict(NotAllIndexed);
    }
    var counts := CollectLemmas(query, m);
    r := SearchLemmas(db, urls, counts, offset, limit, m, textOf, title);
  }

  /** search(query, site, offset, limit): the sites searched are the one
      asked for, or every configured site. */
  method Search(store: Store, config: seq<SiteConfig>, query: string, site: Option<Url>, offset: int, limit: int,
                m: Morphology, textOf: string -> string, title: string -> string) returns (r: SearchOutcome)
    requires store.Valid()
    ensures r.Conflict? <==> !SitesExistWithStatusIndexed(store.Snapshot(), CreateSearchList(config, site))
    ensures r.Conflict? ==> r.error == NotAllIndexed
    ensures !r.Conflict? ==>
              Answered(store.Snapshot(), CreateSearchList(config, site), LemmaCounts(query, m).Keys, offset, limit, m, textOf, title, r)
    ensures r.Found? && (offset < 0 || limit < 0) ==> r.data == []
    ensures LemmaCounts(query, m) == map[] && !r.Conflict? ==> r == Found(0, [])
  {
    r := SearchIn(store.Snapshot(), CreateSearchList(config, site), query, offset, limit, m, textOf, title);
  }
}
