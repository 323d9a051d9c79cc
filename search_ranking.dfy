/** The ranking half of SearchServiceImpl: which lemmas of a site match the
    query (searchLemmasOnSites), which pages carry them and with what score
    (getPagesAndAbsRelevanceMap, getRelevantPagesForTheQuery), and the scope
    of a search (createSearchList, sitesExistWithStatusIndexed). */
module SearchRanking {
  import opened Util
  import opened Store
  import opened IndexingService

  /** A lemma row as the search reads it: its key and its frequency. */
  datatype LemmaEntity = LemmaEntity(key: LemmaKey, frequency: nat)

  /** The frequency limit: a lemma on 50 or more pages is too common to
      narrow a search and is not matched. */
  const MaxFrequency: nat := 50

  // ---------------------------------------------------------------------
  // Scope

  /** createSearchList: every configured url when no site is given,
      otherwise just that site. */
  function CreateSearchList(config: seq<SiteConfig>, site: Option<Url>): (r: seq<Url>)
    ensures site.Some? ==> r == [site.value]
    ensures site.None? ==> |r| == |config| && forall i :: 0 <= i < |r| ==> r[i] == config[i].url
  {
    if site.Some? then [site.value] else seq(|config|, i requires 0 <= i < |config| => config[i].url)
  }

  /** sitesExistWithStatusIndexed */
  function SitesExistWithStatusIndexed(db: Db, urls: seq<Url>): (r: bool)
    ensures r <==> forall i :: 0 <= i < |urls| ==> urls[i] in db.sites && db.sites[urls[i]].status == INDEXED
  {
    if urls == [] then true
    else urls[0] in db.sites && db.sites[urls[0]].status == INDEXED
         && SitesExistWithStatusIndexed(db, urls[1..])
  }

  // ---------------------------------------------------------------------
  // searchLemmasOnSites

  /** The rows found for the query lemmas, in the order the set is
      enumerated, without the ones at or above the frequency limit. */
  function FoundLemmas(db: Db, site: Url, query: seq<string>): (r: seq<LemmaEntity>)
    ensures |r| <= |query|
  {
    if query == [] then []
    else
      var k := LemmaKey(site, query[|query| - 1]);
      FoundLemmas(db, site, query[..|query| - 1])
      + (if k in db.lemmas && db.lemmas[k] < MaxFrequency then [LemmaEntity(k, db.lemmas[k])] else [])
  }

  /** A lemma row matches a query word on a site. */
  predicate Matches(db: Db, site: Url, t: string, e: LemmaEntity)
  {
    e.key == LemmaKey(site, t) && e.key in db.lemmas && e.frequency == db.lemmas[e.key]
    && e.frequency < MaxFrequency
  }

  lemma {:induction false} FoundLemmasMembership(db: Db, site: Url, query: seq<string>)
    ensures forall e :: e in FoundLemmas(db, site, query) <==> exists t :: t in query && Matches(db, site, t, e)
    ensures |FoundLemmas(db, site, query)| == |query| <==>
              forall t :: t in query ==> LemmaKey(site, t) in db.lemmas && db.lemmas[LemmaKey(site, t)] < MaxFrequency
    decreases |query|
  {
    if query != [] {
      var init, t := query[..|query| - 1], query[|query| - 1];
      FoundLemmasMembership(db, site, init);
      assert query == init + [t];
      forall e ensures e in FoundLemmas(db, site, query) <==> exists t' :: t' in query && Matches(db, site, t', e) {
        if e in FoundLemmas(db, site, query) && e !in FoundLemmas(db, site, init) {
          assert Matches(db, site, t, e);
        }
      }
      var k := LemmaKey(site, t);
      if |FoundLemmas(db, site, query)| == |query| {
        assert k in db.lemmas && db.lemmas[k] < MaxFrequency;
        assert |FoundLemmas(db, site, init)| == |init|;
      }
    }
  }

  /** The frequencies never decrease along `s`. */
  predicate ByFrequency(s: seq<LemmaEntity>)
  {
    forall i, j :: 0 <= i < j < |s| ==> s[i].frequency <= s[j].frequency
  }

  /** Insert `x` before the first entry of higher-or-equal frequency. */
  function InsertByFrequency(x: LemmaEntity, s: seq<LemmaEntity>): seq<LemmaEntity>
  {
    if s == [] then [x]
    else if x.frequency <= s[0].frequency then [x] + s
    else [s[0]] + InsertByFrequency(x, s[1..])
  }

  lemma {:induction false} InsertByFrequencyKeeps(x: LemmaEntity, s: seq<LemmaEntity>)
    ensures multiset(InsertByFrequency(x, s)) == multiset(s) + multiset{x}
  {
    if s != [] && x.frequency > s[0].frequency {
      InsertByFrequencyKeeps(x, s[1..]);
      assert s == [s[0]] + s[1..];
    }
  }

  /** Inserting keeps a lower bound that both `x` and `s` respect. */
  lemma {:induction false} InsertByFrequencyBound(x: LemmaEntity, s: seq<LemmaEntity>, low: int)
    requires low <= x.frequency && forall i :: 0 <= i < |s| ==> low <= s[i].frequency
    ensures forall i :: 0 <= i < |InsertByFrequency(x, s)| ==> low <= InsertByFrequency(x, s)[i].frequency
  {
    if s != [] && x.frequency > s[0].frequency {
      InsertByFrequencyBound(x, s[1..], low);
      assert forall i :: 1 <= i < |InsertByFrequency(x, s)| ==>
        InsertByFrequency(x, s)[i] == InsertByFrequency(x, s[1..])[i - 1];
    }
  }

  lemma {:induction false} InsertByFrequencySpec(x: LemmaEntity, s: seq<LemmaEntity>)
    requires ByFrequency(s)
    ensures ByFrequency(InsertByFrequency(x, s))
  {
    if s != [] && x.frequency > s[0].frequency {
      var rest := InsertByFrequency(x, s[1..]);
      InsertByFrequencySpec(x, s[1..]);
      InsertByFrequencyBound(x, s[1..], s[0].frequency);
      var r := [s[0]] + rest;
      forall i, j | 0 <= i < j < |r| ensures r[i].frequency <= r[j].frequency {
        assert r[j] == rest[j - 1];
        if i > 0 {
          assert r[i] == rest[i - 1];
        }
      }
    }
  }

  /** .sorted(Comparator.comparingInt(LemmaEntity::getFrequency)) */
  function SortByFrequency(s: seq<LemmaEntity>): seq<LemmaEntity>
  {
    if s == [] then [] else InsertByFrequency(s[0], SortByFrequency(s[1..]))
  }

  /** Sorting by frequency orders the entries and keeps each of them. */
  lemma {:induction false} SortByFrequencySpec(s: seq<LemmaEntity>)
    ensures multiset(SortByFrequency(s)) == multiset(s)
    ensures ByFrequency(SortByFrequency(s))
  {
    if s != [] {
      SortByFrequencySpec(s[1..]);
      InsertByFrequencyKeeps(s[0], SortByFrequency(s[1..]));
      InsertByFrequencySpec(s[0], SortByFrequency(s[1..]));
      assert s == [s[0]] + s[1..];
    }
  }

  /** searchLemmasOnSites(site, lemmasSet), the set enumerated as `query`. */
  function SearchLemmasOnSites(db: Db, site: Url, query: seq<string>): seq<LemmaEntity>
  {
    SortByFrequency(FoundLemmas(db, site, query))
  }

  /** The matched lemmas are exactly the site's rows for query words below the
      frequency limit, ordered by frequency; all query words match exactly
      when as many rows come back as there are query words. */
  lemma SearchLemmasOnSitesSpec(db: Db, site: Url, query: seq<string>)
    ensures ByFrequency(SearchLemmasOnSites(db, site, query))
    ensures forall e :: e in SearchLemmasOnSites(db, site, query) <==> exists t :: t in query && Matches(db, site, t, e)
    ensures |SearchLemmasOnSites(db, site, query)| == |query| <==>
              forall t :: t in query ==> LemmaKey(site, t) in db.lemmas && db.lemmas[LemmaKey(site, t)] < MaxFrequency
  {
    var f := FoundLemmas(db, site, query);
    FoundLemmasMembership(db, site, query);
    SortByFrequencySpec(f);
    var r := SearchLemmasOnSites(db, site, query);
    assert |multiset(r)| == |multiset(f)|;
    forall e ensures e in r <==> e in f {
      assert e in r <==> e in multiset(r);
      assert e in f <==> e in multiset(f);
    }
  }

  // ---------------------------------------------------------------------
  // Index rows as the search reads them

  /** indexRepository.findAllByLemmaEntity: the rows of lemma `k`, in order. */
  function RowsOf(idx: seq<IndexRow>, k: LemmaKey): (r: seq<IndexRow>)
    ensures forall x :: x in r <==> x in idx && x.key == k
  {
    if idx == [] then []
    else RowsOf(idx[..|idx| - 1], k) + (if idx[|idx| - 1].key == k then [idx[|idx| - 1]] else [])
  }

  /** indexRepository.findByPageEntityAndLemmaEntity: the rank of the row for
      (page, lemma), if there is one. A consistent store has at most one. */
  function RankOf(idx: seq<IndexRow>, page: PageId, k: LemmaKey): (r: Option<nat>)
    ensures r.Some? <==> exists x :: x in idx && x.page == page && x.key == k
    ensures r.Some? ==> IndexRow(page, k, r.value) in idx
  {
    if idx == [] then None
    else
      var x := idx[|idx| - 1];
      if x.page == page && x.key == k then Some(x.rank)
      else RankOf(idx[..|idx| - 1], page, k)
  }

  /** The map the seed loop builds: page to rank, later rows overwriting. */
  function SeedOf(rows: seq<IndexRow>): map<PageId, nat>
  {
    if rows == [] then map[]
    else SeedOf(rows[..|rows| - 1])[rows[|rows| - 1].page := rows[|rows| - 1].rank]
  }

  /** The seed holds exactly the pages with a row for the lemma, each with
      the rank of that row. */
  lemma {:induction false} SeedOfRows(idx: seq<IndexRow>, k: LemmaKey)
    ensures forall p :: p in SeedOf(RowsOf(idx, k)) <==> RankOf(idx, p, k).Some?
    ensures forall p :: p in SeedOf(RowsOf(idx, k)) ==> SeedOf(RowsOf(idx, k))[p] == RankOf(idx, p, k).value
    decreases |idx|
  {
    if idx != [] {
      var init := idx[..|idx| - 1];
      SeedOfRows(init, k);
      var x := idx[|idx| - 1];
      assert forall p :: RankOf(idx, p, k) == (if x.page == p && x.key == k then Some(x.rank) else RankOf(init, p, k));
      if x.key == k {
        var rows := RowsOf(idx, k);
        assert rows == RowsOf(init, k) + [x];
        assert rows[..|rows| - 1] == RowsOf(init, k);
        assert SeedOf(rows) == SeedOf(RowsOf(init, k))[x.page := x.rank];
      } else {
        assert RowsOf(idx, k) == RowsOf(init, k);
      }
    }
  }

  // ---------------------------------------------------------------------
  // getRelevantPagesForTheQuery: as written, and as intended

  /** What the loop of getRelevantPagesForTheQuery computes. For each seed
      page it visits the lemmas after the first; a missing row removes the
      page, a present one puts seed + rank, where seed is the value of the
      map entry captured when the iteration reached the page. So only the
      last lemma decides: the page survives when it has a row for it, with
      its seed rank plus that one rank. */
  function AsWrittenScores(idx: seq<IndexRow>, seed: map<PageId, nat>, lemmas: seq<LemmaEntity>): map<PageId, nat>
  {
    if |lemmas| <= 1 then seed
    else
      var last := lemmas[|lemmas| - 1].key;
      map p | p in seed && RankOf(idx, p, last).Some? :: seed[p] + RankOf(idx, p, last).value
  }

  /** The page has a row for lemmas[1..hi]. */
  predicate HasRowsUpTo(idx: seq<IndexRow>, p: PageId, lemmas: seq<LemmaEntity>, hi: nat)
    requires hi <= |lemmas|
  {
    hi <= 1 || (HasRowsUpTo(idx, p, lemmas, hi - 1) && RankOf(idx, p, lemmas[hi - 1].key).Some?)
  }

  lemma {:induction false} HasRowsUpToMeans(idx: seq<IndexRow>, p: PageId, lemmas: seq<LemmaEntity>, hi: nat)
    requires hi <= |lemmas|
    ensures HasRowsUpTo(idx, p, lemmas, hi) <==> forall i :: 1 <= i < hi ==> RankOf(idx, p, lemmas[i].key).Some?
  {
    if hi > 1 {
      HasRowsUpToMeans(idx, p, lemmas, hi - 1);
    }
  }

  /** The sum of the page's ranks for lemmas[1..hi], a missing row counting 0. */
  function RankSum(idx: seq<IndexRow>, p: PageId, lemmas: seq<LemmaEntity>, hi: nat): nat
    requires hi <= |lemmas|
  {
    if hi <= 1 then 0
    else
      var r := RankOf(idx, p, lemmas[hi - 1].key);
      RankSum(idx, p, lemmas, hi - 1) + (if r.Some? then r.value else 0)
  }

  /** What the loop is meant to compute: the seed pages that have a row for
      every matched lemma, scored by the sum of their ranks. */
  function IntendedScores(idx: seq<IndexRow>, seed: map<PageId, nat>, lemmas: seq<LemmaEntity>): map<PageId, nat>
  {
    map p | p in seed && HasRowsUpTo(idx, p, lemmas, |lemmas|) :: seed[p] + RankSum(idx, p, lemmas, |lemmas|)
  }

  /** The inner loop of getRelevantPagesForTheQuery for one page whose entry
      was captured with `value`: for each lemma after the first, remove the
      page when it has no row, otherwise put value + rank. */
  method VisitPage(idx: seq<IndexRow>, m: map<PageId, nat>, page: PageId, value: nat, lemmas: seq<LemmaEntity>)
    returns (r: map<PageId, nat>)
    requires page in m && m[page] == value
    ensures forall p :: p != page ==> (p in r <==> p in m) && (p in r ==> r[p] == m[p])
    ensures |lemmas| <= 1 ==> page in r && r[page] == value
    ensures |lemmas| >= 2 ==> (page in r <==> RankOf(idx, page, lemmas[|lemmas| - 1].key).Some?)
    ensures |lemmas| >= 2 && page in r ==> r[page] == value + RankOf(idx, page, lemmas[|lemmas| - 1].key).value
  {
    r := m;
    var i := 1;
    while i < |lemmas|
      invariant 1 <= i
      invariant i == 1 || i <= |lemmas|
      invariant forall p :: p != page ==> (p in r <==> p in m) && (p in r ==> r[p] == m[p])
      invariant i == 1 ==> page in r && r[page] == value
      invariant i > 1 ==> (page in r <==> RankOf(idx, page, lemmas[i - 1].key).Some?)
      invariant i > 1 && page in r ==> r[page] == value + RankOf(idx, page, lemmas[i - 1].key).value
    {
      var optionalIndexEntity := RankOf(idx, page, lemmas[i].key);
      if optionalIndexEntity.None? {
        r := r - {page};
        i := i + 1;
        continue;
      }
      var newRank := value + optionalIndexEntity.value;
      r := r[page := newRank];
      i := i + 1;
    }
  }

  /** Iterating the seed map: the pages in `done` hold their final entry in
      `goal` (or are gone when `goal` has none), the others their seed entry. */
  ghost predicate Settled(r: map<PageId, nat>, goal: map<PageId, nat>, seed: map<PageId, nat>, done: seq<PageId>)
  {
    && (forall p :: p in r <==> (p in goal && p in done) || (p in seed && p !in done))
    && (forall p :: p in r && p in done ==> r[p] == goal[p])
    && (forall p :: p in r && p !in done ==> r[p] == seed[p])
  }

  /** Once every page of the seed is done, the map is the goal. */
  lemma SettledAll(r: map<PageId, nat>, goal: map<PageId, nat>, seed: map<PageId, nat>, order: seq<PageId>)
    requires Settled(r, goal, seed, order[..|order|])
    requires goal.Keys <= seed.Keys && forall k :: k in order <==> k in seed
    ensures r == goal
  {
    assert order[..|order|] == order;
  }

  lemma SettledStep(r: map<PageId, nat>, r': map<PageId, nat>, goal: map<PageId, nat>, seed: map<PageId, nat>,
                    done: seq<PageId>, page: PageId)
    requires Settled(r, goal, seed, done) && page !in done
    requires forall p :: p != page ==> (p in r' <==> p in r) && (p in r' ==> r'[p] == r[p])
    requires page in r' <==> page in goal
    requires page in r' ==> r'[page] == goal[page]
    ensures Settled(r', goal, seed, done + [page])
  {
  }

  /** getRelevantPagesForTheQuery, as written: the value added to is the
      entry's captured value, and after a removal the next lemma may put the
      page back. */
  method GetRelevantPagesForTheQuery(idx: seq<IndexRow>, pageEntityMap: map<PageId, nat>, lemmas: seq<LemmaEntity>)
    returns (r: map<PageId, nat>)
    ensures r == AsWrittenScores(idx, pageEntityMap, lemmas)
  {
    ghost var goal := AsWrittenScores(idx, pageEntityMap, lemmas);
    assert goal.Keys <= pageEntityMap.Keys;
    var order := Enumerate(pageEntityMap.Keys);
    r := pageEntityMap;
    for n := 0 to |order|
      invariant Settled(r, goal, pageEntityMap, order[..n])
    {
      var page := order[n];
      NoDupPrefix(order, n);
      PrefixSnoc(order, n);
      var value := pageEntityMap[page];
      var r' := VisitPage(idx, r, page, value, lemmas);
      SettledStep(r, r', goal, pageEntityMap, order[..n], page);
      r := r';
    }
    SettledAll(r, goal, pageEntityMap, order);
  }

  /** The corrected inner loop for one page: its score is accumulated in a
      local and the scan stops at the first missing row. */
  method ScorePage(idx: seq<IndexRow>, page: PageId, seedRank: nat, lemmas: seq<LemmaEntity>)
    returns (present: bool, score: nat)
    ensures present <==> HasRowsUpTo(idx, page, lemmas, |lemmas|)
    ensures present ==> score == seedRank + RankSum(idx, page, lemmas, |lemmas|)
  {
    if |lemmas| <= 1 {
      return true, seedRank;
    }
    score := seedRank;
    present := true;
    var i := 1;
    while i < |lemmas| && present
      invariant 1 <= i <= |lemmas|
      invariant present <==> HasRowsUpTo(idx, page, lemmas, i)
      invariant present ==> score == seedRank + RankSum(idx, page, lemmas, i)
      invariant !present ==> !HasRowsUpTo(idx, page, lemmas, |lemmas|)
    {
      var optionalIndexEntity := RankOf(idx, page, lemmas[i].key);
      if optionalIndexEntity.None? {
        present := false;
        HasRowsUpToMeans(idx, page, lemmas, |lemmas|);
      } else {
        score := score + optionalIndexEntity.value;
      }
      i := i + 1;
    }
  }

  /** getRelevantPagesForTheQuery, corrected. */
  method RelevantPages(idx: seq<IndexRow>, pageEntityMap: map<PageId, nat>, lemmas: seq<LemmaEntity>)
    returns (r: map<PageId, nat>)
    ensures r == IntendedScores(idx, pageEntityMap, lemmas)
  {
    ghost var goal := IntendedScores(idx, pageEntityMap, lemmas);
    assert goal.Keys <= pageEntityMap.Keys;
    var order := Enumerate(pageEntityMap.Keys);
    r := pageEntityMap;
    for n := 0 to |order|
      invariant Settled(r, goal, pageEntityMap, order[..n])
    {
      var page := order[n];
      NoDupPrefix(order, n);
      PrefixSnoc(order, n);
      var present, score := ScorePage(idx, page, pageEntityMap[page], lemmas);
      var r' := if present then r[page := score] else r - {page};
      SettledStep(r, r', goal, pageEntityMap, order[..n], page);
      r := r';
    }
    SettledAll(r, goal, pageEntityMap, order);
  }

  /** With one or two matched lemmas the loop as written does what it is
      meant to: the seed page survives exactly when it has a row for the
      second lemma, scored by the sum of both ranks. */
  lemma AsWrittenAgreesUpToTwoLemmas(idx: seq<IndexRow>, seed: map<PageId, nat>, lemmas: seq<LemmaEntity>)
    requires |lemmas| <= 2
    ensures AsWrittenScores(idx, seed, lemmas) == IntendedScores(idx, seed, lemmas)
  {
    var w, t := AsWrittenScores(idx, seed, lemmas), IntendedScores(idx, seed, lemmas);
    if |lemmas| == 2 {
      forall p | p in seed
        ensures (HasRowsUpTo(idx, p, lemmas, 2) <==> RankOf(idx, p, lemmas[1].key).Some?)
        ensures RankOf(idx, p, lemmas[1].key).Some? ==> RankSum(idx, p, lemmas, 2) == RankOf(idx, p, lemmas[1].key).value
      {
        if RankOf(idx, p, lemmas[1].key).None? {
          assert !HasRowsUpTo(idx, p, lemmas, 2);
        }
      }
    } else {
      forall p | p in seed ensures HasRowsUpTo(idx, p, lemmas, |lemmas|) && RankSum(idx, p, lemmas, |lemmas|) == 0 {
      }
    }
    assert w.Keys == t.Keys;
    assert forall p :: p in w ==> w[p] == t[p];
  }

  /** With three lemmas the loop as written keeps a page that lacks a row for
      the middle lemma, and scores it without that lemma's rank: page 0 has
      rows for the first and last lemma only. */
  lemma AsWrittenKeepsPageMissingMiddleLemma()
    ensures
      var a, b, c := LemmaKey("s", "a"), LemmaKey("s", "b"), LemmaKey("s", "c");
      var idx := [IndexRow(0, a, 1), IndexRow(0, c, 1)];
      var lemmas := [LemmaEntity(a, 1), LemmaEntity(b, 1), LemmaEntity(c, 1)];
      var seed := SeedOf(RowsOf(idx, a));
      && AsWrittenScores(idx, seed, lemmas) == map[0 := 2]
      && IntendedScores(idx, seed, lemmas) == map[]
  {
    var a, b, c := LemmaKey("s", "a"), LemmaKey("s", "b"), LemmaKey("s", "c");
    assert a != c && a != b && b != c by {
      assert "a"[0] != "c"[0] && "a"[0] != "b"[0] && "b"[0] != "c"[0];
    }
    var r0, r1 := IndexRow(0, a, 1), IndexRow(0, c, 1);
    var idx := [r0, r1];
    var lemmas := [LemmaEntity(a, 1), LemmaEntity(b, 1), LemmaEntity(c, 1)];
    assert idx[..1] == [r0] && [r0][..0] == [];
    assert RowsOf([r0], a) == [r0] by {
      assert RowsOf([r0][..0], a) == [];
    }
    assert RowsOf(idx, a) == [r0];
    var seed := SeedOf(RowsOf(idx, a));
    assert seed == map[0 := 1] by {
      assert SeedOf([r0]) == SeedOf([r0][..0])[0 := 1];
    }
    assert RankOf(idx, 0, c) == Some(1);
    assert RankOf(idx, 0, b).None?;
    assert lemmas[1].key == b;
    assert !HasRowsUpTo(idx, 0, lemmas, 3);
    var w := AsWrittenScores(idx, seed, lemmas);
    assert w.Keys == {0};
    assert w == map[0 := 2];
    assert IntendedScores(idx, seed, lemmas).Keys == {};
  }

  /** Every page the corrected loop keeps has a row for every matched lemma
      after the first, and scores at least its seed rank; a page without a
      row for the last (most frequent) lemma is dropped, by both loops. */
  lemma IntendedScoresSpec(idx: seq<IndexRow>, seed: map<PageId, nat>, lemmas: seq<LemmaEntity>)
    ensures forall p :: p in IntendedScores(idx, seed, lemmas) ==>
              p in seed && (forall i :: 1 <= i < |lemmas| ==> RankOf(idx, p, lemmas[i].key).Some?)
              && IntendedScores(idx, seed, lemmas)[p] >= seed[p]
    ensures |lemmas| >= 2 ==>
              forall p :: RankOf(idx, p, lemmas[|lemmas| - 1].key).None? ==>
                p !in IntendedScores(idx, seed, lemmas) && p !in AsWrittenScores(idx, seed, lemmas)
  {
    forall p | p in IntendedScores(idx, seed, lemmas)
      ensures forall i :: 1 <= i < |lemmas| ==> RankOf(idx, p, lemmas[i].key).Some?
    {
      HasRowsUpToMeans(idx, p, lemmas, |lemmas|);
    }
  }
}
