/** One node of the crawler (CreatingSiteMap): the status-code test, the
    canonical path of a link, the validity test of a link, the per-node link
    loop that saves pages, queues child tasks and indexes each page, and the
    crawl of the queued children, run one after another. */
module CreatingSiteMap {
  import opened Util
  import opened Store
  import opened LemmasAndIndexes

  // ---------------------------------------------------------------------
  // isFirstDigitNotFourOrFive

  function DigitChar(d: nat): char
    requires d < 10
  {
    "0123456789"[d]
  }

  /** Decimal digits of a natural number, without leading zeros. */
  function NatToString(n: nat): (r: string)
    ensures |r| > 0
  {
    if n < 10 then [DigitChar(n)] else NatToString(n / 10) + [DigitChar(n % 10)]
  }

  /** String.valueOf(int) */
  function IntToString(n: int): (r: string)
    ensures |r| > 0
  {
    if n < 0 then "-" + NatToString(-n) else NatToString(n)
  }

  /** The most significant decimal digit of `n`. */
  function LeadingDigit(n: nat): (d: nat)
    ensures d < 10
  {
    if n < 10 then n else LeadingDigit(n / 10)
  }

  /** isFirstDigitNotFourOrFive: the first character of the decimal text of
      the status code is neither '4' nor '5'. */
  predicate IsFirstDigitNotFourOrFive(statusCode: int)
  {
    var status := IntToString(statusCode);
    !(status[0] == '4' || status[0] == '5')
  }

  lemma {:induction false} FirstCharIsLeadingDigit(n: nat)
    ensures NatToString(n)[0] == DigitChar(LeadingDigit(n))
  {
    if n >= 10 {
      FirstCharIsLeadingDigit(n / 10);
    }
  }

  /** The test fails exactly for non-negative codes whose leading digit is 4
      or 5; a negative code starts with '-' and passes. */
  lemma FirstDigitTest(statusCode: int)
    ensures !IsFirstDigitNotFourOrFive(statusCode)
            <==> statusCode >= 0 && (LeadingDigit(statusCode) == 4 || LeadingDigit(statusCode) == 5)
  {
    if statusCode >= 0 {
      FirstCharIsLeadingDigit(statusCode);
    }
  }

  /** On three-digit HTTP codes the test rejects exactly the 4xx and 5xx
      classes. */
  lemma HttpErrorClasses(statusCode: int)
    requires 100 <= statusCode <= 999
    ensures !IsFirstDigitNotFourOrFive(statusCode) <==> 400 <= statusCode < 600
  {
    FirstDigitTest(statusCode);
    var tens := statusCode / 10;
    assert 10 <= tens < 100;
    assert LeadingDigit(statusCode) == LeadingDigit(tens) == LeadingDigit(tens / 10);
    assert tens / 10 == statusCode / 100;
  }

  // ---------------------------------------------------------------------
  // getHref: the last match of (?<=(.ru|.com))([^;]*), with "/" appended

  /** The characters `.` does not match in a java.util.regex pattern. */
  predicate IsLineTerminator(c: char)
  {
    c == '\n' || c == '\r' || c == '\U{85}' || c == '\U{2028}' || c == '\U{2029}'
  }

  /** The lookbehind (?<=(.ru|.com)) holds at position `p` of `s`. */
  predicate LookBehind(s: string, p: int)
  {
    && 0 <= p <= |s|
    && ((p >= 3 && !IsLineTerminator(s[p - 3]) && s[p - 2..p] == "ru")
        || (p >= 4 && !IsLineTerminator(s[p - 4]) && s[p - 3..p] == "com"))
  }

  /** The end of the greedy group [^;]* that starts at `p`. */
  function NextSemi(s: string, p: nat): (q: nat)
    requires p <= |s|
    ensures p <= q <= |s|
    ensures q < |s| ==> s[q] == ';'
    ensures forall j :: p <= j < q ==> s[j] != ';'
    decreases |s| - p
  {
    if p == |s| || s[p] == ';' then p else NextSemi(s, p + 1)
  }

  /** href.endsWith("/") ? href : href + "/" */
  function EnsureSlash(h: string): (r: string)
  {
    if EndsWith(h, "/") then h else h + "/"
  }

  /** Matcher.find() repeated from position `from`, `href` being the value
      kept from the previous match. A match starts at the first lookbehind
      position at or after `from` and runs to the next ';'; the next search
      starts at its end, or one further when the match was empty. */
  function HrefScan(s: string, from: nat, href: string): string
    decreases |s| + 1 - from
  {
    if from > |s| then href
    else if !LookBehind(s, from) then HrefScan(s, from + 1, href)
    else
      var q := NextSemi(s, from);
      HrefScan(s, if q == from then q + 1 else q, EnsureSlash(s[from..q]))
  }

  /** The value getHref returns for `absHref`. */
  function Href(absHref: string): string
  {
    HrefScan(absHref, 0, "")
  }

  /** With no lookbehind position left, the scan keeps the previous value. */
  lemma {:induction false} HrefScanNone(s: string, from: nat, href: string)
    requires forall p :: from <= p <= |s| ==> !LookBehind(s, p)
    ensures HrefScan(s, from, href) == href
    decreases |s| + 1 - from
  {
    if from <= |s| {
      HrefScanNone(s, from + 1, href);
    }
  }

  /** `result` is the slash-terminated group of the lookbehind position `p`,
      after which no further match can start. */
  ghost predicate LastMatch(s: string, p: nat, result: string)
  {
    && p <= |s| && LookBehind(s, p)
    && result == EnsureSlash(s[p..NextSemi(s, p)])
    && forall p' :: p < p' <= |s| && LookBehind(s, p') ==> p' < NextSemi(s, p)
  }

  /** Otherwise the scan ends with the group of its last match. */
  lemma {:induction false} HrefScanResult(s: string, from: nat, href: string)
    requires exists p :: from <= p <= |s| && LookBehind(s, p)
    ensures exists p :: from <= p && LastMatch(s, p, HrefScan(s, from, href))
    decreases |s| + 1 - from
  {
    if !LookBehind(s, from) {
      var p :| from <= p <= |s| && LookBehind(s, p);
      assert p != from;
      HrefScanResult(s, from + 1, href);
      var last :| from + 1 <= last && LastMatch(s, last, HrefScan(s, from + 1, href));
      assert HrefScan(s, from, href) == HrefScan(s, from + 1, href);
      assert from <= last && LastMatch(s, last, HrefScan(s, from, href));
    } else {
      var q := NextSemi(s, from);
      var next := if q == from then q + 1 else q;
      var h := EnsureSlash(s[from..q]);
      assert HrefScan(s, from, href) == HrefScan(s, next, h);
      if exists p :: next <= p <= |s| && LookBehind(s, p) {
        HrefScanResult(s, next, h);
        var last :| next <= last && LastMatch(s, last, HrefScan(s, next, h));
        assert from <= last && LastMatch(s, last, HrefScan(s, from, href));
      } else {
        HrefScanLastMatch(s, from, next, h);
      }
    }
  }

  /** A match at `from` after which no match starts is the last one. */
  lemma HrefScanLastMatch(s: string, from: nat, next: nat, h: string)
    requires from <= |s| && LookBehind(s, from)
    requires next == (if NextSemi(s, from) == from then from + 1 else NextSemi(s, from))
    requires h == EnsureSlash(s[from..NextSemi(s, from)])
    requires !exists p :: next <= p <= |s| && LookBehind(s, p)
    ensures LastMatch(s, from, HrefScan(s, next, h))
  {
    HrefScanNone(s, next, h);
  }

  /** getHref yields "" exactly when the pattern never matches, and otherwise
      the group of a match, ending in "/", after which no match can start. */
  lemma HrefShape(absHref: string)
    ensures Href(absHref) == "" <==> forall p :: 0 <= p <= |absHref| ==> !LookBehind(absHref, p)
    ensures Href(absHref) != "" ==> EndsWith(Href(absHref), "/")
    ensures Href(absHref) != "" ==>
              exists p :: LookBehind(absHref, p)
                          && Href(absHref) == EnsureSlash(absHref[p..NextSemi(absHref, p)])
                          && forall p' :: p < p' <= |absHref| && LookBehind(absHref, p') ==> p' < NextSemi(absHref, p)
  {
    if exists p :: 0 <= p <= |absHref| && LookBehind(absHref, p) {
      HrefScanResult(absHref, 0, "");
    } else {
      HrefScanNone(absHref, 0, "");
    }
  }

  /** getHref(absHref) */
  method GetHref(absHref: string) returns (href: string)
    ensures href == Href(absHref)
    ensures href == "" <==> forall p :: 0 <= p <= |absHref| ==> !LookBehind(absHref, p)
    ensures href != "" ==> EndsWith(href, "/")
  {
    href := "";
    var from := 0;
    while from <= |absHref|
      invariant from <= |absHref| + 1
      invariant HrefScan(absHref, from, href) == Href(absHref)
      decreases |absHref| + 1 - from
    {
      if LookBehind(absHref, from) {
        var q := from;
        while q < |absHref| && absHref[q] != ';'
          invariant from <= q <= |absHref|
          invariant NextSemi(absHref, q) == NextSemi(absHref, from)
        {
          q := q + 1;
        }
        href := absHref[from..q];
        href := if !EndsWith(href, "/") then href + "/" else href;
        from := if q == from then q + 1 else q;
      } else {
        from := from + 1;
      }
    }
    HrefShape(absHref);
  }

  // ---------------------------------------------------------------------
  // The validity test of a link

  /** The part of linkIsValid that does not look at the store: the link lies
      under the root, is no fragment, escape, picture, archive, dump or
      config, does not end in "null", and has a path. */
  predicate LinkShapeOk(absHref: string, root: string, href: string)
  {
    && Contains(absHref, root)
    && !Contains(absHref, "#")
    && !Contains(absHref, "%")
    && !Contains(absHref, ".jpg")
    && !Contains(absHref, ".zip")
    && !Contains(absHref, ".sql")
    && !Contains(absHref, ".yaml")
    && !EndsWith(absHref, "null")
    && href != ""
  }

  /** linkIsValid: the shape test, and no page of any site has the path yet
      (pageRepository.findByPath). */
  predicate LinkIsValid(absHref: string, root: string, href: string, db: Db)
  {
    LinkShapeOk(absHref, root, href) && !PathExists(db, href)
  }

  /** The links the loop of compute accepts from position `i` on, in order,
      when `taken` are the paths already stored: each accepted link's path is
      taken from then on. */
  function AcceptedFrom(links: seq<string>, i: nat, root: string, taken: set<string>): seq<string>
    requires i <= |links|
    decreases |links| - i
  {
    if i == |links| then []
    else
      var h := Href(links[i]);
      if LinkShapeOk(links[i], root, h) && h !in taken then [links[i]] + AcceptedFrom(links, i + 1, root, taken + {h})
      else AcceptedFrom(links, i + 1, root, taken)
  }

  /** Every link the loop accepts has the shape the root admits. */
  lemma {:induction false} AcceptedShape(links: seq<string>, i: nat, root: string, taken: set<string>)
    requires i <= |links|
    ensures forall a :: a in AcceptedFrom(links, i, root, taken) ==> LinkShapeOk(a, root, Href(a))
    decreases |links| - i
  {
    if i < |links| {
      AcceptedShape(links, i + 1, root, taken);
      AcceptedShape(links, i + 1, root, taken + {Href(links[i])});
    }
  }

  /** No two links of `r` have the same path. */
  predicate DistinctPaths(r: seq<string>)
  {
    forall x, y :: 0 <= x < y < |r| ==> Href(r[x]) != Href(r[y])
  }

  /** Every accepted link comes from the list, passes the shape test, has a
      path not stored before, and no two accepted links share a path. */
  lemma {:induction false} AcceptedAreFreshAndDistinct(links: seq<string>, i: nat, root: string, taken: set<string>)
    requires i <= |links|
    ensures forall a :: a in AcceptedFrom(links, i, root, taken) ==>
              a in links[i..] && LinkShapeOk(a, root, Href(a)) && Href(a) !in taken
    ensures DistinctPaths(AcceptedFrom(links, i, root, taken))
    decreases |links| - i
  {
    if i < |links| {
      var h := Href(links[i]);
      if LinkShapeOk(links[i], root, h) && h !in taken {
        AcceptedAreFreshAndDistinct(links, i + 1, root, taken + {h});
        var rest := AcceptedFrom(links, i + 1, root, taken + {h});
        var r := [links[i]] + rest;
        forall x, y | 0 <= x < y < |r| ensures Href(r[x]) != Href(r[y]) {
          if x == 0 {
            assert r[y] == rest[y - 1] && r[y] in rest;
          } else {
            assert r[x] == rest[x - 1] && r[y] == rest[y - 1];
          }
        }
        forall a | a in rest ensures a in links[i..] {
          assert links[i + 1..] == links[i..][1..];
        }
      } else {
        AcceptedAreFreshAndDistinct(links, i + 1, root, taken);
        forall a | a in AcceptedFrom(links, i + 1, root, taken) ensures a in links[i..] {
          assert links[i + 1..] == links[i..][1..];
        }
      }
    }
  }

  // ---------------------------------------------------------------------
  // The crawler node

  /** What the network and the other threads contribute, as inputs:
      - status(u): the status code getResponse(u) returns;
      - links(u): the abs:href attributes of the `a` elements of getDocument(u);
      - content(u): getDocument(u).html();
      - fault(u): the lemma entry at which the store throws while the page
        fetched from u is indexed, if any;
      - stopAt(u): a stop request clears the flag while the page fetched from
        u is being indexed. */
  datatype Web = Web(status: Url -> int, links: Url -> seq<string>, content: Url -> string,
                     fault: Url -> Option<nat>, stopAt: Url -> bool)

  const StoppedByUser: string := "Индексация прервана пользователем"

  /** mapToNewPageEntity */
  function MapToNewPageEntity(site: Url, href: string, statusCode: int, content: string): PageRow
  {
    PageRow(site, href, statusCode, content)
  }

  /** The page rows compute saves for the links `saved`, in order. */
  function SavedRows(site: Url, code: int, saved: seq<string>, web: Web): (rows: seq<PageRow>)
    ensures |rows| == |saved|
  {
    if saved == [] then []
    else
      var a := saved[|saved| - 1];
      SavedRows(site, code, saved[..|saved| - 1], web) + [MapToNewPageEntity(site, Href(a), code, web.content(a))]
  }

  /** The i-th row saved is the page of the i-th link, with this site and
      the node's status code. */
  lemma {:induction false} SavedRowsShape(site: Url, code: int, saved: seq<string>, web: Web)
    ensures forall i :: 0 <= i < |saved| ==>
              SavedRows(site, code, saved, web)[i] == PageRow(site, Href(saved[i]), code, web.content(saved[i]))
    decreases |saved|
  {
    if saved != [] {
      var init := saved[..|saved| - 1];
      SavedRowsShape(site, code, init, web);
      forall i | 0 <= i < |saved|
        ensures SavedRows(site, code, saved, web)[i] == PageRow(site, Href(saved[i]), code, web.content(saved[i]))
      {
        if i < |init| {
          assert init[i] == saved[i];
        }
      }
    }
  }

  /** The page table after `rows` were saved one by one, the first under the
      id `next`. */
  function AddPages(pages: map<PageId, PageRow>, next: nat, rows: seq<PageRow>): map<PageId, PageRow>
  {
    if rows == [] then pages
    else AddPages(pages, next, rows[..|rows| - 1])[next + |rows| - 1 := rows[|rows| - 1]]
  }

  /** Saving rows one by one keeps the pages already there (all numbered
      below `next`) and adds exactly the ids next, next + 1, ... holding the
      rows in order. */
  lemma {:induction false} AddPagesShape(pages: map<PageId, PageRow>, next: nat, rows: seq<PageRow>)
    requires forall p :: p in pages ==> p < next
    ensures forall p :: p in AddPages(pages, next, rows) <==> p in pages || next <= p < next + |rows|
    ensures forall p :: p in pages ==> AddPages(pages, next, rows)[p] == pages[p]
    ensures forall i :: 0 <= i < |rows| ==> next + i in AddPages(pages, next, rows) && AddPages(pages, next, rows)[next + i] == rows[i]
    decreases |rows|
  {
    if rows != [] {
      var init := rows[..|rows| - 1];
      AddPagesShape(pages, next, init);
      forall i | 0 <= i < |rows| ensures next + i in AddPages(pages, next, rows) && AddPages(pages, next, rows)[next + i] == rows[i] {
        if i < |init| {
          assert init[i] == rows[i];
        }
      }
    }
  }

  /** The pages of `db` are those of `db0` plus one new page per link of
      `saved`, numbered in order from db0's next id, each with this site, the
      link's path, the status code `code` and the link's content. */
  ghost predicate NewPages(db0: Db, db: Db, site: Url, code: int, saved: seq<string>, web: Web)
  {
    && db.nextPageId == db0.nextPageId + |saved|
    && db.pages == AddPages(db0.pages, db0.nextPageId, SavedRows(site, code, saved, web))
  }

  /** An index row whose rank is the count of its lemma in its page. */
  ghost predicate RankIsCount(db: Db, r: IndexRow, m: Morphology)
  {
    && r.page in db.pages
    && r.key.text in LemmaCounts(db.pages[r.page].content, m)
    && r.rank == LemmaCounts(db.pages[r.page].content, m)[r.key.text]
  }

  /** The rows of `db0` are kept in front, and every row added since belongs
      to a page stored since and ranks its lemma by its count in the page. */
  ghost predicate RowsOfNewPages(db0: Db, db: Db, m: Morphology)
  {
    && |db0.indexes| <= |db.indexes|
    && db.indexes[..|db0.indexes|] == db0.indexes
    && forall j :: |db0.indexes| <= j < |db.indexes| ==>
         db.indexes[j].page >= db0.nextPageId && RankIsCount(db, db.indexes[j], m)
  }

  /** updateStatusFailed(siteEntity): the row turned FAILED at time `now`
      with the stop message. */
  function Failed(row: SiteRow, now: nat): SiteRow
  {
    row.(status := FAILED, statusTime := now, lastError := Some(StoppedByUser))
  }

  /** updateStatusFailed */
  method UpdateStatusFailed(store: Store, site: Url)
    requires store.Valid() && site in store.sites
    modifies store`sites, store`clock
    ensures store.Valid()
    ensures store.sites == old(store.sites)[site := Failed(old(store.sites[site]), old(store.clock))]
    ensures store.Snapshot() == old(store.Snapshot()).(sites := store.sites)
  {
    var now := store.Now();
    store.SaveSite(Failed(store.sites[site], now));
  }

  /** The site rows after a node: only status times moved, except that the
      node's own site was turned FAILED when the node was stopped. */
  ghost predicate SitesAfter(before: map<Url, SiteRow>, after: map<Url, SiteRow>, site: Url, failed: bool)
  {
    && after.Keys == before.Keys
    && forall u :: u in after ==>
         Untimed(after[u]) == Untimed(if failed && u == site then Failed(before[u], 0) else before[u])
  }

  /** A link loop pass that saved `more`, none or one page, extends the pages
      saved so far. */
  lemma NewPagesCompose(db0: Db, db1: Db, db2: Db, site: Url, code: int,
                        saved: seq<string>, more: seq<string>, web: Web)
    requires |more| <= 1
    requires NewPages(db0, db1, site, code, saved, web)
    requires NewPages(db1, db2, site, code, more, web)
    ensures NewPages(db0, db2, site, code, saved + more, web)
  {
    if more == [] {
      assert saved + more == saved;
    } else {
      var all := saved + more;
      assert all[..|all| - 1] == saved;
      var a := more[0];
      var row := MapToNewPageEntity(site, Href(a), code, web.content(a));
      assert more[..0] == [];
      assert SavedRows(site, code, more, web) == [row];
      var rows := SavedRows(site, code, all, web);
      assert rows == SavedRows(site, code, saved, web) + [row];
      assert rows[..|rows| - 1] == SavedRows(site, code, saved, web);
      assert [row][..0] == [];
      assert AddPages(db1.pages, db1.nextPageId, []) == db1.pages;
      assert db2.pages == db1.pages[db1.nextPageId := row];
    }
  }

  lemma RowsOfNewPagesCompose(db0: Db, db1: Db, db2: Db, m: Morphology)
    requires RowsOfNewPages(db0, db1, m) && RowsOfNewPages(db1, db2, m)
    requires db0.nextPageId <= db1.nextPageId
    requires forall p :: p in db1.pages ==> p in db2.pages && db2.pages[p] == db1.pages[p]
    ensures RowsOfNewPages(db0, db2, m)
  {
    var n0, n1 := |db0.indexes|, |db1.indexes|;
    assert db2.indexes[..n0] == db2.indexes[..n1][..n0];
    forall j | n0 <= j < |db2.indexes|
      ensures db2.indexes[j].page >= db0.nextPageId && RankIsCount(db2, db2.indexes[j], m)
    {
      if j < n1 {
        assert db2.indexes[j] == db1.indexes[j];
        assert RankIsCount(db1, db1.indexes[j], m);
      }
    }
  }

  /** The pages saved for the links `saved`, numbered in order from `next`,
      are indexed: each has the index rows creatingLemmasAndIndexes writes
      for the link's content. */
  ghost predicate SavedIndexed(next: nat, db: Db, site: Url, saved: seq<string>, web: Web, m: Morphology)
  {
    forall i :: 0 <= i < |saved| ==> Indexed(db, next + i, site, web.content(saved[i]), m, web.fault(saved[i]))
  }

  /** What a node has done to the store so far: the pages it saved for
      `saved`, the index rows of those pages, and the site rows. */
  ghost predicate Progress(db0: Db, db: Db, site: Url, code: int, saved: seq<string>, web: Web,
                           m: Morphology, cancelled: bool)
  {
    && NewPages(db0, db, site, code, saved, web)
    && RowsOfNewPages(db0, db, m)
    && SavedIndexed(db0.nextPageId, db, site, saved, web, m)
    && SitesAfter(db0.sites, db.sites, site, cancelled)
  }

  /** Rows added for pages numbered from db1's next id on leave an earlier
      page indexed as it was. */
  lemma IndexedOfOldPage(db1: Db, db2: Db, p: PageId, site: Url, content: string, m: Morphology,
                         fault: Option<nat>)
    requires p < db1.nextPageId && RowsOfNewPages(db1, db2, m)
    requires Indexed(db1, p, site, content, m, fault)
    ensures Indexed(db2, p, site, content, m, fault)
  {
    EdgesKept(db1.indexes, db2.indexes, p);
    IndexedKept(db1, db2, p, site, content, m, fault);
  }

  /** Rows added for pages numbered from db1's next id on leave the pages
      saved before indexed. */
  lemma SavedIndexedKept(next: nat, db1: Db, db2: Db, site: Url, saved: seq<string>, web: Web, m: Morphology)
    requires next + |saved| <= db1.nextPageId
    requires SavedIndexed(next, db1, site, saved, web, m)
    requires RowsOfNewPages(db1, db2, m)
    ensures SavedIndexed(next, db2, site, saved, web, m)
  {
    forall i | 0 <= i < |saved|
      ensures Indexed(db2, next + i, site, web.content(saved[i]), m, web.fault(saved[i]))
    {
      IndexedOfOldPage(db1, db2, next + i, site, web.content(saved[i]), m, web.fault(saved[i]));
    }
  }

  /** A pass of the link loop that saved `more` extends the progress. */
  lemma ProgressStep(db0: Db, db1: Db, db2: Db, site: Url, code: int, saved: seq<string>, more: seq<string>,
                     web: Web, m: Morphology, cancelled: bool)
    requires |more| <= 1 && PagesOk(db1)
    requires Progress(db0, db1, site, code, saved, web, m, false)
    requires NewPages(db1, db2, site, code, more, web) && RowsOfNewPages(db1, db2, m)
    requires SavedIndexed(db1.nextPageId, db2, site, more, web, m)
    requires SitesAfter(db1.sites, db2.sites, site, cancelled)
    ensures Progress(db0, db2, site, code, saved + more, web, m, cancelled)
  {
    PagesStep(db0, db1, db2, site, code, saved, more, web, m);
    SavedIndexedStep(db0, db1, db2, site, saved, more, web, m);
    SitesAfterCompose(db0.sites, db1.sites, db2.sites, site, cancelled);
  }

  /** The pages and rows of a pass of the link loop extend those saved so
      far. */
  lemma PagesStep(db0: Db, db1: Db, db2: Db, site: Url, code: int, saved: seq<string>, more: seq<string>,
                  web: Web, m: Morphology)
    requires |more| <= 1 && PagesOk(db1)
    requires NewPages(db0, db1, site, code, saved, web) && RowsOfNewPages(db0, db1, m)
    requires NewPages(db1, db2, site, code, more, web) && RowsOfNewPages(db1, db2, m)
    ensures NewPages(db0, db2, site, code, saved + more, web) && RowsOfNewPages(db0, db2, m)
  {
    AddPagesShape(db1.pages, db1.nextPageId, SavedRows(site, code, more, web));
    NewPagesCompose(db0, db1, db2, site, code, saved, more, web);
    RowsOfNewPagesCompose(db0, db1, db2, m);
  }

  /** The page a pass of the link loop indexed joins those indexed so far. */
  lemma SavedIndexedStep(db0: Db, db1: Db, db2: Db, site: Url, saved: seq<string>, more: seq<string>,
                         web: Web, m: Morphology)
    requires db1.nextPageId == db0.nextPageId + |saved|
    requires SavedIndexed(db0.nextPageId, db1, site, saved, web, m)
    requires RowsOfNewPages(db1, db2, m)
    requires SavedIndexed(db1.nextPageId, db2, site, more, web, m)
    ensures SavedIndexed(db0.nextPageId, db2, site, saved + more, web, m)
  {
    SavedIndexedKept(db0.nextPageId, db1, db2, site, saved, web, m);
    SavedIndexedAppend(db0.nextPageId, db2, site, saved, more, web, m);
  }

  /** The pages of two runs of saves, numbered one after the other. */
  lemma SavedIndexedAppend(next: nat, db: Db, site: Url, saved: seq<string>, more: seq<string>, web: Web, m: Morphology)
    requires SavedIndexed(next, db, site, saved, web, m)
    requires SavedIndexed(next + |saved|, db, site, more, web, m)
    ensures SavedIndexed(next, db, site, saved + more, web, m)
  {
    forall i | 0 <= i < |saved + more|
      ensures Indexed(db, next + i, site, web.content((saved + more)[i]), m, web.fault((saved + more)[i]))
    {
      if i >= |saved| {
        assert (saved + more)[i] == more[i - |saved|];
        assert next + i == next + |saved| + (i - |saved|);
      }
    }
  }

  lemma SitesAfterCompose(s0: map<Url, SiteRow>, s1: map<Url, SiteRow>, s2: map<Url, SiteRow>, site: Url, failed: bool)
    requires SitesAfter(s0, s1, site, false) && SitesAfter(s1, s2, site, failed)
    ensures SitesAfter(s0, s2, site, failed)
  {
  }

  lemma FailAfterTouched(before: map<Url, SiteRow>, mid: map<Url, SiteRow>, site: Url, now: nat)
    requires OnlyTimesTouched(before, mid) && site in mid
    ensures SitesAfter(before, mid[site := Failed(mid[site], now)], site, true)
  {
  }

  /** The link loop accepts `absHref` in the state `db`. */
  predicate Accepts(absHref: string, root: string, db: Db)
  {
    LinkIsValid(absHref, root, Href(absHref), db)
  }

  /** One link of the loop, as AcceptedFrom sees it. */
  lemma AcceptedStep(links: seq<string>, i: nat, root: string, db: Db, taken': set<string>)
    requires i < |links|
    requires taken' == Paths(db) + (if Accepts(links[i], root, db) then {Href(links[i])} else {})
    ensures AcceptedFrom(links, i, root, Paths(db))
            == (if Accepts(links[i], root, db) then [links[i]] else []) + AcceptedFrom(links, i + 1, root, taken')
  {
    var h := Href(links[i]);
    assert h in Paths(db) <==> PathExists(db, h);
    if !Accepts(links[i], root, db) {
      assert taken' == Paths(db);
      assert AcceptedFrom(links, i, root, Paths(db)) == AcceptedFrom(links, i + 1, root, Paths(db));
      assert [] + AcceptedFrom(links, i + 1, root, taken') == AcceptedFrom(links, i + 1, root, taken');
    }
  }

  /** A pass of the link loop keeps the links queued so far a prefix of the
      links the loop accepts. */
  lemma AcceptedPass(links: seq<string>, i: nat, root: string, before: Db, after: Db,
                     tasksBefore: seq<string>, tasks: seq<string>, all: seq<string>)
    requires i < |links|
    requires tasksBefore + AcceptedFrom(links, i, root, Paths(before)) == all
    requires tasks == tasksBefore + (if Accepts(links[i], root, before) then [links[i]] else [])
    requires Paths(after) == Paths(before) + (if Accepts(links[i], root, before) then {Href(links[i])} else {})
    ensures tasks + AcceptedFrom(links, i + 1, root, Paths(after)) == all
    ensures tasks <= all
  {
    AcceptedStep(links, i, root, before, Paths(after));
    var x := if Accepts(links[i], root, before) then [links[i]] else [];
    var rest := AcceptedFrom(links, i + 1, root, Paths(after));
    assert tasksBefore + (x + rest) == (tasksBefore + x) + rest;
  }

  /** The site rows after a crawl: only status times moved, except that the
      crawled site may have been turned FAILED when the crawl was stopped. */
  ghost predicate SitesAfterCrawl(before: map<Url, SiteRow>, after: map<Url, SiteRow>, site: Url, stopped: bool)
  {
    && after.Keys == before.Keys
    && forall u :: u in after ==>
         || Untimed(after[u]) == Untimed(before[u])
         || (stopped && u == site && Untimed(after[u]) == Untimed(Failed(before[u], 0)))
  }

  /** Page `p` of `db` was fetched from some link: its path is the link's,
      its text the link's content, and it is indexed as the store's fault at
      that link lets it be. */
  ghost predicate PageFromWeb(db: Db, p: PageId, site: Url, root: string, web: Web, m: Morphology)
  {
    && p in db.pages
    && exists a :: && LinkShapeOk(a, root, Href(a))
                   && db.pages[p].path == Href(a) && db.pages[p].content == web.content(a)
                   && Indexed(db, p, site, web.content(a), m, web.fault(a))
  }

  /** Saving the page of one link is saving the pages of [absHref]. */
  lemma OnePageSaved(before: Db, saved: Db, site: Url, code: int, absHref: string, web: Web)
    requires saved == AddPage(before, MapToNewPageEntity(site, Href(absHref), code, web.content(absHref)))
    ensures NewPages(before, saved, site, code, [absHref], web)
  {
    assert [absHref][..0] == [];
  }

  /** The rows creatingLemmasAndIndexes writes for the page just saved are
      rows of a new page ranking their lemmas by their counts, and each
      lemma's frequency rises by the page's edges to it. */
  lemma PageRowsWritten(before: Db, saved: Db, after: Db, id: PageId, site: Url, done: seq<string>,
                        counts: map<string, nat>, m: Morphology)
    requires id == before.nextPageId && saved.indexes == before.indexes && saved.lemmas == before.lemmas
    requires id in saved.pages && counts == LemmaCounts(saved.pages[id].content, m)
    requires Written(saved, after, id, site, done, counts)
    ensures RowsOfNewPages(before, after, m)
    ensures forall k :: Freq(after, k) == Freq(before, k) + EdgeCount(after.indexes, id, k)
  {
    NewRowsShape(id, site, done, counts);
    var added := NewRows(id, site, done, counts);
    assert after.indexes[..|before.indexes|] == before.indexes;
    forall j | |before.indexes| <= j < |after.indexes|
      ensures after.indexes[j].page >= before.nextPageId && RankIsCount(after, after.indexes[j], m)
    {
      assert after.indexes[j] == added[j - |before.indexes|];
    }
  }

  /** What a crawl from one node leaves behind: the pages already stored are
      kept, every new page belongs to the crawled site and was fetched, from
      a link of the shape the crawl's root admits, and indexed, the index rows written rank the lemmas of new pages by their
      counts, and the site rows are as SitesAfterCrawl says. */
  ghost predicate Crawled(db0: Db, db: Db, site: Url, root: string, web: Web, m: Morphology, stopped: bool)
  {
    && db0.nextPageId <= db.nextPageId
    && (forall p :: p in db0.pages ==> p in db.pages && db.pages[p] == db0.pages[p])
    && (forall p :: p in db.pages && p !in db0.pages ==> p >= db0.nextPageId && db.pages[p].site == site)
    && (forall p :: p in db.pages && p !in db0.pages ==> PageFromWeb(db, p, site, root, web, m))
    && RowsOfNewPages(db0, db, m)
    && SitesAfterCrawl(db0.sites, db.sites, site, stopped)
  }

  /** A page fetched stays so while the pages and rows stay. */
  lemma PageFromWebSame(db1: Db, db2: Db, p: PageId, site: Url, root: string, web: Web, m: Morphology)
    requires PageFromWeb(db1, p, site, root, web, m)
    requires db2.pages == db1.pages && db2.indexes == db1.indexes
    ensures PageFromWeb(db2, p, site, root, web, m)
  {
    var a :| && LinkShapeOk(a, root, Href(a))
             && db1.pages[p].path == Href(a) && db1.pages[p].content == web.content(a)
             && Indexed(db1, p, site, web.content(a), m, web.fault(a));
    IndexedKept(db1, db2, p, site, web.content(a), m, web.fault(a));
  }

  /** A page fetched before rows were added for later pages stays as it
      was. */
  lemma PageFromWebKept(db1: Db, db2: Db, p: PageId, site: Url, root: string, web: Web, m: Morphology)
    requires PageFromWeb(db1, p, site, root, web, m) && p < db1.nextPageId
    requires p in db2.pages && db2.pages[p] == db1.pages[p]
    requires RowsOfNewPages(db1, db2, m)
    ensures PageFromWeb(db2, p, site, root, web, m)
  {
    var a :| && LinkShapeOk(a, root, Href(a))
             && db1.pages[p].path == Href(a) && db1.pages[p].content == web.content(a)
             && Indexed(db1, p, site, web.content(a), m, web.fault(a));
    IndexedOfOldPage(db1, db2, p, site, web.content(a), m, web.fault(a));
  }

  /** The link loop of one node is a crawl. */
  lemma CrawledOfProgress(db0: Db, db: Db, site: Url, root: string, code: int, saved: seq<string>, web: Web,
                          m: Morphology, cancelled: bool)
    requires PagesOk(db0)
    requires forall i :: 0 <= i < |saved| ==> LinkShapeOk(saved[i], root, Href(saved[i]))
    requires Progress(db0, db, site, code, saved, web, m, cancelled)
    ensures Crawled(db0, db, site, root, web, m, cancelled)
  {
    AddPagesShape(db0.pages, db0.nextPageId, SavedRows(site, code, saved, web));
    SavedAreRootPages(db0, db, site, code, saved, web, m);
    forall p | p in db.pages && p !in db0.pages
      ensures p >= db0.nextPageId && db.pages[p].site == site && PageFromWeb(db, p, site, root, web, m)
    {
      RootPageFromWeb(db, p, site, root, code, saved[p - db0.nextPageId], web, m);
    }
  }

  /** The pages a node saved are its links' pages, in order, indexed. */
  lemma SavedAreRootPages(db0: Db, db: Db, site: Url, code: int, saved: seq<string>, web: Web, m: Morphology)
    requires forall p :: p in db0.pages ==> p < db0.nextPageId
    requires db.pages == AddPages(db0.pages, db0.nextPageId, SavedRows(site, code, saved, web))
    requires SavedIndexed(db0.nextPageId, db, site, saved, web, m)
    ensures forall i :: 0 <= i < |saved| ==> RootPage(db, db0.nextPageId + i, site, code, saved[i], web, m)
  {
    var rows := SavedRows(site, code, saved, web);
    AddPagesShape(db0.pages, db0.nextPageId, rows);
    SavedRowsShape(site, code, saved, web);
    forall i | 0 <= i < |saved| ensures RootPage(db, db0.nextPageId + i, site, code, saved[i], web, m) {
      assert db.pages[db0.nextPageId + i] == rows[i];
    }
  }

  /** A page saved for a link of the root's shape was fetched from it. */
  lemma RootPageFromWeb(db: Db, p: PageId, site: Url, root: string, code: int, a: string, web: Web, m: Morphology)
    requires RootPage(db, p, site, code, a, web, m) && LinkShapeOk(a, root, Href(a))
    ensures PageFromWeb(db, p, site, root, web, m)
  {
  }

  /** A crawl followed by another crawl of the same site is a crawl; a
      stopped one stays stopped. */
  lemma CrawledCompose(db0: Db, db1: Db, db2: Db, site: Url, root: string, web: Web, m: Morphology,
                        stopped1: bool, stopped2: bool)
    requires PagesOk(db1)
    requires Crawled(db0, db1, site, root, web, m, stopped1) && Crawled(db1, db2, site, root, web, m, stopped2)
    ensures Crawled(db0, db2, site, root, web, m, stopped1 || stopped2)
  {
    RowsOfNewPagesCompose(db0, db1, db2, m);
    forall p | p in db2.pages && p !in db0.pages ensures PageFromWeb(db2, p, site, root, web, m) {
      if p in db1.pages {
        PageFromWebKept(db1, db2, p, site, root, web, m);
      }
    }
    forall u | u in db2.sites
      ensures || Untimed(db2.sites[u]) == Untimed(db0.sites[u])
              || ((stopped1 || stopped2) && u == site && Untimed(db2.sites[u]) == Untimed(Failed(db0.sites[u], 0)))
    {
      assert Untimed(Failed(db1.sites[u], 0)) == Untimed(Failed(db0.sites[u], 0)) by {
        if Untimed(db1.sites[u]) == Untimed(db0.sites[u]) {
          assert db1.sites[u].(statusTime := 0) == db0.sites[u].(statusTime := 0);
        }
      }
    }
  }

  /** A node that stopped did so at the last link it queued: with the flag
      set at its start, that link's page is the one during whose indexing the
      stop request came, and none came for the links before it; with the
      flag already cleared, the node stopped at its first page. */
  ghost predicate StoppedAtLast(tasks: seq<string>, web: Web, flag0: bool, cancelled: bool)
  {
    cancelled ==>
      && |tasks| > 0
      && (flag0 ==> web.stopAt(tasks[|tasks| - 1]) && forall a :: a in tasks[..|tasks| - 1] ==> !web.stopAt(a))
      && (!flag0 ==> |tasks| == 1)
  }

  /** The state of the link loop of compute after `i` links: the queued
      tasks are the links accepted so far (all of those the loop accepts when
      it was not stopped), the store has made that progress, and the flag was
      cleared exactly when one of the queued links asked for a stop. */
  ghost predicate Looped(site: Url, root: string, db0: Db, db: Db, links: seq<string>, i: nat,
                         all: seq<string>, tasks: seq<string>, web: Web, m: Morphology, code: int,
                         flag0: bool, flag: bool, cancelled: bool)
  {
    && i <= |links|
    && (!cancelled ==> tasks + AcceptedFrom(links, i, root, Paths(db)) == all)
    && tasks <= all
    && Progress(db0, db, site, code, tasks, web, m, cancelled)
    && flag == (flag0 && forall a :: a in tasks ==> !web.stopAt(a))
    && (cancelled <==> tasks != [] && !flag)
    && StoppedAtLast(tasks, web, flag0, cancelled)
  }

  /** What compute does before it forks its children, given the status code
      and the links of its page: on a status starting with 4 or 5 nothing at
      all; otherwise the tasks it queues are a prefix of the links the loop
      accepts (all of them unless it was stopped), the store has made the
      progress of saving those pages, and the flag was cleared exactly when
      one of them asked for a stop, which is when the node stopped, at the
      last of them. */
  ghost predicate Computed(site: Url, root: string, db0: Db, db: Db, links: seq<string>, code: int,
                           web: Web, m: Morphology, flag0: bool, flag: bool, tasks: seq<string>,
                           cancelled: bool)
  {
    && (!IsFirstDigitNotFourOrFive(code) ==> tasks == [] && !cancelled && db == db0 && flag == flag0)
    && tasks <= AcceptedFrom(links, 0, root, Paths(db0))
    && (!cancelled && IsFirstDigitNotFourOrFive(code) ==> tasks == AcceptedFrom(links, 0, root, Paths(db0)))
    && Progress(db0, db, site, code, tasks, web, m, cancelled)
    && flag == (flag0 && forall a :: a in tasks ==> !web.stopAt(a))
    && (cancelled <==> tasks != [] && !flag)
    && StoppedAtLast(tasks, web, flag0, cancelled)
  }

  /** Saving nothing is progress. */
  lemma NoProgress(db0: Db, site: Url, code: int, web: Web, m: Morphology)
    ensures Progress(db0, db0, site, code, [], web, m, false)
  {
    assert db0.indexes[..|db0.indexes|] == db0.indexes;
    assert AddPages(db0.pages, db0.nextPageId, []) == db0.pages;
  }

  /** Before the first link the loop has saved nothing. */
  lemma LoopStart(site: Url, root: string, db0: Db, links: seq<string>, web: Web, m: Morphology, code: int,
                  flag0: bool)
    ensures Looped(site, root, db0, db0, links, 0, AcceptedFrom(links, 0, root, Paths(db0)), [], web, m, code,
                   flag0, flag0, false)
  {
    assert [] + AcceptedFrom(links, 0, root, Paths(db0)) == AcceptedFrom(links, 0, root, Paths(db0));
    NoProgress(db0, site, code, web, m);
  }

  /** On a status starting with 4 or 5, compute does nothing. */
  lemma NothingComputed(site: Url, root: string, db0: Db, links: seq<string>, code: int, web: Web, m: Morphology,
                        flag0: bool)
    requires !IsFirstDigitNotFourOrFive(code)
    ensures Computed(site, root, db0, db0, links, code, web, m, flag0, flag0, [], false)
  {
    NoProgress(db0, site, code, web, m);
  }

  /** The link loop ends, at the last link or at a stop, having done what
      compute promises. */
  lemma LoopedComputed(site: Url, root: string, db0: Db, db: Db, links: seq<string>, i: nat,
                       tasks: seq<string>, web: Web, m: Morphology, code: int,
                       flag0: bool, flag: bool, cancelled: bool)
    requires IsFirstDigitNotFourOrFive(code)
    requires Looped(site, root, db0, db, links, i, AcceptedFrom(links, 0, root, Paths(db0)), tasks, web, m, code,
                    flag0, flag, cancelled)
    requires i == |links| || cancelled
    ensures Computed(site, root, db0, db, links, code, web, m, flag0, flag, tasks, cancelled)
  {
    if !cancelled {
      assert AcceptedFrom(links, i, root, Paths(db)) == [];
      assert tasks + [] == tasks;
    }
  }

  /** The node itself was stopped in its link loop: it queued tasks, and
      the flag was already cleared when it started or a stop request came
      while one of their pages was indexed. */
  ghost predicate NodeStopped(tasks: seq<string>, web: Web, flag0: bool)
  {
    tasks != [] && !(flag0 && forall a :: a in tasks ==> !web.stopAt(a))
  }

  /** No stop request comes while any page is indexed. */
  ghost predicate NoStop(web: Web)
  {
    forall a :: !web.stopAt(a)
  }

  /** Page `p` is the one a node with status code `code` saved for the link
      `a`, indexed as the store's fault at that link lets it be. */
  ghost predicate RootPage(db: Db, p: PageId, site: Url, code: int, a: string, web: Web, m: Morphology)
  {
    && p in db.pages
    && db.pages[p] == PageRow(site, Href(a), code, web.content(a))
    && Indexed(db, p, site, web.content(a), m, web.fault(a))
  }

  /** What a crawl from `url` did at its first node, when `taken` were the
      paths stored and `next` the next page id as it started: `tasks`, its
      child tasks, are the links of the page at `url` that the link loop
      accepts (a prefix of them when the crawl was stopped, none when the
      status code starts with 4 or 5), and their pages are stored under the
      ids next, next + 1, ... and indexed. */
  ghost predicate RootCrawl(taken: set<string>, next: nat, db: Db, site: Url, url: Url, root: string, web: Web,
                            m: Morphology, tasks: seq<string>, stopped: bool)
  {
    && tasks <= AcceptedFrom(web.links(url), 0, root, taken)
    && (IsFirstDigitNotFourOrFive(web.status(url)) && !stopped ==> tasks == AcceptedFrom(web.links(url), 0, root, taken))
    && (!IsFirstDigitNotFourOrFive(web.status(url)) ==> tasks == [])
    && forall i :: 0 <= i < |tasks| ==> RootPage(db, next + i, site, web.status(url), tasks[i], web, m)
  }

  /** The link loop of the first node is the first node of a crawl. */
  lemma RootCrawlOfComputed(site: Url, url: Url, root: string, db0: Db, db: Db, web: Web, m: Morphology,
                            flag0: bool, flag: bool, tasks: seq<string>, cancelled: bool)
    requires PagesOk(db0)
    requires Computed(site, root, db0, db, web.links(url), web.status(url), web, m, flag0, flag, tasks, cancelled)
    ensures RootCrawl(Paths(db0), db0.nextPageId, db, site, url, root, web, m, tasks, !flag)
  {
    SavedAreRootPages(db0, db, site, web.status(url), tasks, web, m);
  }

  /** What the node and the child crawls so far have done, starting from `db0`
    * with the stop flag at `flag0`: the flag is only ever raised, and only by a
    * stop point; the pages are crawled and the node's links are its pages. */
  ghost predicate Forked(db0: Db, db: Db, site: Url, url: Url, root: string, web: Web, m: Morphology,
                         tasks: seq<string>, flag0: bool, flag: bool)
  {
    (flag ==> flag0) && (flag0 && NoStop(web) ==> flag)
    && Crawled(db0, db, site, root, web, m, !flag)
    && RootCrawl(Paths(db0), db0.nextPageId, db, site, url, root, web, m, tasks, !flag)
  }

  /** One child crawl more, after the first node. */
  lemma ChildStep(db0: Db, before: Db, after: Db, site: Url, url: Url, root: string, web: Web, m: Morphology,
                  tasks: seq<string>, flag0: bool, flagBefore: bool, flagAfter: bool,
                  childUrl: Url, childTasks: seq<string>)
    requires PagesOk(before)
    requires Forked(db0, before, site, url, root, web, m, tasks, flag0, flagBefore)
    requires Forked(before, after, site, childUrl, root, web, m, childTasks, flagBefore, flagAfter)
    ensures Forked(db0, after, site, url, root, web, m, tasks, flag0, flagAfter)
  {
    CrawledCompose(db0, before, after, site, root, web, m, !flagBefore, !flagAfter);
    RootCrawlKept(Paths(db0), db0.nextPageId, before, after, site, url, root, web, m, tasks, !flagBefore, !flagAfter);
  }

  /** What compute leaves before the fork is the first node of a crawl; the
      node stopped exactly when its link loop was stopped, and it saved one
      page per task. */
  lemma NodeComputed(site: Url, url: Url, root: string, db0: Db, db: Db, web: Web, m: Morphology,
                     flag0: bool, flag: bool, tasks: seq<string>, cancelled: bool)
    requires PagesOk(db0)
    requires Computed(site, root, db0, db, web.links(url), web.status(url), web, m, flag0, flag, tasks, cancelled)
    ensures Forked(db0, db, site, url, root, web, m, tasks, flag0, flag)
    ensures cancelled <==> NodeStopped(tasks, web, flag0)
    ensures db.nextPageId == db0.nextPageId + |tasks|
    ensures !IsFirstDigitNotFourOrFive(web.status(url)) ==> db == db0 && flag == flag0 && tasks == []
  {
    AcceptedShape(web.links(url), 0, root, Paths(db0));
    CrawledOfProgress(db0, db, site, root, web.status(url), tasks, web, m, cancelled);
    RootCrawlOfComputed(site, url, root, db0, db, web, m, flag0, flag, tasks, cancelled);
  }

  /** A later crawl of children keeps what the first node did. */
  lemma RootCrawlKept(taken: set<string>, next: nat, db1: Db, db2: Db, site: Url, url: Url, root: string, web: Web,
                      m: Morphology, tasks: seq<string>, stopped1: bool, stopped2: bool)
    requires PagesOk(db1)
    requires RootCrawl(taken, next, db1, site, url, root, web, m, tasks, stopped1)
    requires forall p :: p in db1.pages ==> p in db2.pages && db2.pages[p] == db1.pages[p]
    requires RowsOfNewPages(db1, db2, m)
    requires !stopped2 ==> !stopped1
    ensures RootCrawl(taken, next, db2, site, url, root, web, m, tasks, stopped2)
  {
    forall i | 0 <= i < |tasks| ensures RootPage(db2, next + i, site, web.status(url), tasks[i], web, m) {
      assert RootPage(db1, next + i, site, web.status(url), tasks[i], web, m);
      RootPageKept(db1, db2, next + i, site, web.status(url), tasks[i], web, m);
    }
  }

  /** A later crawl of children keeps a page the first node saved. */
  lemma RootPageKept(db1: Db, db2: Db, p: PageId, site: Url, code: int, a: string, web: Web, m: Morphology)
    requires PagesOk(db1)
    requires forall q :: q in db1.pages ==> q in db2.pages && db2.pages[q] == db1.pages[q]
    requires RowsOfNewPages(db1, db2, m)
    requires RootPage(db1, p, site, code, a, web, m)
    ensures RootPage(db2, p, site, code, a, web, m)
  {
    IndexedOfOldPage(db1, db2, p, site, web.content(a), m, web.fault(a));
  }

  /** A CreatingSiteMap task. The child tasks in `taskList` differ from this
      one only in their start url, so each is kept as that url. */
  class SiteMapTask {
    const site: Url
    const url: Url
    const root: string
    const store: Store
    const flag: Flag
    var taskList: seq<string>

    constructor (site: Url, url: Url, root: string, store: Store, flag: Flag)
      ensures this.site == site && this.url == url && this.root == root
      ensures this.store == store && this.flag == flag && taskList == []
    {
      this.site, this.url, this.root, this.store, this.flag := site, url, root, store, flag;
      taskList := [];
    }

    /** The body of the link loop for a valid link: save the page
        (mapToNewPageEntity, pageRepository.save), queue its child task and
        index the page's lemmas. */
    method SaveAndIndex(absHref: string, href: string, statusCode: int, web: Web, m: Morphology)
      requires store.Valid() && site in store.sites
      requires href == Href(absHref) && !PathExists(store.Snapshot(), href)
      modifies this`taskList, store`pages, store`nextPageId, store`lemmas, store`indexes,
               store`sites, store`clock
      ensures store.Valid() && site in store.sites
      ensures taskList == old(taskList) + [absHref]
      ensures Paths(store.Snapshot()) == Paths(old(store.Snapshot())) + {href}
      ensures NewPages(old(store.Snapshot()), store.Snapshot(), site, statusCode, [absHref], web)
      ensures RowsOfNewPages(old(store.Snapshot()), store.Snapshot(), m)
      ensures Indexed(store.Snapshot(), old(store.nextPageId), site, web.content(absHref), m, web.fault(absHref))
      ensures forall k :: Freq(store.Snapshot(), k) == Freq(old(store.Snapshot()), k)
                                                    + EdgeCount(store.indexes, old(store.nextPageId), k)
      ensures OnlyTimesTouched(old(store.sites), store.sites)
    {
      var content := web.content(absHref);
      var pageEntity := MapToNewPageEntity(site, href, statusCode, content);
      ghost var before := store.Snapshot();
      PathsOfAddPage(before, pageEntity);
      var id := store.SavePage(pageEntity);
      taskList := taskList + [absHref];
      FreshPageHasNoEdges(before, id);
      ghost var saved := store.Snapshot();
      OnePageSaved(before, saved, site, statusCode, absHref, web);
      var entries, counts := CreatingLemmasAndIndexes(store, site, id, m, web.fault(absHref));
      PageRowsWritten(before, saved, store.Snapshot(), id, site, Done(entries, web.fault(absHref)), counts, m);
    }

    /** The check after indexing a page: a stop request that arrived while
        the page was indexed clears the flag first; a cleared flag marks the
        site FAILED (updateStatusFailed). */
    method CheckFlag(absHref: string, web: Web) returns (stopped: bool)
      requires store.Valid() && site in store.sites
      modifies store`sites, store`clock, flag
      ensures store.Valid() && site in store.sites
      ensures flag.value == (old(flag.value) && !web.stopAt(absHref))
      ensures stopped == !flag.value
      ensures store.Snapshot() == old(store.Snapshot()).(sites := store.sites)
      ensures stopped ==> store.sites == old(store.sites)[site := Failed(old(store.sites[site]), old(store.clock))]
      ensures !stopped ==> store.sites == old(store.sites)
    {
      if web.stopAt(absHref) {
        flag.value := false;
      }
      stopped := !flag.value;
      if stopped {
        UpdateStatusFailed(store, site);
      }
    }

    /** One pass of the link loop of compute: the path of the link, the
        validity test, and for a valid link the page, the child task, the
        lemmas, and the check of the flag, which on a cleared flag marks the
        site FAILED and stops the node. A stop request that arrives while the
        page is indexed clears the flag just before the check. */
    method VisitLink(absHref: string, statusCode: int, web: Web, m: Morphology) returns (stopped: bool)
      requires store.Valid() && site in store.sites
      modifies this`taskList, store`pages, store`nextPageId, store`lemmas, store`indexes,
               store`sites, store`clock, flag
      ensures store.Valid() && site in store.sites
      ensures taskList == old(taskList) + (if Accepts(absHref, root, old(store.Snapshot())) then [absHref] else [])
      ensures Paths(store.Snapshot())
              == Paths(old(store.Snapshot()))
                 + (if Accepts(absHref, root, old(store.Snapshot())) then {Href(absHref)} else {})
      ensures NewPages(old(store.Snapshot()), store.Snapshot(), site, statusCode, taskList[|old(taskList)|..], web)
      ensures RowsOfNewPages(old(store.Snapshot()), store.Snapshot(), m)
      ensures SavedIndexed(old(store.nextPageId), store.Snapshot(), site, taskList[|old(taskList)|..], web, m)
      ensures flag.value == (old(flag.value) && !(Accepts(absHref, root, old(store.Snapshot())) && web.stopAt(absHref)))
      ensures stopped <==> Accepts(absHref, root, old(store.Snapshot())) && !flag.value
      ensures SitesAfter(old(store.sites), store.sites, site, stopped)
    {
      stopped := false;
      var href := GetHref(absHref);
      var linkIsValid := LinkIsValid(absHref, root, href, store.Snapshot());
      if !linkIsValid {
        assert taskList[|old(taskList)|..] == [];
        assert store.Snapshot().indexes[..|store.indexes|] == store.indexes;
        return;
      }
      stopped := SaveIndexAndCheck(absHref, href, statusCode, web, m);
      assert taskList[|old(taskList)|..] == [absHref];
    }

    /** The body of the link loop for a valid link: the page, the child
        task and the lemmas, then the check of the flag. */
    method SaveIndexAndCheck(absHref: string, href: string, statusCode: int, web: Web, m: Morphology)
      returns (stopped: bool)
      requires store.Valid() && site in store.sites
      requires href == Href(absHref) && !PathExists(store.Snapshot(), href)
      modifies this`taskList, store`pages, store`nextPageId, store`lemmas, store`indexes,
               store`sites, store`clock, flag
      ensures store.Valid() && site in store.sites
      ensures taskList == old(taskList) + [absHref]
      ensures Paths(store.Snapshot()) == Paths(old(store.Snapshot())) + {href}
      ensures NewPages(old(store.Snapshot()), store.Snapshot(), site, statusCode, [absHref], web)
      ensures RowsOfNewPages(old(store.Snapshot()), store.Snapshot(), m)
      ensures SavedIndexed(old(store.nextPageId), store.Snapshot(), site, [absHref], web, m)
      ensures flag.value == (old(flag.value) && !web.stopAt(absHref))
      ensures stopped == !flag.value
      ensures SitesAfter(old(store.sites), store.sites, site, stopped)
    {
      SaveAndIndex(absHref, href, statusCode, web, m);
      ghost var mid := store.sites;
      ghost var indexed := store.Snapshot();
      ghost var now := store.clock;
      stopped := CheckFlag(absHref, web);
      if stopped {
        FailAfterTouched(old(store.sites), mid, site, now);
      }
      IndexedKept(indexed, store.Snapshot(), old(store.nextPageId), site, web.content(absHref), m, web.fault(absHref));
      assert [absHref][0] == absHref;
    }

    /** compute() up to the fork of the children: returns whether the task
        stopped at a cleared flag, in which case nothing is forked. */
    method Compute(web: Web, m: Morphology) returns (cancelled: bool)
      requires store.Valid() && site in store.sites
      modifies this`taskList, store`pages, store`nextPageId, store`lemmas, store`indexes,
               store`sites, store`clock, flag
      ensures store.Valid() && site in store.sites
      ensures Computed(site, root, old(store.Snapshot()), store.Snapshot(), web.links(url), web.status(url),
                       web, m, old(flag.value), flag.value, taskList, cancelled)
    {
      ghost var db0 := store.Snapshot();
      var statusCode := web.status(url);
      taskList := [];
      if !IsFirstDigitNotFourOrFive(statusCode) {
        cancelled := false;
        NothingComputed(site, root, db0, web.links(url), statusCode, web, m, flag.value);
        return;
      }
      cancelled := LinkLoop(web.links(url), statusCode, web, m);
    }

    /** The link loop of compute: each link in turn, until the last one or
        until the node is stopped. */
    method LinkLoop(links: seq<string>, statusCode: int, web: Web, m: Morphology) returns (cancelled: bool)
      requires store.Valid() && site in store.sites
      requires taskList == [] && IsFirstDigitNotFourOrFive(statusCode)
      modifies this`taskList, store`pages, store`nextPageId, store`lemmas, store`indexes,
               store`sites, store`clock, flag
      ensures store.Valid() && site in store.sites
      ensures Computed(site, root, old(store.Snapshot()), store.Snapshot(), links, statusCode,
                       web, m, old(flag.value), flag.value, taskList, cancelled)
    {
      ghost var db0 := store.Snapshot();
      ghost var flag0 := flag.value;
      ghost var all := AcceptedFrom(links, 0, root, Paths(db0));
      LoopStart(site, root, db0, links, web, m, statusCode, flag0);
      cancelled := false;
      var i := 0;
      while i < |links| && !cancelled
        invariant 0 <= i <= |links|
        invariant store.Valid() && site in store.sites
        invariant Looped(site, root, db0, store.Snapshot(), links, i, all, taskList, web, m, statusCode,
                         flag0, flag.value, cancelled)
      {
        cancelled := LinkPass(links, i, statusCode, web, m, db0, all, flag0);
        i := i + 1;
      }
      LoopedComputed(site, root, db0, store.Snapshot(), links, i, taskList, web, m, statusCode,
                     flag0, flag.value, cancelled);
    }

    /** One pass of the link loop of compute, from a state the loop can be in
        to the next one. */
    method LinkPass(links: seq<string>, i: nat, statusCode: int, web: Web, m: Morphology,
                    ghost db0: Db, ghost all: seq<string>, ghost flag0: bool) returns (cancelled: bool)
      requires i < |links|
      requires store.Valid() && site in store.sites
      requires Looped(site, root, db0, store.Snapshot(), links, i, all, taskList, web, m, statusCode,
                      flag0, flag.value, false)
      modifies this`taskList, store`pages, store`nextPageId, store`lemmas, store`indexes,
               store`sites, store`clock, flag
      ensures store.Valid() && site in store.sites
      ensures Looped(site, root, db0, store.Snapshot(), links, i + 1, all, taskList, web, m, statusCode,
                     flag0, flag.value, cancelled)
    {
      ghost var before := store.Snapshot();
      ghost var tasksBefore := taskList;
      cancelled := VisitLink(links[i], statusCode, web, m);
      ghost var more := taskList[|tasksBefore|..];
      assert tasksBefore + more == taskList;
      assert before.nextPageId == db0.nextPageId + |tasksBefore|;
      ProgressStep(db0, before, store.Snapshot(), site, statusCode, tasksBefore, more, web, m, cancelled);
      AcceptedPass(links, i, root, before, store.Snapshot(), tasksBefore, taskList, all);
    }

    /** compute(): the link loop, then, unless the node was stopped, the
        child tasks, each a crawl of its own link. The children run one after
        the other here, and `depth` bounds how deep the tree of tasks goes. */
    method Run(web: Web, m: Morphology, depth: nat)
      requires store.Valid() && site in store.sites
      modifies this`taskList, store`pages, store`nextPageId, store`lemmas, store`indexes,
               store`sites, store`clock, flag
      ensures store.Valid() && site in store.sites
      ensures Forked(old(store.Snapshot()), store.Snapshot(), site, url, root, web, m, taskList,
                     old(flag.value), flag.value)
      ensures !IsFirstDigitNotFourOrFive(web.status(url)) ==>
                store.Snapshot() == old(store.Snapshot()) && flag.value == old(flag.value)
      ensures NodeStopped(taskList, web, old(flag.value)) ==>
                store.nextPageId == old(store.nextPageId) + |taskList|
      decreases depth, 2
    {
      ghost var db0 := store.Snapshot();
      var cancelled := Compute(web, m);
      NodeComputed(site, url, root, db0, store.Snapshot(), web, m, old(flag.value), flag.value, taskList, cancelled);
      if cancelled || depth == 0 || taskList == [] {
        return;
      }
      ForkChildren(web, m, depth, db0, old(flag.value));
    }

    /** taskList.forEach(fork) followed by the joins: each child task crawls
        from its own link, into the same store and with the same flag. */
    method ForkChildren(web: Web, m: Morphology, depth: nat, ghost db0: Db, ghost flag0: bool)
      requires depth > 0
      requires store.Valid() && site in store.sites
      requires Forked(db0, store.Snapshot(), site, url, root, web, m, taskList, flag0, flag.value)
      modifies store`pages, store`nextPageId, store`lemmas, store`indexes, store`sites, store`clock, flag
      ensures store.Valid() && site in store.sites
      ensures Forked(db0, store.Snapshot(), site, url, root, web, m, taskList, flag0, flag.value)
      decreases depth, 1
    {
      var k := 0;
      while k < |taskList|
        invariant store.Valid() && site in store.sites
        invariant Forked(db0, store.Snapshot(), site, url, root, web, m, taskList, flag0, flag.value)
      {
        ForkChild(taskList[k], web, m, depth, db0, flag0);
        k := k + 1;
      }
    }

    /** fork() and join() of one child task, a crawl from `link`. */
    method ForkChild(link: Url, web: Web, m: Morphology, depth: nat, ghost db0: Db, ghost flag0: bool)
      requires depth > 0
      requires store.Valid() && site in store.sites
      requires Forked(db0, store.Snapshot(), site, url, root, web, m, taskList, flag0, flag.value)
      modifies store`pages, store`nextPageId, store`lemmas, store`indexes, store`sites, store`clock, flag
      ensures store.Valid() && site in store.sites
      ensures Forked(db0, store.Snapshot(), site, url, root, web, m, taskList, flag0, flag.value)
      decreases depth, 0
    {
      var child := new SiteMapTask(site, link, root, store, flag);
      ghost var before := store.Snapshot();
      ghost var flagBefore := flag.value;
      child.Run(web, m, depth - 1);
      ChildStep(db0, before, store.Snapshot(), site, url, root, web, m, taskList, flag0, flagBefore, flag.value,
                link, child.taskList);
    }
  }
}
