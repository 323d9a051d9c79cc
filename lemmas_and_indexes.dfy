/** Lemma extraction (collectLemmas) and the writer of Lemma and Index rows
    (creatingLemmasAndIndexes). The morphological analyser is a parameter. */
module LemmasAndIndexes {
  import opened Util
  import opened Store

  /** RussianLuceneMorphology, reduced to the two queries the program makes:
      getMorphInfo and getNormalForms. The normal forms of a word are never
      an empty list (the program takes the first one without checking), so
      the first one is held apart from the others. */
  datatype Morphology = Morphology(morphInfo: string -> seq<string>,
                                   normalForms: string -> Forms)

  datatype Forms = Forms(first: string, others: seq<string>)

  /** getNormalForms(word) as the list the program sees. */
  function NormalForms(m: Morphology, word: string): (forms: seq<string>)
    ensures |forms| > 0 && forms[0] == m.normalForms(word).first
  {
    [m.normalForms(word).first] + m.normalForms(word).others
  }

  /** The part-of-speech markers whose words are skipped: interjection,
      preposition, conjunction, particle. */
  const Particles: seq<string> := ["МЕЖД", "ПРЕДЛ", "СОЮЗ", "ЧАСТ"]

  // ---------------------------------------------------------------------
  // Tokenising: text.replaceAll("[^А-я\\s]", "").trim().split("\\s+")

  /** The character range А-я: U+0410 .. U+044F (Ё and ё are outside it). */
  predicate IsLetter(c: char) { 'А' <= c <= 'я' }

  /** The regex class \s: space, tab, line feed, vertical tab, form feed,
      carriage return. */
  predicate IsSpace(c: char) { c == ' ' || 9 <= c as int <= 13 }

  /** replaceAll("[^А-я\\s]", "") */
  function KeepLettersAndSpaces(s: string): (r: string)
    ensures forall c :: c in r ==> IsLetter(c) || IsSpace(c)
  {
    if s == [] then []
    else KeepLettersAndSpaces(s[..|s| - 1])
         + (if IsLetter(s[|s| - 1]) || IsSpace(s[|s| - 1]) then [s[|s| - 1]] else [])
  }

  /** The letters of `s`, in order. */
  function Letters(s: string): string
  {
    if s == [] then []
    else Letters(s[..|s| - 1]) + (if IsLetter(s[|s| - 1]) then [s[|s| - 1]] else [])
  }

  /** The characters of `s` other than \s, in order. */
  function NonSpace(s: string): string
  {
    if s == [] then [] else (if IsSpace(s[0]) then [] else [s[0]]) + NonSpace(s[1..])
  }

  /** String.trim: drops leading and trailing characters up to U+0020. */
  function Trim(s: string): string
  {
    TrimEnd(TrimStart(s))
  }

  function TrimStart(s: string): string
  {
    if s != [] && s[0] <= ' ' then TrimStart(s[1..]) else s
  }

  function TrimEnd(s: string): string
  {
    if s != [] && s[|s| - 1] <= ' ' then TrimEnd(s[..|s| - 1]) else s
  }

  /** Length of the leading run of non-\s characters. */
  function RunLength(s: string): (n: nat)
    ensures n <= |s|
    ensures forall i :: 0 <= i < n ==> !IsSpace(s[i])
    ensures n < |s| ==> IsSpace(s[n])
  {
    if s == [] || IsSpace(s[0]) then 0 else 1 + RunLength(s[1..])
  }

  /** split("\\s+") of a string that does not start with \s: the maximal runs
      of non-\s characters. */
  function SplitOnSpaces(s: string): seq<string>
    decreases |s|
  {
    if s == [] then []
    else if IsSpace(s[0]) then SplitOnSpaces(s[1..])
    else
      var n := RunLength(s);
      [s[..n]] + SplitOnSpaces(s[n..])
  }

  /** The words of a text. Java's split returns [""] for the empty string, so
      a text without any letter yields one empty word. */
  function Tokens(text: string): seq<string>
  {
    var t := Trim(KeepLettersAndSpaces(text));
    if t == [] then [""] else SplitOnSpaces(t)
  }

  function Concat(ws: seq<string>): string
  {
    if ws == [] then [] else ws[0] + Concat(ws[1..])
  }

  /** `w` is a non-empty run of non-\s characters taken from `s`. */
  ghost predicate WordOf(w: string, s: string)
  {
    |w| > 0 && forall c :: c in w ==> !IsSpace(c) && c in s
  }

  lemma {:induction false} SplitOnSpacesWords(s: string)
    ensures forall w :: w in SplitOnSpaces(s) ==> WordOf(w, s)
    decreases |s|
  {
    if s != [] {
      var k := if IsSpace(s[0]) then 1 else RunLength(s);
      var rest := s[k..];
      SplitOnSpacesWords(rest);
      assert forall c :: c in rest ==> c in s;
      forall w | w in SplitOnSpaces(s)
        ensures WordOf(w, s)
      {
        if w !in SplitOnSpaces(rest) {
          assert !IsSpace(s[0]) && w == s[..k];
          assert forall c :: c in w ==> c in s;
        }
      }
    }
  }

  lemma {:induction false} SplitOnSpacesConcat(s: string)
    ensures Concat(SplitOnSpaces(s)) == NonSpace(s)
    decreases |s|
  {
    if s != [] {
      if IsSpace(s[0]) {
        SplitOnSpacesConcat(s[1..]);
      } else {
        var n := RunLength(s);
        var rest := SplitOnSpaces(s[n..]);
        SplitOnSpacesConcat(s[n..]);
        NonSpaceSplit(s, n);
        NonSpaceOfWord(s[..n]);
        assert ([s[..n]] + rest)[1..] == rest;
      }
    }
  }

  lemma {:induction false} NonSpaceSplit(s: string, n: nat)
    requires n <= |s|
    ensures NonSpace(s) == NonSpace(s[..n]) + NonSpace(s[n..])
    decreases n
  {
    if n > 0 {
      NonSpaceSplit(s[1..], n - 1);
      assert s[1..][..n - 1] == s[..n][1..];
      assert s[1..][n - 1..] == s[n..];
    } else {
      assert s[..n] == [];
    }
  }

  lemma {:induction false} NonSpaceOfWord(w: string)
    requires forall i :: 0 <= i < |w| ==> !IsSpace(w[i])
    ensures NonSpace(w) == w
    decreases |w|
  {
    if w != [] {
      NonSpaceOfWord(w[1..]);
    }
  }

  lemma {:induction false} NonSpaceAppend(a: string, b: string)
    ensures NonSpace(a + b) == NonSpace(a) + NonSpace(b)
    decreases |a|
  {
    if a == [] {
      assert a + b == b;
    } else {
      var head := if IsSpace(a[0]) then [] else [a[0]];
      assert (a + b)[0] == a[0];
      assert (a + b)[1..] == a[1..] + b;
      assert NonSpace(a + b) == head + NonSpace(a[1..] + b);
      NonSpaceAppend(a[1..], b);
      assert head + (NonSpace(a[1..]) + NonSpace(b)) == (head + NonSpace(a[1..])) + NonSpace(b);
    }
  }

  /** Inside the filtered text every character up to U+0020 is \s, so
      trimming removes only spaces. */
  lemma {:induction false} TrimStartKeepsNonSpace(s: string)
    requires forall c :: c in s ==> IsLetter(c) || IsSpace(c)
    ensures NonSpace(TrimStart(s)) == NonSpace(s)
    ensures forall c :: c in TrimStart(s) ==> IsLetter(c) || IsSpace(c)
    decreases |s|
  {
    if s != [] && s[0] <= ' ' {
      assert IsSpace(s[0]);
      TrimStartKeepsNonSpace(s[1..]);
    }
  }

  lemma {:induction false} TrimEndKeepsNonSpace(s: string)
    requires forall c :: c in s ==> IsLetter(c) || IsSpace(c)
    ensures NonSpace(TrimEnd(s)) == NonSpace(s)
    decreases |s|
  {
    if s != [] && s[|s| - 1] <= ' ' {
      var init := s[..|s| - 1];
      assert IsSpace(s[|s| - 1]);
      TrimEndKeepsNonSpace(init);
      assert s == init + [s[|s| - 1]];
      NonSpaceAppend(init, [s[|s| - 1]]);
    }
  }

  lemma {:induction false} NonSpaceOfFiltered(s: string)
    ensures NonSpace(KeepLettersAndSpaces(s)) == Letters(s)
    decreases |s|
  {
    if s != [] {
      var init := s[..|s| - 1];
      var c := s[|s| - 1];
      NonSpaceOfFiltered(init);
      NonSpaceAppend(KeepLettersAndSpaces(init), if IsLetter(c) || IsSpace(c) then [c] else []);
      assert !(IsLetter(c) && IsSpace(c));
    }
  }

  /** The tokens are exactly the letters of the text cut at whitespace: each
      one is a non-empty run of letters, and together, in order, they spell
      the letters of the text. A text with no letter gives the single empty
      token. */
  lemma TokensAreTheLetters(text: string)
    ensures Letters(text) == [] ==> Tokens(text) == [""]
    ensures Letters(text) != [] ==>
              && (forall w :: w in Tokens(text) ==> |w| > 0 && forall c :: c in w ==> IsLetter(c))
              && Concat(Tokens(text)) == Letters(text)
  {
    var f := KeepLettersAndSpaces(text);
    NonSpaceOfFiltered(text);
    if Letters(text) == [] {
      TrimStartOfSpacesIsEmpty(f);
    } else {
      var t := Trim(f);
      TrimKeepsNonSpace(f);
      assert t != [];
      SplitOnSpacesConcat(t);
      SplitOnSpacesWords(t);
      forall w | w in Tokens(text)
        ensures |w| > 0 && forall c :: c in w ==> IsLetter(c)
      {
        assert WordOf(w, t);
      }
    }
  }

  lemma TrimKeepsNonSpace(f: string)
    requires forall c :: c in f ==> IsLetter(c) || IsSpace(c)
    ensures NonSpace(Trim(f)) == NonSpace(f)
    ensures forall c :: c in Trim(f) ==> IsLetter(c) || IsSpace(c)
  {
    TrimStartKeepsNonSpace(f);
    TrimEndKeepsNonSpace(TrimStart(f));
    TrimEndOnlyDrops(TrimStart(f));
  }

  lemma {:induction false} TrimEndOnlyDrops(s: string)
    ensures forall c :: c in TrimEnd(s) ==> c in s
    decreases |s|
  {
    if s != [] && s[|s| - 1] <= ' ' {
      TrimEndOnlyDrops(s[..|s| - 1]);
    }
  }

  lemma {:induction false} NoLettersMeansOnlySpaces(s: string)
    requires forall c :: c in s ==> IsLetter(c) || IsSpace(c)
    requires NonSpace(s) == []
    ensures forall c :: c in s ==> IsSpace(c)
    decreases |s|
  {
    if s != [] {
      NoLettersMeansOnlySpaces(s[1..]);
    }
  }

  /** A filtered text with no letter trims to nothing, so the case
      `Letters(text) == []` and `Trim(...) != []` cannot happen. */
  lemma TrimStartOfSpacesIsEmpty(f: string)
    requires forall c :: c in f ==> IsLetter(c) || IsSpace(c)
    requires NonSpace(f) == []
    ensures Trim(f) == []
  {
    NoLettersMeansOnlySpaces(f);
    SpacesTrimAway(f);
  }

  lemma {:induction false} SpacesTrimAway(s: string)
    requires forall c :: c in s ==> IsSpace(c)
    ensures TrimStart(s) == []
    decreases |s|
  {
    if s != [] {
      assert s[0] in s;
      assert forall c :: c in s[1..] ==> c in s;
      SpacesTrimAway(s[1..]);
    }
  }

  // ---------------------------------------------------------------------
  // Morphology

  /** String.toLowerCase on the letters А-я: А..Я become а..я. */
  function ToLower(w: string): (r: string)
    ensures |r| == |w|
  {
    if w == [] then []
    else [if 'А' <= w[0] <= 'Я' then (w[0] as int + 32) as char else w[0]] + ToLower(w[1..])
  }

  /** anyWordBaseBelongToParticle: some morph info contains one of the
      particle marks. */
  predicate IsParticle(morphInfo: seq<string>)
  {
    morphInfo != [] && (HasMark(morphInfo[0], Particles) || IsParticle(morphInfo[1..]))
  }

  /** Arrays.stream(particlesNames).anyMatch(info::contains) */
  predicate HasMark(info: string, marks: seq<string>)
  {
    marks != [] && (Contains(info, marks[0]) || HasMark(info, marks[1..]))
  }

  lemma {:induction false} HasMarkMeans(info: string, marks: seq<string>)
    ensures HasMark(info, marks) <==> exists p :: p in marks && Contains(info, p)
  {
    if marks != [] {
      HasMarkMeans(info, marks[1..]);
      assert forall p :: p in marks <==> p == marks[0] || p in marks[1..];
    }
  }

  /** The word is a particle exactly when one of its morph infos contains
      one of the marks МЕЖД, ПРЕДЛ, СОЮЗ or ЧАСТ. */
  lemma {:induction false} IsParticleMeans(morphInfo: seq<string>)
    ensures IsParticle(morphInfo) <==> exists info, p :: info in morphInfo && p in Particles && Contains(info, p)
  {
    if morphInfo != [] {
      IsParticleMeans(morphInfo[1..]);
      HasMarkMeans(morphInfo[0], Particles);
      assert forall info :: info in morphInfo <==> info == morphInfo[0] || info in morphInfo[1..];
    }
  }

  /** Each word in its lower-case spelling, the form the analyser is asked about. */
  function LowerEach(words: seq<string>): (r: seq<string>)
    ensures |r| == |words| && forall i :: 0 <= i < |words| ==> r[i] == ToLower(words[i])
  {
    seq(|words|, i requires 0 <= i < |words| => ToLower(words[i]))
  }

  /** The normal form a lower-case word is counted under: the first one the
      analyser gives. */
  function NormalForm(m: Morphology, lower: string): string
  {
    NormalForms(m, lower)[0]
  }

  /** A lower-case word is counted unless the analyser marks it a particle. */
  predicate Kept(m: Morphology, lower: string)
  {
    !IsParticle(m.morphInfo(lower))
  }

  /** The normal forms of the kept words, in text order; `words` are in
      lower case. */
  function KeptForms(words: seq<string>, m: Morphology): seq<string>
  {
    if words == [] then []
    else
      var w := words[|words| - 1];
      KeptForms(words[..|words| - 1], m) + (if Kept(m, w) then [NormalForm(m, w)] else [])
  }

  /** Counting normal forms one occurrence at a time into a map. */
  function CountForms(forms: seq<string>): map<string, nat>
  {
    if forms == [] then map[]
    else
      var c := CountForms(forms[..|forms| - 1]);
      var f := forms[|forms| - 1];
      c[f := (if f in c then c[f] else 0) + 1]
  }

  /** What collectLemmas(text) returns. */
  function LemmaCounts(text: string, m: Morphology): map<string, nat>
  {
    CountForms(KeptForms(LowerEach(Tokens(text)), m))
  }

  /** The count map is the multiset of normal forms: a form is a key exactly
      when it occurs, and its value is its number of occurrences. So every
      value is at least 1 and the values add up to the number of kept words. */
  lemma {:induction false} CountFormsIsMultiset(forms: seq<string>)
    ensures forall l :: l in CountForms(forms) <==> l in forms
    ensures forall l :: l in CountForms(forms) ==> CountForms(forms)[l] == multiset(forms)[l] >= 1
    decreases |forms|
  {
    if forms != [] {
      var init := forms[..|forms| - 1];
      CountFormsIsMultiset(init);
      assert forms == init + [forms[|forms| - 1]];
    }
  }

  /** Every kept word contributes its normal form. */
  lemma {:induction false} KeptFormsComplete(words: seq<string>, m: Morphology, i: nat)
    requires i < |words| && Kept(m, words[i])
    ensures NormalForm(m, words[i]) in KeptForms(words, m)
    decreases |words|
  {
    var n := |words| - 1;
    if i < n {
      KeptFormsComplete(words[..n], m, i);
      assert words[..n][i] == words[i];
    }
  }

  /** Every form in the list is the normal form of a kept word. */
  lemma {:induction false} KeptFormsSound(words: seq<string>, m: Morphology, l: string)
    requires l in KeptForms(words, m)
    ensures exists i :: 0 <= i < |words| && Kept(m, words[i]) && NormalForm(m, words[i]) == l
    decreases |words|
  {
    var n := |words| - 1;
    var init := words[..n];
    if l in KeptForms(init, m) {
      KeptFormsSound(init, m, l);
      var i :| 0 <= i < n && Kept(m, init[i]) && NormalForm(m, init[i]) == l;
      assert words[i] == init[i];
    } else {
      assert Kept(m, words[n]) && NormalForm(m, words[n]) == l;
    }
  }

  /** A particle contributes nothing, whatever the rest of the text. */
  lemma ParticlesAreNotCounted(words: seq<string>, m: Morphology, w: string)
    requires !Kept(m, w)
    ensures KeptForms(words + [w], m) == KeptForms(words, m)
  {
    assert (words + [w])[..|words|] == words;
  }

  /** One more word: a particle leaves the counts alone, any other word adds
      one to the count of its normal form. */
  lemma CountStep(words: seq<string>, i: nat, m: Morphology)
    requires i < |words|
    ensures CountForms(KeptForms(words[..i + 1], m))
            == if !Kept(m, words[i]) then CountForms(KeptForms(words[..i], m))
               else
                 var c := CountForms(KeptForms(words[..i], m));
                 var f := NormalForm(m, words[i]);
                 c[f := (if f in c then c[f] else 0) + 1]
  {
    var pre := words[..i + 1];
    assert pre[..i] == words[..i];
    var kf := KeptForms(words[..i], m);
    if Kept(m, words[i]) {
      var f := NormalForm(m, words[i]);
      assert KeptForms(pre, m) == kf + [f];
      assert (kf + [f])[..|kf|] == kf;
    } else {
      assert KeptForms(pre, m) == kf;
    }
  }

  /** collectLemmas: the loop over the words counts each kept word under its
      first normal form. */
  method CollectLemmas(text: string, m: Morphology) returns (lemmaMap: map<string, nat>)
    ensures lemmaMap == LemmaCounts(text, m)
  {
    var words := Tokens(text);
    ghost var lowered := LowerEach(words);
    lemmaMap := map[];
    var i := 0;
    while i < |words|
      invariant 0 <= i <= |words|
      invariant lemmaMap == CountForms(KeptForms(lowered[..i], m))
    {
      var word := words[i];
      CountStep(lowered, i, m);
      assert ToLower(word) == lowered[i];
      var wordMorphInfo := m.morphInfo(ToLower(word));
      if IsParticle(wordMorphInfo) {
        i := i + 1;
        continue;
      }
      var normalWord := NormalForms(m, ToLower(word))[0];
      var count := if normalWord in lemmaMap then lemmaMap[normalWord] else 0;
      lemmaMap := lemmaMap[normalWord := count + 1];
      i := i + 1;
    }
    assert lowered[..i] == lowered;
  }

  // ---------------------------------------------------------------------
  // Writing Lemma and Index rows

  /** The lemmas whose rows were written before the store failed (if it did)
      at entry `fault`. */
  function Done(entries: seq<string>, fault: Option<nat>): seq<string>
  {
    match fault
    case None => entries
    case Some(j) => entries[..Min(j, |entries|)]
  }

  /** The index rows written for `done`, in order, each with rank = count. */
  function NewRows(page: PageId, site: Url, done: seq<string>, counts: map<string, nat>): seq<IndexRow>
    requires forall l :: l in done ==> l in counts
  {
    if done == [] then []
    else
      var l := done[|done| - 1];
      NewRows(page, site, done[..|done| - 1], counts) + [IndexRow(page, LemmaKey(site, l), counts[l])]
  }

  /** The j-th row written is the one for the j-th lemma written. */
  lemma {:induction false} NewRowsShape(page: PageId, site: Url, done: seq<string>, counts: map<string, nat>)
    requires forall l :: l in done ==> l in counts
    ensures |NewRows(page, site, done, counts)| == |done|
    ensures forall j :: 0 <= j < |done| ==>
              NewRows(page, site, done, counts)[j] == IndexRow(page, LemmaKey(site, done[j]), counts[done[j]])
    decreases |done|
  {
    if done != [] {
      var init := done[..|done| - 1];
      NewRowsShape(page, site, init, counts);
    }
  }

  lemma NewRowsSnoc(page: PageId, site: Url, done: seq<string>, l: string, counts: map<string, nat>)
    requires forall x :: x in done + [l] ==> x in counts
    ensures NewRows(page, site, done + [l], counts)
            == NewRows(page, site, done, counts) + [IndexRow(page, LemmaKey(site, l), counts[l])]
  {
    assert (done + [l])[..|done|] == done;
  }

  /** Two site tables that differ at most in the status times. */
  ghost predicate OnlyTimesTouched(before: map<Url, SiteRow>, after: map<Url, SiteRow>)
  {
    && after.Keys == before.Keys
    && forall u :: u in after ==> Untimed(after[u]) == Untimed(before[u])
  }

  /** A site row with its status time blanked out. */
  function Untimed(r: SiteRow): SiteRow
  {
    r.(statusTime := 0)
  }

  /** `db` is `db0` after the lemmas `done` of one page were written: the
      pages are untouched, only site status times moved, one index row per
      lemma was appended in order, each of those lemmas' frequency rose by
      one, and the page has an edge to exactly those lemmas of its site. */
  ghost predicate Written(db0: Db, db: Db, pageId: PageId, site: Url, done: seq<string>,
                          counts: map<string, nat>)
  {
    && (forall l :: l in done ==> l in counts)
    && db.pages == db0.pages && db.nextPageId == db0.nextPageId
    && OnlyTimesTouched(db0.sites, db.sites)
    && RowsAppended(db0, db, pageId, site, done, counts)
    && FreqRaised(db0, db, site, done)
    && EdgesTo(db, pageId, site, done)
  }

  ghost predicate RowsAppended(db0: Db, db: Db, pageId: PageId, site: Url, done: seq<string>,
                               counts: map<string, nat>)
    requires forall l :: l in done ==> l in counts
  {
    db.indexes == db0.indexes + NewRows(pageId, site, done, counts)
  }

  ghost predicate FreqRaised(db0: Db, db: Db, site: Url, done: seq<string>)
  {
    forall k :: Freq(db, k) == Freq(db0, k) + (if k.site == site && k.text in done then 1 else 0)
  }

  ghost predicate EdgesTo(db: Db, pageId: PageId, site: Url, done: seq<string>)
  {
    forall k :: EdgeCount(db.indexes, pageId, k) == (if k.site == site && k.text in done then 1 else 0)
  }

  /** `order` lists the set `lemmas`, each element once: an iteration order
      of a HashMap's keys or a HashSet. */
  ghost predicate Enumerates(order: seq<string>, lemmas: set<string>)
  {
    NoDup(order) && forall t :: t in order <==> t in lemmas
  }

  /** The index rows of page `pageId` of `site`, whose text is `content`, are
      those creatingLemmasAndIndexes writes when the store throws at entry
      `fault`: one row for each lemma the loop reached, in some iteration
      order of the page's lemmas. */
  ghost predicate Indexed(db: Db, pageId: PageId, site: Url, content: string, m: Morphology, fault: Option<nat>)
  {
    exists entries :: Enumerates(entries, LemmaCounts(content, m).Keys) && EdgesTo(db, pageId, site, Done(entries, fault))
  }

  /** An indexed page has at most one row per lemma, only for lemmas of its
      text and of its site, and, when the store did not throw, a row for
      every lemma of its text. */
  lemma IndexedMeans(db: Db, pageId: PageId, site: Url, content: string, m: Morphology, fault: Option<nat>)
    requires Indexed(db, pageId, site, content, m, fault)
    ensures forall k :: EdgeCount(db.indexes, pageId, k) <= 1
    ensures forall k :: EdgeCount(db.indexes, pageId, k) == 1 ==> k.site == site && k.text in LemmaCounts(content, m)
    ensures fault.None? ==>
              forall k :: EdgeCount(db.indexes, pageId, k) == 1 <==> k.site == site && k.text in LemmaCounts(content, m)
  {
    var entries :| Enumerates(entries, LemmaCounts(content, m).Keys) && EdgesTo(db, pageId, site, Done(entries, fault));
    assert forall l :: l in Done(entries, fault) ==> l in entries;
  }

  /** A page stays indexed while its rows are left alone. */
  lemma IndexedKept(db: Db, db': Db, pageId: PageId, site: Url, content: string, m: Morphology, fault: Option<nat>)
    requires Indexed(db, pageId, site, content, m, fault)
    requires forall k :: EdgeCount(db'.indexes, pageId, k) == EdgeCount(db.indexes, pageId, k)
    ensures Indexed(db', pageId, site, content, m, fault)
  {
    var entries :| Enumerates(entries, LemmaCounts(content, m).Keys) && EdgesTo(db, pageId, site, Done(entries, fault));
    assert EdgesTo(db', pageId, site, Done(entries, fault));
  }

  /** Before the first lemma nothing has been written. */
  lemma NothingWritten(db: Db, pageId: PageId, site: Url, counts: map<string, nat>)
    requires forall k :: EdgeCount(db.indexes, pageId, k) == 0
    ensures Written(db, db, pageId, site, [], counts)
  {
    assert db.indexes + [] == db.indexes;
  }

  lemma RowsStep(db0: Db, before: Db, after: Db, pageId: PageId, site: Url,
                 done: seq<string>, text: string, counts: map<string, nat>)
    requires forall l :: l in done + [text] ==> l in counts
    requires RowsAppended(db0, before, pageId, site, done, counts)
    requires after.indexes == before.indexes + [IndexRow(pageId, LemmaKey(site, text), counts[text])]
    ensures RowsAppended(db0, after, pageId, site, done + [text], counts)
  {
    NewRowsSnoc(pageId, site, done, text, counts);
  }

  lemma FreqStep(db0: Db, before: Db, after: Db, pageId: PageId, site: Url,
                 done: seq<string>, text: string, rank: nat)
    requires text !in done
    requires FreqRaised(db0, before, site, done)
    requires after.lemmas == AddEdge(before, pageId, LemmaKey(site, text), rank).lemmas
    ensures FreqRaised(db0, after, site, done + [text])
  {
  }

  lemma EdgesStep(before: Db, after: Db, pageId: PageId, site: Url, done: seq<string>, text: string, rank: nat)
    requires text !in done
    requires EdgesTo(before, pageId, site, done)
    requires after.indexes == before.indexes + [IndexRow(pageId, LemmaKey(site, text), rank)]
    ensures EdgesTo(after, pageId, site, done + [text])
  {
    forall k ensures EdgeCount(after.indexes, pageId, k)
                     == (if k.site == site && k.text in done + [text] then 1 else 0) {
      AppendCounts(before.indexes, IndexRow(pageId, LemmaKey(site, text), rank), pageId, k);
    }
  }

  /** One more lemma written: its frequency and its edge from the page each
      go up by one, its index row is appended, nothing else changes. */
  lemma WriteStep(db0: Db, before: Db, after: Db, pageId: PageId, site: Url,
                  done: seq<string>, text: string, counts: map<string, nat>)
    requires Written(db0, before, pageId, site, done, counts)
    requires text in counts && text !in done
    requires after.pages == before.pages && after.nextPageId == before.nextPageId
    requires OnlyTimesTouched(before.sites, after.sites)
    requires after.lemmas == AddEdge(before, pageId, LemmaKey(site, text), counts[text]).lemmas
    requires after.indexes == before.indexes + [IndexRow(pageId, LemmaKey(site, text), counts[text])]
    ensures Written(db0, after, pageId, site, done + [text], counts)
  {
    RowsStep(db0, before, after, pageId, site, done, text, counts);
    FreqStep(db0, before, after, pageId, site, done, text, counts[text]);
    EdgesStep(before, after, pageId, site, done, text, counts[text]);
  }

  /** The body of the loop for one lemma: findBySiteIdAndLemma, then either a
      new row with frequency 1 (mapToNewLemmaEntity) or the frequency raised
      by 1, the index row (mapAndSaveToNewIndexEntity), and the site saved
      with a new status time. */
  method SaveLemmaAndIndex(store: Store, site: Url, pageId: PageId, text: string, rank: nat)
    requires store.Valid()
    requires pageId in store.pages && store.pages[pageId].site == site && rank > 0
    requires EdgeCount(store.indexes, pageId, LemmaKey(site, text)) == 0
    modifies store`lemmas, store`indexes, store`sites, store`clock
    ensures store.Valid()
    ensures store.pages == old(store.pages) && store.nextPageId == old(store.nextPageId)
    ensures OnlyTimesTouched(old(store.sites), store.sites)
    ensures store.lemmas == AddEdge(old(store.Snapshot()), pageId, LemmaKey(site, text), rank).lemmas
    ensures store.indexes == old(store.indexes) + [IndexRow(pageId, LemmaKey(site, text), rank)]
  {
    var key := LemmaKey(site, text);
    var frequency := if key !in store.lemmas then 1 else store.lemmas[key] + 1;
    store.SaveLemmaAndIndexRows(key, frequency, IndexRow(pageId, key, rank));
    var now := store.Now();
    store.SaveSite(store.sites[site].(statusTime := now));
  }

  /** creatingLemmasAndIndexes(site, page). The lemmas are taken in the key
      order of the count map, `entries`. For each one the lemma row is created
      with frequency 1 or its frequency is raised by 1, an index row with
      rank = count is appended, and the site's status time is touched. When
      the store throws at entry `fault`, the exception is swallowed and the
      rows written for the earlier entries stay. */
  method CreatingLemmasAndIndexes(store: Store, site: Url, pageId: PageId, m: Morphology, fault: Option<nat>)
    returns (entries: seq<string>, counts: map<string, nat>)
    requires store.Valid()
    requires pageId in store.pages && store.pages[pageId].site == site
    requires forall k :: EdgeCount(store.indexes, pageId, k) == 0
    modifies store`lemmas, store`indexes, store`sites, store`clock
    ensures store.Valid()
    ensures counts == LemmaCounts(old(store.pages[pageId].content), m)
    ensures NoDup(entries) && forall l :: l in entries <==> l in counts
    ensures Written(old(store.Snapshot()), store.Snapshot(), pageId, site, Done(entries, fault), counts)
    ensures Indexed(store.Snapshot(), pageId, site, store.pages[pageId].content, m, fault)
  {
    counts := CollectLemmas(store.pages[pageId].content, m);
    entries := Enumerate(counts.Keys);
    assert forall l :: l in counts ==> counts[l] > 0 by {
      CountFormsIsMultiset(KeptForms(LowerEach(Tokens(store.pages[pageId].content)), m));
    }
    WriteEntries(store, site, pageId, entries, counts, fault);
    assert Enumerates(entries, LemmaCounts(store.pages[pageId].content, m).Keys);
  }

  /** The loop of creatingLemmasAndIndexes over the entries of the count map;
      a store fault at entry `fault` ends it. */
  method WriteEntries(store: Store, site: Url, pageId: PageId, entries: seq<string>,
                      counts: map<string, nat>, fault: Option<nat>)
    requires store.Valid()
    requires pageId in store.pages && store.pages[pageId].site == site
    requires forall k :: EdgeCount(store.indexes, pageId, k) == 0
    requires NoDup(entries) && forall l :: l in entries ==> l in counts && counts[l] > 0
    modifies store`lemmas, store`indexes, store`sites, store`clock
    ensures store.Valid()
    ensures Written(old(store.Snapshot()), store.Snapshot(), pageId, site, Done(entries, fault), counts)
  {
    // the entry at which the store throws, if any: the catch block ends the loop
    var stop := if fault.Some? then Min(fault.value, |entries|) else |entries|;
    assert Done(entries, fault) == entries[..stop];
    WritePrefix(store, site, pageId, entries[..stop], counts);
  }

  /** The loop over `entries`, run to its end. */
  method WritePrefix(store: Store, site: Url, pageId: PageId, entries: seq<string>, counts: map<string, nat>)
    requires store.Valid()
    requires pageId in store.pages && store.pages[pageId].site == site
    requires forall k :: EdgeCount(store.indexes, pageId, k) == 0
    requires NoDup(entries) && forall l :: l in entries ==> l in counts && counts[l] > 0
    modifies store`lemmas, store`indexes, store`sites, store`clock
    ensures store.Valid()
    ensures Written(old(store.Snapshot()), store.Snapshot(), pageId, site, entries, counts)
  {
    ghost var db0 := store.Snapshot();
    NothingWritten(db0, pageId, site, counts);
    for j := 0 to |entries|
      invariant store.Valid()
      invariant pageId in store.pages && store.pages[pageId].site == site
      invariant Written(db0, store.Snapshot(), pageId, site, entries[..j], counts)
    {
      NoDupPrefix(entries, j);
      PrefixSnoc(entries, j);
      WriteEntry(store, site, pageId, entries[j], entries[..j], counts, db0);
    }
    assert entries[..|entries|] == entries;
  }

  /** One pass of the loop: `text` is written after the lemmas `done`. */
  method WriteEntry(store: Store, site: Url, pageId: PageId, text: string, ghost done: seq<string>,
                    counts: map<string, nat>, ghost db0: Db)
    requires store.Valid()
    requires pageId in store.pages && store.pages[pageId].site == site
    requires text in counts && counts[text] > 0 && text !in done
    requires Written(db0, store.Snapshot(), pageId, site, done, counts)
    modifies store`lemmas, store`indexes, store`sites, store`clock
    ensures store.Valid()
    ensures Written(db0, store.Snapshot(), pageId, site, done + [text], counts)
  {
    ghost var before := store.Snapshot();
    assert EdgeCount(store.indexes, pageId, LemmaKey(site, text)) == 0;
    SaveLemmaAndIndex(store, site, pageId, text, counts[text]);
    WriteStep(db0, before, store.Snapshot(), pageId, site, done, text, counts);
  }
}
