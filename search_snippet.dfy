/** The snippet half of SearchServiceImpl: the query words of a page's text
    are wrapped in <b>..</b> (insertingTags, getReplaceWord), and a window of
    at most 270 characters is cut from the last sentence start before the
    first tag (getSnippet). */
module SearchSnippet {
  import opened Util
  import opened LemmasAndIndexes

  const CountCharInTheSnippet: nat := 270
  const Ellipsis: string := "..."
  const OpenTag: string := "<b>"

  // ---------------------------------------------------------------------
  // getReplaceWord and insertingTags

  /** A character the regex word boundary \b counts as part of a word: a
      letter or digit (here the Cyrillic, Latin and decimal ones) or '_'. */
  predicate IsWordChar(c: char)
  {
    IsLetter(c) || c == 'Ё' || c == 'ё' || 'a' <= c <= 'z' || 'A' <= c <= 'Z' || '0' <= c <= '9' || c == '_'
  }

  /** \b at position k of s. */
  predicate Boundary(s: string, k: int)
    requires 0 <= k <= |s|
  {
    (k > 0 && IsWordChar(s[k - 1])) != (k < |s| && IsWordChar(s[k]))
  }

  /** The regex " " + word + "\\b" matches s at p. */
  predicate MatchAt(s: string, word: string, p: int)
  {
    OccursAt(s, " " + word, p) && Boundary(s, p + 1 + |word|)
  }

  /** The replacement " <b>" + word + "</b>". */
  function Bold(word: string): string
  {
    " <b>" + word + "</b>"
  }

  /** The while (matcher.find()) loop of getReplaceWord: the matcher scans the
      text `orig` it was created on, from position `from`; every match replaces
      all occurrences of the matched " word" in the current text `t`. */
  function ReplaceFrom(orig: string, word: string, from: nat, t: string): string
    decreases |orig| - from
  {
    if from + |word| + 1 > |orig| then t
    else if MatchAt(orig, word, from) then ReplaceFrom(orig, word, from + |word| + 1, ReplaceAll(t, " " + word, Bold(word)))
    else ReplaceFrom(orig, word, from + 1, t)
  }

  /** The regex matches somewhere at or after `from`. */
  ghost predicate HasMatchFrom(orig: string, word: string, from: nat)
  {
    exists p :: from <= p && MatchAt(orig, word, p)
  }

  /** getReplaceWord(word, normalForm, text) with the query lemmas enumerated
      as `lemmas`: the text the loop over the query lemmas leaves. */
  function ReplaceWord(word: string, normalForm: string, text: string, lemmas: seq<string>): string
  {
    if lemmas == [] then text
    else
      var t := ReplaceWord(word, normalForm, text, lemmas[..|lemmas| - 1]);
      if normalForm == lemmas[|lemmas| - 1] then ReplaceFrom(t, word, 0, t) else t
  }

  /** The inner loop of insertingTags for one word: one getReplaceWord per
      normal form of its lower-case spelling. */
  function TagForms(word: string, forms: seq<string>, text: string, lemmas: seq<string>): string
  {
    if forms == [] then text
    else ReplaceWord(word, forms[|forms| - 1], TagForms(word, forms[..|forms| - 1], text, lemmas), lemmas)
  }

  /** The outer loop of insertingTags over the words. */
  function TagWords(words: seq<string>, m: Morphology, text: string, lemmas: seq<string>): string
  {
    if words == [] then text
    else
      var w := words[|words| - 1];
      TagForms(w, NormalForms(m, ToLower(w)), TagWords(words[..|words| - 1], m, text, lemmas), lemmas)
  }

  /** insertingTags on the page's visible text. */
  function InsertingTags(plain: string, m: Morphology, lemmas: seq<string>): string
  {
    TagWords(Tokens(plain), m, plain, lemmas)
  }

  /** getReplaceWord */
  method GetReplaceWord(word: string, normalForm: string, textWithoutTags: string, lemmas: seq<string>)
    returns (r: string)
    ensures r == ReplaceWord(word, normalForm, textWithoutTags, lemmas)
  {
    r := textWithoutTags;
    for q := 0 to |lemmas|
      invariant r == ReplaceWord(word, normalForm, textWithoutTags, lemmas[..q])
    {
      assert lemmas[..q + 1][..q] == lemmas[..q];
      if normalForm != lemmas[q] {
        continue;
      }
      var orig := r;
      var pos := 0;
      var group := " " + word;
      var newWord := Bold(word);
      while pos + |group| <= |orig|
        invariant ReplaceFrom(orig, word, pos, r) == ReplaceFrom(orig, word, 0, orig)
        decreases |orig| - pos
      {
        if MatchAt(orig, word, pos) {
          r := ReplaceAll(r, group, newWord);
          pos := pos + |group|;
        } else {
          pos := pos + 1;
        }
      }
    }
    assert lemmas[..|lemmas|] == lemmas;
  }

  /** insertingTags */
  method InsertTags(plain: string, m: Morphology, lemmas: seq<string>) returns (textWithoutTags: string)
    ensures textWithoutTags == InsertingTags(plain, m, lemmas)
  {
    textWithoutTags := plain;
    var words := Tokens(plain);
    for w := 0 to |words|
      invariant textWithoutTags == TagWords(words[..w], m, plain, lemmas)
    {
      assert words[..w + 1][..w] == words[..w];
      var word := words[w];
      var wordNormalForms := NormalForms(m, ToLower(word));
      ghost var before := textWithoutTags;
      for f := 0 to |wordNormalForms|
        invariant textWithoutTags == TagForms(word, wordNormalForms[..f], before, lemmas)
      {
        assert wordNormalForms[..f + 1][..f] == wordNormalForms[..f];
        textWithoutTags := GetReplaceWord(word, wordNormalForms[f], textWithoutTags, lemmas);
      }
      assert wordNormalForms[..|wordNormalForms|] == wordNormalForms;
    }
    assert words[..|words|] == words;
  }

  /** However the query lemmas are enumerated, getReplaceWord runs the
      matcher loop once when the normal form is one of them and leaves the
      text as it is otherwise. */
  lemma {:induction false} ReplaceWordIsOneScan(word: string, normalForm: string, text: string, lemmas: seq<string>)
    requires NoDup(lemmas)
    ensures ReplaceWord(word, normalForm, text, lemmas)
            == if normalForm in lemmas then ReplaceFrom(text, word, 0, text) else text
  {
    if lemmas != [] {
      var n := |lemmas| - 1;
      var init := lemmas[..n];
      assert forall j :: 0 <= j < n ==> init[j] == lemmas[j];
      assert lemmas == init + [lemmas[n]];
      assert NoDup(init);
      ReplaceWordIsOneScan(word, normalForm, text, init);
      if normalForm == lemmas[n] {
        assert normalForm !in init;
      }
    }
  }

  /** Without a match of " word\b" the matcher loop changes nothing. */
  lemma {:induction false} ReplaceFromWithoutMatch(orig: string, word: string, from: nat, t: string)
    requires !HasMatchFrom(orig, word, from)
    ensures ReplaceFrom(orig, word, from, t) == t
    decreases |orig| - from
  {
    if from + |word| + 1 <= |orig| {
      assert !MatchAt(orig, word, from);
      ReplaceFromWithoutMatch(orig, word, from + 1, t);
    }
  }

  /** Once the text holds no " word" after one replacement, every further
      match of the loop changes nothing: the loop tags each occurrence of
      " word" in the text once, when there is at least one match. */
  lemma {:induction false} ReplaceFromTagsOnce(orig: string, word: string, from: nat, t: string)
    requires !Contains(ReplaceAll(t, " " + word, Bold(word)), " " + word)
    ensures ReplaceFrom(orig, word, from, t)
            == if HasMatchFrom(orig, word, from) then ReplaceAll(t, " " + word, Bold(word)) else t
    decreases |orig| - from
  {
    var g := " " + word;
    var tagged := ReplaceAll(t, g, Bold(word));
    if from + |word| + 1 > |orig| {
      assert forall p :: from <= p ==> !OccursAt(orig, " " + word, p);
    } else if MatchAt(orig, word, from) {
      ReplaceAllUnchangedWhenAbsent(tagged, g, Bold(word));
      if HasMatchFrom(orig, word, from + |word| + 1) {
        ReplaceFromTagsOnce(orig, word, from + |word| + 1, tagged);
      } else {
        ReplaceFromWithoutMatch(orig, word, from + |word| + 1, tagged);
      }
    } else {
      ReplaceFromTagsOnce(orig, word, from + 1, t);
      if HasMatchFrom(orig, word, from) {
        var p :| from <= p && MatchAt(orig, word, p);
        assert p != from;
        assert HasMatchFrom(orig, word, from + 1);
      }
    }
  }

  // ---------------------------------------------------------------------
  // getSnippet

  /** Character.isUpperCase on the Latin, Latin-1 and Cyrillic capitals. */
  predicate IsUpperCase(c: char)
  {
    || 'A' <= c <= 'Z'
    || ('À' <= c <= 'Þ' && c != '×')
    || 'Ѐ' <= c <= 'Я'
  }

  /** The backward scan of getSnippet as written, from position i of the
      text before the first tag: None where charAt(i - 1) is reached with
      i == 0 and throws. */
  function SnippetStartAsWritten(before: string, i: int): (r: Option<nat>)
    requires -1 <= i < |before|
    ensures r.Some? ==> r.value == 0 || r.value < |before|
    decreases i + 1
  {
    if i < 0 then Some(0)
    else if i == 0 then None
    else if IsUpperCase(before[i]) && before[i - 1] == ' ' then Some(LastIndexOf(before, before[i]))
    else SnippetStartAsWritten(before, i - 1)
  }

  /** The backward scan as intended: position 0 has no character before it,
      so the scan stops at 1 and the start stays 0. */
  function SnippetStart(before: string, i: int): (r: nat)
    requires -1 <= i < |before|
    ensures r == 0 || r < |before|
    decreases i + 1
  {
    if i < 1 then 0
    else if IsUpperCase(before[i]) && before[i - 1] == ' ' then LastIndexOf(before, before[i])
    else SnippetStart(before, i - 1)
  }

  /** The window of `clean` from `start`. */
  function Window(clean: string, start: nat): string
    requires start <= |clean|
  {
    clean[start..Min(start + CountCharInTheSnippet, |clean|)] + Ellipsis
  }

  /** getSnippet as written, on the tagged text: None where it throws. */
  function SnippetAsWritten(clean: string): Option<string>
  {
    var firstTag := IndexOf(clean, OpenTag);
    if firstTag < 0 then None
    else
      var before := clean[..firstTag];
      var start := SnippetStartAsWritten(before, |before| - 1);
      if start.None? then None else Some(Window(clean, start.value))
  }

  /** getSnippet, corrected: None only when the text holds no tag
      (substring(0, -1) throws). */
  function Snippet(clean: string): Option<string>
  {
    var firstTag := IndexOf(clean, OpenTag);
    if firstTag < 0 then None
    else
      var before := clean[..firstTag];
      Some(Window(clean, SnippetStart(before, |before| - 1)))
  }

  /** getSnippet, corrected. */
  method GetSnippet(cleanText: string) returns (snippet: Option<string>)
    ensures snippet == Snippet(cleanText)
  {
    var firstTag := IndexOf(cleanText, OpenTag);
    if firstTag < 0 {
      return None;
    }
    var textBeforeTheFirstTag := cleanText[..firstTag];
    var startPosition := 0;
    var i := |textBeforeTheFirstTag| - 1;
    while i >= 1
      invariant -1 <= i < |textBeforeTheFirstTag|
      invariant SnippetStart(textBeforeTheFirstTag, i) == SnippetStart(textBeforeTheFirstTag, |textBeforeTheFirstTag| - 1)
    {
      var ch1 := textBeforeTheFirstTag[i];
      var ch2 := textBeforeTheFirstTag[i - 1];
      if IsUpperCase(ch1) && ch2 == ' ' {
        startPosition := LastIndexOf(textBeforeTheFirstTag, ch1);
        break;
      }
      i := i - 1;
    }
    var endPosition := Min(startPosition + CountCharInTheSnippet, |cleanText|);
    snippet := Some(cleanText[startPosition..endPosition] + Ellipsis);
  }

  /** A snippet is the part of the tagged text that starts at or before the
      first <b>, at most 270 characters long, followed by "..."; there is one
      exactly when the text holds a <b>. */
  lemma SnippetShape(clean: string)
    ensures Snippet(clean).Some? <==> Contains(clean, OpenTag)
    ensures Snippet(clean).Some? ==>
              exists start, end ::
                && 0 <= start <= IndexOf(clean, OpenTag) && start <= end <= |clean|
                && end - start <= CountCharInTheSnippet
                && Snippet(clean).value == clean[start..end] + Ellipsis
  {
    if Contains(clean, OpenTag) {
      var firstTag := IndexOf(clean, OpenTag);
      var before := clean[..firstTag];
      var start := SnippetStart(before, |before| - 1);
      var end := Min(start + CountCharInTheSnippet, |clean|);
      assert Snippet(clean).value == clean[start..end] + Ellipsis;
    }
  }

  /** Where the scan as written does not throw, it agrees with the corrected
      one. */
  lemma {:induction false} SnippetStartAgrees(before: string, i: int)
    requires -1 <= i < |before|
    requires SnippetStartAsWritten(before, i).Some?
    ensures SnippetStartAsWritten(before, i).value == SnippetStart(before, i)
    decreases i + 1
  {
    if i > 0 && !(IsUpperCase(before[i]) && before[i - 1] == ' ') {
      SnippetStartAgrees(before, i - 1);
    }
  }

  /** The first tag of "abc <b>x</b>" is at 4, after "abc ". */
  lemma FirstTagOfExample()
    ensures IndexOf("abc <b>x</b>", OpenTag) == 4
    ensures "abc <b>x</b>"[..4] == "abc "
  {
    var clean := "abc <b>x</b>";
    assert clean[0] == 'a' && clean[1] == 'b' && clean[2] == 'c' && clean[3] == ' ';
    assert clean[4] == '<' && clean[5] == 'b' && clean[6] == '>';
    assert OccursAt(clean, OpenTag, 4);
    assert !OccursAt(clean, OpenTag, 0) && !OccursAt(clean, OpenTag, 1);
    assert !OccursAt(clean, OpenTag, 2) && !OccursAt(clean, OpenTag, 3);
  }

  /** Scanning "abc " backwards meets no capital after a space: as written
      it reaches position 0 and throws, corrected it starts at 0. */
  lemma ScanOfExample()
    ensures SnippetStartAsWritten("abc ", 3) == None
    ensures SnippetStart("abc ", 3) == 0
  {
    var before := "abc ";
    assert before[0] == 'a' && before[1] == 'b' && before[2] == 'c' && before[3] == ' ';
    assert !IsUpperCase(before[3]) && !IsUpperCase(before[2]) && !IsUpperCase(before[1]);
  }

  /** getSnippet as written throws on a text whose words before the first tag
      hold no capital after a space: the scan reaches i == 0 and reads
      charAt(-1). */
  lemma SnippetAsWrittenThrowsWithoutCapital()
    ensures SnippetAsWritten("abc <b>x</b>").None?
  {
    FirstTagOfExample();
    ScanOfExample();
  }

  /** On the same text the corrected scan starts the snippet at 0. */
  lemma SnippetWithoutCapital()
    ensures Snippet("abc <b>x</b>") == Some("abc <b>x</b>...")
  {
    FirstTagOfExample();
    ScanOfExample();
    WindowOfExample();
  }

  /** The whole of "abc <b>x</b>" fits in a window from 0. */
  lemma WindowOfExample()
    ensures Window("abc <b>x</b>", 0) == "abc <b>x</b>..."
  {
    var clean := "abc <b>x</b>";
    assert Min(0 + CountCharInTheSnippet, |clean|) == |clean|;
    assert clean[0..|clean|] == clean;
  }
}
