// The pull-request reconciler: a pull request's description, and each comment on
// it, keeps its own text and carries one translation block between two HTML
// comment markers, which every run replaces.

module PrTranslation {
  import opened Strings
  import opened Letters
  import opened Services
  import opened Blocks

  const TRANSLATED_LABEL: String := "translated"
  const NEEDS_TRANSLATION_LABEL: String := "need translation"
  const ORIGINAL_CONTENT_MARKER: String := "Original Content:"
  const BLOCK_START: String := "<!-- TRANSLATION-START -->"
  const BLOCK_END: String := "<!-- TRANSLATION-END -->"

  /** `LANGUAGE_NAMES.get(lang, lang.capitalize())`. */
  function LanguageName(lang: String): String {
    if lang == "ja" then "日本語"
    else if lang == "en" then "English"
    else Capitalize(lang)
  }

  // ---------------------------------------------------------------------
  // Translation blocks
  // ---------------------------------------------------------------------

  /** `re.sub(START + ".*?" + END, "", s, flags=DOTALL)`. */
  function RemoveBlocks(s: String): (r: String)
    ensures |r| <= |s|
  {
    RemoveSpans(s, BLOCK_START, BLOCK_END)
  }

  /** `strip_translation_block`: every block removed, then the rest stripped. */
  function StripBlocks(s: String): (r: String)
    ensures Stripped(r)
  {
    Strip(RemoveBlocks(s))
  }

  /** `build_translation_block`: the text between the two markers, each on a line of its own. */
  function BuildBlock(t: String): String {
    Framed(t, BLOCK_START, BLOCK_END)
  }

  /** The block opens with the start marker's line, closes with the end marker's, and holds `t` between them. */
  lemma BuildBlockShape(t: String)
    ensures var r := BuildBlock(t);
      StartsWith(r, "\n" + BLOCK_START + "\n") && EndsWith(r, "\n" + BLOCK_END + "\n") &&
      |r| == |BLOCK_START| + |t| + |BLOCK_END| + 4 && r[|BLOCK_START| + 2..|r| - |BLOCK_END| - 2] == t
  {
  }

  /** The character facts about the two markers that the lemmas below rely on. */
  lemma MarkerChars()
    ensures BLOCK_START != [] && BLOCK_END != []
    ensures !IsSpace(BLOCK_START[0]) && !IsSpace(BLOCK_END[|BLOCK_END| - 1])
  {
  }

  lemma MarkersOnOneLine()
    ensures '\n' !in BLOCK_START && '\n' !in BLOCK_END
  {
  }

  /** `>` ends the end marker and occurs nowhere before. */
  lemma EndMarkerLastSeam()
    ensures '>' !in BLOCK_END[..|BLOCK_END| - 1]
  {
  }

  /** `<` starts the end marker and occurs nowhere after. */
  lemma EndMarkerFirstSeam()
    ensures '<' !in BLOCK_END[1..]
  {
  }

  /**
   * Removing blocks from a text with a freshly built block appended gives back the
   * stripped text: a re-run replaces the block instead of stacking a second one.
   */
  lemma StripBlocksOfAppended(s: String, t: String)
    requires !Contains(s, BLOCK_START) && !Contains(t, BLOCK_END)
    ensures StripBlocks(s + BuildBlock(t)) == Strip(s)
  {
    MarkerChars();
    MarkersOnOneLine();
    StripRemoveSpansOfAppended(s, t, BLOCK_START, BLOCK_END);
  }

  /** The same when the whole body was stripped after the block was appended to a stripped text. */
  lemma StripBlocksOfStrippedAppended(s: String, t: String)
    requires Stripped(s) && !Contains(s, BLOCK_START) && !Contains(t, BLOCK_END)
    ensures StripBlocks(Strip(s + BuildBlock(t))) == s
  {
    MarkerChars();
    MarkersOnOneLine();
    StripRemoveSpansOfStrippedAppended(s, t, BLOCK_START, BLOCK_END);
  }

  /** Re-running replaces the old block: only the new block follows the kept text. */
  lemma ReplaceBlock(s: String, oldBlock: String, newBlock: String)
    requires !Contains(s, BLOCK_START) && !Contains(oldBlock, BLOCK_END)
    ensures StripBlocks(s + BuildBlock(oldBlock)) + BuildBlock(newBlock) == Strip(s) + BuildBlock(newBlock)
  {
    StripBlocksOfAppended(s, oldBlock);
  }

  // ---------------------------------------------------------------------
  // get_original_content
  // ---------------------------------------------------------------------

  /** What the regex `<br>\\s*` matches at the front: `<br>` and a backslash, then any `s`. */
  const BR_RUN: String := "<br>\\"

  /** Where the `s*` starting at `i` ends. */
  function SkipS(s: String, i: nat): (j: nat)
    requires i <= |s|
    ensures i <= j <= |s| && (j == |s| || s[j] != 's')
    decreases |s| - i
  {
    if i < |s| && s[i] == 's' then SkipS(s, i + 1) else i
  }

  /** Everything `SkipS` passes over is an `s`. */
  lemma {:induction false} SkipSPassesOnlyS(s: String, i: nat)
    requires i <= |s|
    ensures forall k :: i <= k < SkipS(s, i) ==> s[k] == 's'
    decreases |s| - i
  {
    if i < |s| && s[i] == 's' {
      SkipSPassesOnlyS(s, i + 1);
    }
  }

  /** Where the run of `<br>\\s*` matches starting at `i` ends. */
  function BrRunsEnd(s: String, i: nat): (j: nat)
    requires i <= |s|
    ensures i <= j <= |s| && !IsAt(s, BR_RUN, j)
    ensures !IsAt(s, BR_RUN, i) ==> j == i
    ensures i < j ==> j == |s| || s[j] != 's'
    decreases |s| - i
  {
    if IsAt(s, BR_RUN, i) then BrRunsEnd(s, SkipS(s, i + |BR_RUN|)) else i
  }

  /** `s[i..j]` is one match of `<br>\\s*`: `<br>`, a backslash, then only `s`. */
  predicate BrRunAt(s: String, i: nat, j: nat)
    requires i <= j <= |s|
  {
    IsAt(s, BR_RUN, i) && i + |BR_RUN| <= j && forall k :: i + |BR_RUN| <= k < j ==> s[k] == 's'
  }

  /** `s[i..j]` is made of such matches, one after the other. */
  predicate BrRunsBetween(s: String, i: nat, j: nat)
    requires i <= j <= |s|
    decreases j - i
  {
    i == j || exists m :: i < m <= j && BrRunAt(s, i, m) && BrRunsBetween(s, m, j)
  }

  /** `re.sub(r'^(<br>\\s*)+', '', s)`: the longest run of such matches at the front goes. */
  function RemoveBrRuns(s: String): (r: String)
    ensures |r| <= |s| && r == s[|s| - |r|..]
    ensures !StartsWith(r, BR_RUN)
    ensures !StartsWith(s, BR_RUN) ==> r == s
  {
    var e := BrRunsEnd(s, 0);
    assert StartsWith(s, BR_RUN) <==> IsAt(s, BR_RUN, 0);
    assert !StartsWith(s[e..], BR_RUN) by {
      if e + |BR_RUN| <= |s| {
        assert s[e..e + |BR_RUN|] == s[e..][..|BR_RUN|];
      }
    }
    s[e..]
  }

  /**
   * What goes is a sequence of whole matches, and each match took every `s` it could:
   * when something went, what is left does not start with `s`.
   */
  lemma {:induction false} BrRunsEndMatches(s: String, i: nat)
    requires i <= |s|
    ensures BrRunsBetween(s, i, BrRunsEnd(s, i))
    decreases |s| - i
  {
    if IsAt(s, BR_RUN, i) {
      var m := SkipS(s, i + |BR_RUN|);
      SkipSPassesOnlyS(s, i + |BR_RUN|);
      BrRunsEndMatches(s, m);
      assert BrRunAt(s, i, m);
    }
  }

  /** The prefix `RemoveBrRuns` removes is a sequence of whole matches, and a greedy one. */
  lemma RemoveBrRunsMatches(s: String)
    ensures BrRunsBetween(s, 0, |s| - |RemoveBrRuns(s)|)
    ensures |RemoveBrRuns(s)| < |s| ==> RemoveBrRuns(s) == [] || RemoveBrRuns(s)[0] != 's'
  {
    BrRunsEndMatches(s, 0);
  }

  /** The original text of a block-free, stripped text: after the first marker if there is one. */
  function OriginalOf(w: String): (r: String)
    ensures Stripped(r)
  {
    match Find(w, ORIGINAL_CONTENT_MARKER)
    case None => Strip(w)
    case Some(i) => Strip(RemoveBrRuns(LStrip(w[i + |ORIGINAL_CONTENT_MARKER|..])))
  }

  /** `get_original_content`. */
  function GetOriginalContent(content: String): (r: String)
    ensures Stripped(r)
  {
    OriginalOf(StripBlocks(content))
  }

  /** The marker's closing `:` occurs nowhere else in it, so two occurrences cannot overlap. */
  lemma MarkerEndsOnce()
    ensures ORIGINAL_CONTENT_MARKER[|ORIGINAL_CONTENT_MARKER| - 1] !in ORIGINAL_CONTENT_MARKER[..|ORIGINAL_CONTENT_MARKER| - 1]
  {
    assert ORIGINAL_CONTENT_MARKER == "Original Content" + [':'];
  }

  /** With a marker, only the text after its first occurrence counts. */
  lemma AfterFirstMarker(pre: String, rest: String)
    requires !Contains(pre, ORIGINAL_CONTENT_MARKER)
    ensures OriginalOf(pre + ORIGINAL_CONTENT_MARKER + rest) == Strip(RemoveBrRuns(LStrip(rest)))
  {
    MarkerEndsOnce();
    FirstOccurrenceOfUniqueEnd(pre, ORIGINAL_CONTENT_MARKER, rest);
    assert (pre + ORIGINAL_CONTENT_MARKER + rest)[|pre| + |ORIGINAL_CONTENT_MARKER|..] == rest;
  }

  /** One `<br>\` run, with no `s` after it, is removed whole. */
  lemma RemoveOneBrRun(o: String)
    requires !StartsWith(o, BR_RUN) && (o == [] || o[0] != 's')
    ensures RemoveBrRuns(BR_RUN + o) == o
  {
    assert StartsWith(BR_RUN + o, BR_RUN) && (BR_RUN + o)[|BR_RUN|..] == o;
  }

  /**
   * After the first marker, leading whitespace and a `<br>\` run are dropped and the
   * stripped text that follows is the original; nothing before the marker counts.
   */
  lemma OriginalAfterMarker(pre: String, w: String, br: bool, o: String)
    requires !Contains(pre, ORIGINAL_CONTENT_MARKER)
    requires AllSpace(w) && Stripped(o) && !StartsWith(o, BR_RUN) && (br ==> o == [] || o[0] != 's')
    ensures OriginalOf(pre + ORIGINAL_CONTENT_MARKER + (w + ((if br then BR_RUN else []) + o))) == o
  {
    var x := (if br then BR_RUN else []) + o;
    AfterFirstMarker(pre, w + x);
    CleanedTail(w, br, o);
  }

  /** What follows the marker: leading whitespace and one `<br>\` run go, the rest is kept. */
  lemma CleanedTail(w: String, br: bool, o: String)
    requires AllSpace(w) && Stripped(o) && !StartsWith(o, BR_RUN) && (br ==> o == [] || o[0] != 's')
    ensures Strip(RemoveBrRuns(LStrip(w + ((if br then BR_RUN else []) + o)))) == o
  {
    var x := (if br then BR_RUN else []) + o;
    assert LStrip(w + x) == x by {
      assert x == [] || !IsSpace(x[0]);
      LStripAfterSpaces(w, x);
    }
    assert RemoveBrRuns(x) == o by {
      if br {
        RemoveOneBrRun(o);
      } else {
        assert x == o;
      }
    }
    StrippedFixed(o);
  }

  /** Without the marker, the original is the whole block-free text. */
  lemma OriginalWithoutMarker(content: String)
    requires !Contains(StripBlocks(content), ORIGINAL_CONTENT_MARKER)
    ensures GetOriginalContent(content) == StripBlocks(content)
  {
    StripIdempotent(RemoveBlocks(content));
  }

  /** Appending a fresh block does not change what is taken as the original. */
  lemma OriginalIgnoresAppendedBlock(s: String, t: String)
    requires !Contains(StripBlocks(s), BLOCK_START) && !Contains(t, BLOCK_END)
    ensures StripBlocks(StripBlocks(s) + BuildBlock(t)) == StripBlocks(s)
    ensures GetOriginalContent(StripBlocks(s) + BuildBlock(t)) == GetOriginalContent(s)
  {
    StripBlocksOfAppended(StripBlocks(s), t);
    StripIdempotent(RemoveBlocks(s));
  }

  // ---------------------------------------------------------------------
  // detect_language, get_target_languages
  // ---------------------------------------------------------------------

  /** Hiragana, Katakana and the CJK Unified Ideographs. */
  predicate IsJapanese(c: char) {
    (0x3040 <= c as int <= 0x309F) || (0x30A0 <= c as int <= 0x30FF) || (0x4E00 <= c as int <= 0x9FFF)
  }

  /** The range U+0041 to U+007A: the ASCII letters and `[\]^_` and the backquote. */
  predicate IsLatin(c: char) {
    0x41 <= c as int <= 0x7A
  }

  /** `sum(1 for char in s if f(char))`. */
  function Count(s: String, f: char -> bool): (n: nat)
    ensures n <= |s|
  {
    if s == [] then 0 else Count(s[..|s| - 1], f) + (if f(s[|s| - 1]) then 1 else 0)
  }

  lemma {:induction false} CountAppend(a: String, b: String, f: char -> bool)
    ensures Count(a + b, f) == Count(a, f) + Count(b, f)
    decreases |b|
  {
    if b != [] {
      CountAppend(a, b[..|b| - 1], f);
      assert (a + b)[..|a + b| - 1] == a + b[..|b| - 1];
      assert (a + b)[|a + b| - 1] == b[|b| - 1];
    } else {
      assert a + b == a;
    }
  }

  lemma {:induction false} CountNone(s: String, f: char -> bool)
    requires forall k :: 0 <= k < |s| ==> !f(s[k])
    ensures Count(s, f) == 0
    decreases |s|
  {
    if s != [] {
      CountNone(s[..|s| - 1], f);
    }
  }

  lemma {:induction false} CountAll(s: String, f: char -> bool)
    requires forall k :: 0 <= k < |s| ==> f(s[k])
    ensures Count(s, f) == |s|
    decreases |s|
  {
    if s != [] {
      CountAll(s[..|s| - 1], f);
    }
  }

  /** `detect_language`: Japanese when its characters outnumber those of U+0041..U+007A. */
  function DetectLanguage(s: String): (lang: String)
    ensures lang == "ja" || lang == "en"
  {
    if Count(s, IsJapanese) > Count(s, IsLatin) then "ja" else "en"
  }

  /** Text with no Japanese character, the empty text among them, is English. */
  lemma DetectNoJapanese(s: String)
    requires forall k :: 0 <= k < |s| ==> !IsJapanese(s[k])
    ensures DetectLanguage(s) == "en"
  {
    CountNone(s, IsJapanese);
  }

  /** Non-empty text made only of Japanese characters is Japanese. */
  lemma DetectAllJapanese(s: String)
    requires s != [] && forall k :: 0 <= k < |s| ==> IsJapanese(s[k])
    ensures DetectLanguage(s) == "ja"
  {
    CountAll(s, IsJapanese);
    CountNone(s, IsLatin);
  }

  /**
   * Japanese characters followed by letters of U+0041..U+007A are Japanese exactly when
   * the Japanese ones are strictly more; a tie goes to English.
   */
  lemma DetectMajority(a: String, b: String)
    requires forall k :: 0 <= k < |a| ==> IsJapanese(a[k])
    requires forall k :: 0 <= k < |b| ==> IsLatin(b[k])
    ensures DetectLanguage(a + b) == "ja" <==> |a| > |b|
  {
    CountAppend(a, b, IsJapanese);
    CountAppend(a, b, IsLatin);
    CountAll(a, IsJapanese);
    CountNone(a, IsLatin);
    CountAll(b, IsLatin);
    CountNone(b, IsJapanese);
  }

  /** Two texts detected alike are detected so together: the test is a majority count. */
  lemma DetectAppend(a: String, b: String)
    requires DetectLanguage(a) == DetectLanguage(b)
    ensures DetectLanguage(a + b) == DetectLanguage(a)
  {
    CountAppend(a, b, IsJapanese);
    CountAppend(a, b, IsLatin);
  }

  /** `get_target_languages`: one language, never the source language. */
  function TargetLanguages(lang: String): (targets: seq<String>)
    ensures |targets| == 1 && targets[0] != lang
    ensures targets[0] == "ja" || targets[0] == "en"
    ensures targets == ["ja"] <==> lang == "en"
  {
    if lang == "en" then ["ja"] else if lang == "ja" then ["en"] else ["en"]
  }

  // ---------------------------------------------------------------------
  // translate_content
  // ---------------------------------------------------------------------

  /** The dict `translate_content` returns. */
  function Translations(content: String, lang: String, answer: (String, String) -> Option<String>): seq<Entry> {
    Gather([Entry(lang, content)], content, TargetLanguages(lang), answer)
  }

  /**
   * The source language maps to the content itself, first; the single target follows
   * exactly when the service answered it with a non-empty text.
   */
  lemma TranslationsShape(content: String, lang: String, answer: (String, String) -> Option<String>)
    ensures var t := TargetLanguages(lang)[0];
      Translations(content, lang, answer) ==
        [Entry(lang, content)] + (if Truthy(answer(content, t)) then [Entry(t, answer(content, t).value)] else [])
  {
    var targets := TargetLanguages(lang);
    var t := targets[0];
    var d0 := [Entry(lang, content)];
    assert targets[..|targets| - 1] == [];
    assert Gather(d0, content, targets[..|targets| - 1], answer) == d0;
    if Truthy(answer(content, t)) {
      var v := answer(content, t).value;
      assert d0[1..] == [];
      assert Put(d0, t, v) == [d0[0]] + Put([], t, v);
    }
  }

  method TranslateContent(content: String, lang: String, oracle: Translator) returns (d: seq<Entry>)
    modifies oracle
    ensures d == Translations(content, lang, oracle.answer)
    ensures oracle.requests == old(oracle.requests) + Requests(content, TargetLanguages(lang))
  {
    d := [Entry(lang, content)];
    var targets := TargetLanguages(lang);
    for i := 0 to |targets|
      invariant d == Gather([Entry(lang, content)], content, targets[..i], oracle.answer)
      invariant oracle.requests == old(oracle.requests) + Requests(content, targets[..i])
    {
      var translation := oracle.Translate(content, targets[i]);
      if Truthy(translation) {
        d := Put(d, targets[i], translation.value);
      }
      assert targets[..i + 1][..i] == targets[..i];
      assert Requests(content, targets[..i + 1]) == Requests(content, targets[..i]) + [Request(content, targets[i])];
    }
    assert targets[..|targets|] == targets;
  }

  // ---------------------------------------------------------------------
  // format_translations
  // ---------------------------------------------------------------------

  /** Whether an entry of either dict is written out. */
  predicate Shown(e: Entry, lang: String) {
    e.text != [] && e.lang != lang
  }

  function DetailsBlock(name: String, t: String): String {
    "<details>\n<summary><b>" + name + "</b></summary>\n\n" + t + "\n</details>"
  }

  function OriginalPart(o: String): String {
    "**" + ORIGINAL_CONTENT_MARKER + "**\n\n" + o
  }

  /** A `## ` line per shown title translation, in dict order. */
  function TitleParts(titles: seq<Entry>, lang: String): seq<String> {
    if titles == [] then []
    else
      var e := titles[|titles| - 1];
      TitleParts(titles[..|titles| - 1], lang) + (if Shown(e, lang) then ["## " + e.text] else [])
  }

  /** A `<details>` block per shown body translation, in dict order. */
  function BodyParts(bodies: seq<Entry>, lang: String): seq<String> {
    if bodies == [] then []
    else
      var e := bodies[|bodies| - 1];
      BodyParts(bodies[..|bodies| - 1], lang) + (if Shown(e, lang) then [DetailsBlock(LanguageName(e.lang), e.text)] else [])
  }

  /** The text `format_translations` returns. */
  function FormatPr(titles: seq<Entry>, bodies: seq<Entry>, o: String, lang: String): (r: String)
    ensures Stripped(r)
  {
    Strip(Join(TitleParts(titles, lang) + BodyParts(bodies, lang) + [OriginalPart(o)], "\n\n"))
  }

  /**
   * What is left of the original-content part at the end of the stripped text: all of
   * it, or, with an empty original, the marker line without the blank line after it.
   */
  function ShownOriginalPart(o: String): String {
    if o == [] then "**" + ORIGINAL_CONTENT_MARKER + "**" else OriginalPart(o)
  }

  /** The original-content part is what is shown of it, then whitespace only. */
  lemma OriginalPartShape(o: String)
    requires Stripped(o)
    ensures var y := ShownOriginalPart(o);
      OriginalPart(o) == y + (if o == [] then "\n\n" else []) &&
      y != [] && y[0] == '*' && !IsSpace(y[|y| - 1])
  {
    if o == [] {
      assert OriginalPart(o) == ShownOriginalPart(o) + "\n\n";
    } else {
      assert OriginalPart(o) == ShownOriginalPart(o) + [];
    }
  }

  /**
   * The text ends with the original-content part; before it come the title lines and
   * the detail blocks, joined and followed by a blank line, with leading whitespace gone.
   */
  lemma FormatPrLayout(titles: seq<Entry>, bodies: seq<Entry>, o: String, lang: String)
    requires Stripped(o)
    ensures var parts := TitleParts(titles, lang) + BodyParts(bodies, lang);
      FormatPr(titles, bodies, o, lang) ==
        (if parts == [] then [] else LStrip(Join(parts, "\n\n") + "\n\n")) + ShownOriginalPart(o)
    ensures EndsWith(FormatPr(titles, bodies, o, lang), ShownOriginalPart(o))
  {
    var parts := TitleParts(titles, lang) + BodyParts(bodies, lang);
    var x, y := OriginalPart(o), ShownOriginalPart(o);
    var w: String := if o == [] then "\n\n" else [];
    var pre := if parts == [] then [] else Join(parts, "\n\n") + "\n\n";
    OriginalPartShape(o);
    JoinSnoc(parts, x, "\n\n");
    assert Join(parts + [x], "\n\n") == pre + y + w by {
      Assoc(pre, y, w);
    }
    StripKeepsTailBeforeSpace(pre, y, w);
    assert LStrip([]) == [];
    var r := FormatPr(titles, bodies, o, lang);
    assert r[|r| - |y|..] == y;
  }

  /** A title line is written for every shown title translation, and for nothing else. */
  lemma {:induction false} TitlePartsShown(titles: seq<Entry>, lang: String)
    ensures forall e :: e in titles && Shown(e, lang) ==> "## " + e.text in TitleParts(titles, lang)
    ensures forall p :: p in TitleParts(titles, lang) ==>
              exists e :: e in titles && Shown(e, lang) && p == "## " + e.text
    decreases |titles|
  {
    if titles != [] {
      var init, e := titles[..|titles| - 1], titles[|titles| - 1];
      TitlePartsShown(init, lang);
      assert titles == init + [e];
      forall p | p in TitleParts(titles, lang)
        ensures exists e' :: e' in titles && Shown(e', lang) && p == "## " + e'.text
      {
        if p in TitleParts(init, lang) {
          var e' :| e' in init && Shown(e', lang) && p == "## " + e'.text;
          assert e' in titles;
        } else {
          assert e in titles && Shown(e, lang) && p == "## " + e.text;
        }
      }
    }
  }

  /** A detail block is written for every shown body translation, and for nothing else. */
  lemma {:induction false} BodyPartsShown(bodies: seq<Entry>, lang: String)
    ensures forall e :: e in bodies && Shown(e, lang) ==>
              DetailsBlock(LanguageName(e.lang), e.text) in BodyParts(bodies, lang)
    ensures forall p :: p in BodyParts(bodies, lang) ==>
              exists e :: e in bodies && Shown(e, lang) && p == DetailsBlock(LanguageName(e.lang), e.text)
    decreases |bodies|
  {
    if bodies != [] {
      var init, e := bodies[..|bodies| - 1], bodies[|bodies| - 1];
      BodyPartsShown(init, lang);
      assert bodies == init + [e];
      forall p | p in BodyParts(bodies, lang)
        ensures exists e' :: e' in bodies && Shown(e', lang) && p == DetailsBlock(LanguageName(e'.lang), e'.text)
      {
        if p in BodyParts(init, lang) {
          var e' :| e' in init && Shown(e', lang) && p == DetailsBlock(LanguageName(e'.lang), e'.text);
          assert e' in bodies;
        } else {
          assert e in bodies && Shown(e, lang) && p == DetailsBlock(LanguageName(e.lang), e.text);
        }
      }
    }
  }

  method FormatTranslations(titles: seq<Entry>, bodies: seq<Entry>, o: String, lang: String) returns (r: String)
    ensures r == FormatPr(titles, bodies, o, lang)
  {
    var parts: seq<String> := [];
    for i := 0 to |titles|
      invariant parts == TitleParts(titles[..i], lang)
    {
      assert titles[..i + 1][..i] == titles[..i];
      if titles[i].text != [] && titles[i].lang != lang {
        parts := parts + ["## " + titles[i].text];
      }
    }
    assert titles[..|titles|] == titles;
    for i := 0 to |bodies|
      invariant parts == TitleParts(titles, lang) + BodyParts(bodies[..i], lang)
    {
      assert bodies[..i + 1][..i] == bodies[..i];
      if bodies[i].text != [] && bodies[i].lang != lang {
        var name := LanguageName(bodies[i].lang);
        parts := parts + [DetailsBlock(name, bodies[i].text)];
      }
    }
    assert bodies[..|bodies|] == bodies;
    parts := parts + [OriginalPart(o)];
    r := Strip(Join(parts, "\n\n"));
  }

  /** Of the dict `translate_content` returns, only the answered target is shown. */
  lemma TranslationBodyParts(content: String, lang: String, answer: (String, String) -> Option<String>)
    ensures var t := TargetLanguages(lang)[0];
      BodyParts(Translations(content, lang, answer), lang) ==
        if Truthy(answer(content, t)) then [DetailsBlock(LanguageName(t), answer(content, t).value)] else []
  {
    var t := TargetLanguages(lang)[0];
    var d := Translations(content, lang, answer);
    var e0 := Entry(lang, content);
    TranslationsShape(content, lang, answer);
    assert BodyParts([e0], lang) == [] by {
      assert [e0][..0] == [];
    }
    if Truthy(answer(content, t)) {
      assert d[..|d| - 1] == [e0];
    } else {
      assert d == [e0];
    }
  }

  /** The block written for a comment: the answered translation, if any, then the original. */
  lemma FormatCommentBlock(oc: String, lang: String, answer: (String, String) -> Option<String>)
    requires Stripped(oc)
    ensures var t := TargetLanguages(lang)[0];
      FormatPr([], Translations(oc, lang, answer), oc, lang) ==
        (if Truthy(answer(oc, t)) then DetailsBlock(LanguageName(t), answer(oc, t).value) + "\n\n" else [])
        + ShownOriginalPart(oc)
  {
    var t := TargetLanguages(lang)[0];
    var d := Translations(oc, lang, answer);
    var a := answer(oc, t);
    var parts := TitleParts([], lang) + BodyParts(d, lang);
    assert FormatPr([], d, oc, lang) ==
      (if parts == [] then [] else LStrip(Join(parts, "\n\n") + "\n\n")) + ShownOriginalPart(oc) by {
      FormatPrLayout([], d, oc, lang);
    }
    assert parts == [] + (if Truthy(a) then [DetailsBlock(LanguageName(t), a.value)] else []) by {
      assert TitleParts([], lang) == [];
      TranslationBodyParts(oc, lang, answer);
    }
    var b := if Truthy(a) then DetailsBlock(LanguageName(t), a.value) else "<";
    assert b[0] == '<' by {
      if Truthy(a) {
        DetailsBlockStart(LanguageName(t), a.value);
      }
    }
    OptionalPartLayout(FormatPr([], d, oc, lang), parts, Truthy(a), b, ShownOriginalPart(oc));
  }

  lemma DetailsBlockStart(name: String, t: String)
    ensures DetailsBlock(name, t) != [] && DetailsBlock(name, t)[0] == '<'
  {
  }

  /** With at most one part before it, starting outside whitespace, the layout is that part and a blank line. */
  lemma OptionalPartLayout(f: String, parts: seq<String>, some: bool, b: String, y: String)
    requires f == (if parts == [] then [] else LStrip(Join(parts, "\n\n") + "\n\n")) + y
    requires parts == [] + (if some then [b] else [])
    requires b != [] && !IsSpace(b[0])
    ensures f == (if some then b + "\n\n" else []) + y
  {
    if some {
      assert Join(parts, "\n\n") == b;
      LStripAfterSpaces([], b + "\n\n");
    }
  }

  lemma ShortNoEnd(s: String)
    requires |s| < |BLOCK_END|
    ensures !Contains(s, BLOCK_END)
  {
  }

  lemma DetailsBlockNoEnd(name: String, t: String)
    requires !Contains(name, BLOCK_END) && !Contains(t, BLOCK_END)
    ensures !Contains(DetailsBlock(name, t), BLOCK_END)
  {
    var a, b, c := "<details>\n<summary><b>", "</b></summary>\n\n", "\n</details>";
    var x := a + name + b;
    assert !Contains(x, BLOCK_END) by {
      EndMarkerLastSeam();
      EndMarkerFirstSeam();
      ShortNoEnd(a);
      ShortNoEnd(b);
      assert a[|a| - 1] == '>' && b[0] == '<';
      WrappedNoOccurrence(a, name, b, BLOCK_END);
    }
    assert !Contains(x + t, BLOCK_END) by {
      MarkerChars();
      MarkersOnOneLine();
      assert x[|x| - 1] == '\n';
      AfterForeignChar(x, t, BLOCK_END);
    }
    assert !Contains(x + t + c, BLOCK_END) by {
      MarkerChars();
      MarkersOnOneLine();
      ShortNoEnd(c);
      assert c[0] == '\n';
      BeforeForeignChar(x + t, c, BLOCK_END);
    }
  }

  lemma {:induction false} TitlePartsNoEnd(titles: seq<Entry>, lang: String)
    requires forall e :: e in titles && Shown(e, lang) ==> !Contains(e.text, BLOCK_END)
    ensures forall k :: 0 <= k < |TitleParts(titles, lang)| ==> !Contains(TitleParts(titles, lang)[k], BLOCK_END)
    decreases |titles|
  {
    if titles != [] {
      var e := titles[|titles| - 1];
      TitlePartsNoEnd(titles[..|titles| - 1], lang);
      if Shown(e, lang) {
        ShortNoEnd("## ");
        ConcatNoOccurrence("## ", e.text, BLOCK_END);
      }
    }
  }

  lemma {:induction false} BodyPartsNoEnd(bodies: seq<Entry>, lang: String)
    requires forall e :: e in bodies && Shown(e, lang) ==>
               !Contains(e.text, BLOCK_END) && !Contains(LanguageName(e.lang), BLOCK_END)
    ensures forall k :: 0 <= k < |BodyParts(bodies, lang)| ==> !Contains(BodyParts(bodies, lang)[k], BLOCK_END)
    decreases |bodies|
  {
    if bodies != [] {
      var e := bodies[|bodies| - 1];
      BodyPartsNoEnd(bodies[..|bodies| - 1], lang);
      if Shown(e, lang) {
        DetailsBlockNoEnd(LanguageName(e.lang), e.text);
      }
    }
  }

  /** The formatted block holds no end marker unless one of its texts does. */
  lemma FormatPrNoEnd(titles: seq<Entry>, bodies: seq<Entry>, o: String, lang: String)
    requires forall e :: e in titles && Shown(e, lang) ==> !Contains(e.text, BLOCK_END)
    requires forall e :: e in bodies && Shown(e, lang) ==>
               !Contains(e.text, BLOCK_END) && !Contains(LanguageName(e.lang), BLOCK_END)
    requires !Contains(o, BLOCK_END)
    ensures !Contains(FormatPr(titles, bodies, o, lang), BLOCK_END)
  {
    var ts, bs := TitleParts(titles, lang), BodyParts(bodies, lang);
    var parts := ts + bs + [OriginalPart(o)];
    assert forall k :: 0 <= k < |parts| ==> !Contains(parts[k], BLOCK_END) by {
      TitlePartsNoEnd(titles, lang);
      BodyPartsNoEnd(bodies, lang);
      assert !Contains(OriginalPart(o), BLOCK_END) by {
        ShortNoEnd("**" + ORIGINAL_CONTENT_MARKER + "**\n\n");
        ConcatNoOccurrence("**" + ORIGINAL_CONTENT_MARKER + "**\n\n", o, BLOCK_END);
      }
      forall k | 0 <= k < |parts| ensures !Contains(parts[k], BLOCK_END) {
        if k < |ts| { assert parts[k] == ts[k]; }
        else if k < |ts| + |bs| { assert parts[k] == bs[k - |ts|]; }
      }
    }
    assert !Contains(Join(parts, "\n\n"), BLOCK_END) by {
      ShortNoEnd("\n\n");
      JoinNoOccurrence(parts, "\n\n", BLOCK_END);
    }
    StripNoOccurrence(Join(parts, "\n\n"), BLOCK_END);
  }

  /** The service never answers with the end marker. */
  ghost predicate AnswersFree(answer: (String, String) -> Option<String>) {
    forall x, l :: answer(x, l).Some? ==> !Contains(answer(x, l).value, BLOCK_END)
  }

  /** What `translate_content` adds is free of the end marker when the service's answers are. */
  lemma TranslationsNoEnd(content: String, lang: String, answer: (String, String) -> Option<String>)
    requires AnswersFree(answer)
    ensures forall e :: e in Translations(content, lang, answer) && Shown(e, lang) ==>
              !Contains(e.text, BLOCK_END) && !Contains(LanguageName(e.lang), BLOCK_END)
  {
    TranslationsShape(content, lang, answer);
    ShortNoEnd("日本語");
    ShortNoEnd("English");
  }

  // ---------------------------------------------------------------------
  // translate_pr
  // ---------------------------------------------------------------------

  /**
   * The new description `translate_pr` writes, or `None` when it equals the old one
   * after strip() and nothing is written.
   */
  function PrUpdate(prBody: String, o: String, lang: String, title: String, body: String,
                    answer: (String, String) -> Option<String>): Option<String>
  {
    var block := FormatPr(Translations(title, lang, answer), Translations(body, lang, answer), o, lang);
    var updated := StripBlocks(prBody) + BuildBlock(block);
    if Strip(updated) != Strip(prBody) then Some(updated) else None
  }

  method TranslatePr(pr: PullRequest, o: String, lang: String, title: String, body: String, oracle: Translator)
    returns (edited: bool)
    modifies pr, oracle
    ensures var u := PrUpdate(old(pr.body), o, lang, title, body, oracle.answer);
      edited == u.Some? && pr.body == (if edited then u.value else old(pr.body))
    ensures pr.edits == old(pr.edits) + (if edited then [pr.body] else [])
    ensures pr.title == old(pr.title) && pr.labels == old(pr.labels)
    ensures oracle.requests == old(oracle.requests)
              + Requests(title, TargetLanguages(lang)) + Requests(body, TargetLanguages(lang))
  {
    var titleTranslations := TranslateContent(title, lang, oracle);
    var bodyTranslations := TranslateContent(body, lang, oracle);
    var block := FormatTranslations(titleTranslations, bodyTranslations, o, lang);
    var updated := StripBlocks(pr.body) + BuildBlock(block);
    if Strip(updated) != Strip(pr.body) {
      pr.Edit(updated);
      edited := true;
    } else {
      edited := false;
    }
  }

  /** What `main` writes to the description: its own original text is both content and body. */
  function PrBodyUpdate(prBody: String, title: String, answer: (String, String) -> Option<String>): Option<String> {
    var o := GetOriginalContent(prBody);
    PrUpdate(prBody, o, DetectLanguage(o), title, o, answer)
  }

  method TranslatePrBody(pr: PullRequest, oracle: Translator) returns (edited: bool)
    modifies pr, oracle
    ensures var u := PrBodyUpdate(old(pr.body), old(pr.title), oracle.answer);
      edited == u.Some? && pr.body == (if edited then u.value else old(pr.body))
    ensures pr.edits == old(pr.edits) + (if edited then [pr.body] else [])
    ensures pr.title == old(pr.title) && pr.labels == old(pr.labels)
    ensures var o := GetOriginalContent(old(pr.body));
      var targets := TargetLanguages(DetectLanguage(o));
      oracle.requests == old(oracle.requests) + Requests(old(pr.title), targets) + Requests(o, targets)
  {
    var o := GetOriginalContent(pr.body);
    var lang := DetectLanguage(o);
    var title := pr.title;
    var body := GetOriginalContent(pr.body);
    edited := TranslatePr(pr, o, lang, title, body, oracle);
  }

  /**
   * A second run on the description the first run wrote, with the same title and the
   * same answers, writes nothing.
   */
  lemma PrBodyIdempotent(prBody: String, title: String, answer: (String, String) -> Option<String>)
    requires PrBodyUpdate(prBody, title, answer).Some?
    requires !Contains(StripBlocks(prBody), BLOCK_START) && !Contains(GetOriginalContent(prBody), BLOCK_END)
    requires AnswersFree(answer)
    ensures PrBodyUpdate(PrBodyUpdate(prBody, title, answer).value, title, answer).None?
  {
    var o := GetOriginalContent(prBody);
    var lang := DetectLanguage(o);
    var block := FormatPr(Translations(title, lang, answer), Translations(o, lang, answer), o, lang);
    TranslationsNoEnd(title, lang, answer);
    TranslationsNoEnd(o, lang, answer);
    FormatPrNoEnd(Translations(title, lang, answer), Translations(o, lang, answer), o, lang);
    OriginalIgnoresAppendedBlock(prBody, block);
  }

  // ---------------------------------------------------------------------
  // translate_pr_comment
  // ---------------------------------------------------------------------

  /** The comment's own text: its stripped body without translation blocks. */
  function CommentOriginal(body: String): String {
    StripBlocks(Strip(body))
  }

  function CommentLanguage(body: String): String {
    DetectLanguage(GetOriginalContent(Strip(body)))
  }

  /**
   * The new body `translate_pr_comment` writes, or `None` when the body is empty or the
   * new body equals the old one after strip().
   */
  function PrCommentUpdate(body: String, answer: (String, String) -> Option<String>): Option<String> {
    if body == [] then None
    else
      var oc := CommentOriginal(body);
      var lang := CommentLanguage(body);
      var translations := Translations(oc, lang, answer);
      if translations == [] then None
      else
        var updated := oc + BuildBlock(FormatPr([], translations, oc, lang));
        if Strip(updated) != Strip(body) then Some(updated) else None
  }

  method TranslatePrComment(comment: Comment, oracle: Translator) returns (edited: bool)
    modifies comment, oracle
    ensures var u := PrCommentUpdate(old(comment.body), oracle.answer);
      edited == u.Some? && comment.body == (if edited then u.value else old(comment.body))
    ensures comment.edits == old(comment.edits) + (if edited then [comment.body] else [])
    ensures oracle.requests == old(oracle.requests) +
      (if old(comment.body) == [] then []
       else Requests(CommentOriginal(old(comment.body)), TargetLanguages(CommentLanguage(old(comment.body)))))
  {
    if comment.body == [] {
      return false;
    }
    var current := Strip(comment.body);
    var oc := StripBlocks(current);
    var lang := DetectLanguage(GetOriginalContent(current));
    var translations := TranslateContent(oc, lang, oracle);
    edited := false;
    if translations != [] {
      var block := FormatTranslations([], translations, oc, lang);
      var updated := oc + BuildBlock(block);
      if Strip(updated) != Strip(comment.body) {
        comment.Edit(updated);
        edited := true;
      }
    }
  }

  /**
   * A second run on the body the first run wrote, with the same answers, writes nothing,
   * when the comment's own text holds neither marker and the service never answers
   * with the end marker.
   */
  lemma PrCommentIdempotent(body: String, answer: (String, String) -> Option<String>)
    requires PrCommentUpdate(body, answer).Some?
    requires !Contains(CommentOriginal(body), BLOCK_START) && !Contains(CommentOriginal(body), BLOCK_END)
    requires AnswersFree(answer)
    ensures PrCommentUpdate(PrCommentUpdate(body, answer).value, answer).None?
  {
    var oc := CommentOriginal(body);
    var lang := CommentLanguage(body);
    var translations := Translations(oc, lang, answer);
    var block := FormatPr([], translations, oc, lang);
    var updated := oc + BuildBlock(block);
    TranslationsNoEnd(oc, lang, answer);
    FormatPrNoEnd([], translations, oc, lang);
    StripBlocksOfStrippedAppended(oc, block);
    assert updated != [] by {
      assert |BuildBlock(block)| > 0;
    }
    assert CommentOriginal(updated) == oc;
    assert CommentLanguage(updated) == lang;
  }

  // ---------------------------------------------------------------------
  // should_translate and the label gating in main
  // ---------------------------------------------------------------------

  /** `[name.lower() for name in labels]`. */
  function LowerAll(labels: seq<String>): (r: seq<String>)
    ensures |r| == |labels|
  {
    seq(|labels|, k requires 0 <= k < |labels| => Lower(labels[k]))
  }

  /**
   * `should_translate`, with both of its tests. A pull request is translated exactly
   * when one of its labels is `need translation` in any letter case; the second test
   * adds nothing.
   */
  predicate ShouldTranslate(labels: seq<String>)
    ensures ShouldTranslate(labels) <==>
      exists k :: 0 <= k < |labels| && Lower(labels[k]) == NEEDS_TRANSLATION_LABEL
  {
    LowerLabels();
    var lowered := LowerAll(labels);
    assert forall k :: 0 <= k < |labels| ==> lowered[k] == Lower(labels[k]);
    if Lower(NEEDS_TRANSLATION_LABEL) in lowered then true
    else if Lower(TRANSLATED_LABEL) in lowered && Lower(NEEDS_TRANSLATION_LABEL) in lowered then true
    else false
  }

  lemma LowerLabels()
    ensures Lower(NEEDS_TRANSLATION_LABEL) == NEEDS_TRANSLATION_LABEL
    ensures Lower(TRANSLATED_LABEL) == TRANSLATED_LABEL
  {
    assert Lower(NEEDS_TRANSLATION_LABEL) == NEEDS_TRANSLATION_LABEL by {
      forall k | 0 <= k < |NEEDS_TRANSLATION_LABEL|
        ensures Lower(NEEDS_TRANSLATION_LABEL)[k] == NEEDS_TRANSLATION_LABEL[k]
      {
      }
    }
    assert Lower(TRANSLATED_LABEL) == TRANSLATED_LABEL by {
      forall k | 0 <= k < |TRANSLATED_LABEL| ensures Lower(TRANSLATED_LABEL)[k] == TRANSLATED_LABEL[k] {
      }
    }
  }



  /** The labels after `if translated and TRANSLATED_LABEL not in labels: add_to_labels(...)`. */
  function LabelsAfter(labels: seq<String>, translated: bool): seq<String> {
    if translated && Lower(TRANSLATED_LABEL) !in LowerAll(labels) then labels + [TRANSLATED_LABEL] else labels
  }

  /** After a run that translated something, the label is there. */
  lemma LabelsAfterMarks(labels: seq<String>)
    ensures TRANSLATED_LABEL in LowerAll(LabelsAfter(labels, true))
  {
    LowerLabels();
    var r := LabelsAfter(labels, true);
    if TRANSLATED_LABEL !in LowerAll(labels) {
      assert LowerAll(r)[|labels|] == Lower(TRANSLATED_LABEL);
    }
  }

  /** The label is added at most once, however many runs translate something. */
  lemma LabelsAfterIdempotent(labels: seq<String>, first: bool, second: bool)
    ensures LabelsAfter(LabelsAfter(labels, first), second) == LabelsAfter(labels, first || second)
  {
    if first {
      LabelsAfterMarks(labels);
      LowerLabels();
    }
  }

  method MarkTranslated(pr: PullRequest, translated: bool)
    modifies pr
    ensures pr.labels == LabelsAfter(old(pr.labels), translated)
    ensures pr.title == old(pr.title) && pr.body == old(pr.body) && pr.edits == old(pr.edits)
  {
    if translated {
      var labels := LowerAll(pr.labels);
      if Lower(TRANSLATED_LABEL) !in labels {
        pr.AddToLabels(TRANSLATED_LABEL);
      }
    }
  }
}
