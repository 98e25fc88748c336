// The issue-comment reconciler: a translated comment is rewritten as one
// `<details>` block per translation, then the `**Original Comment:**` marker and
// the original text. A later run compares the text before the marker with the
// text after it to decide whether to translate again.

module CommentTranslation {
  import opened Strings
  import opened Letters
  import opened Services

  const MARKER: String := "**Original Comment:**"
  const SEP: String := "\n\n"

  /** `LANGUAGE_NAMES.get(lang, lang.capitalize())`. */
  function LanguageName(lang: String): String {
    if lang == "ja" then "日本語"
    else if lang == "fr" then "Français"
    else if lang == "en" then "English"
    else Capitalize(lang)
  }

  // ---------------------------------------------------------------------
  // get_original_content
  // ---------------------------------------------------------------------

  /**
   * For a marker `m`: with `m` in the text, the stripped text between its first and its
   * second occurrence (`split` has no `maxsplit`); without it, the stripped text.
   */
  function AfterMarker(content: String, m: String): (r: String)
    requires m != []
    ensures Stripped(r)
  {
    if Contains(content, m) then Strip(Split(content, m)[1]) else Strip(content)
  }

  /** `content.split(m)[0].strip()`: the stripped text before the first `m`. */
  function BeforeMarker(content: String, m: String): (r: String)
    requires m != []
    ensures Stripped(r)
  {
    Strip(Split(content, m)[0])
  }

  /** `get_original_content`. */
  function GetOriginalContent(content: String): (r: String)
    ensures Stripped(r)
  {
    AfterMarker(content, MARKER)
  }

  /** The text before the marker, as `translate_comment` takes it. */
  function TextBeforeMarker(content: String): (r: String)
    ensures Stripped(r)
  {
    BeforeMarker(content, MARKER)
  }

  /**
   * A text holding exactly one marker, with no other marker in `a` or across the seam
   * from `a` into it: what precedes the marker and what follows it are read back, each
   * stripped.
   */
  lemma ReadAroundMarker(a: String, m: String, b: String)
    requires m != [] && !Contains(a + m[..|m| - 1], m) && !Contains(b, m)
    ensures Contains(a + m + b, m)
    ensures AfterMarker(a + m + b, m) == Strip(b)
    ensures BeforeMarker(a + m + b, m) == Strip(a)
  {
    SplitAtFirst(a, m, b);
    SplitWithoutSep(b, m);
    assert IsAt(a + m + b, m, |a|);
  }

  /**
   * With a second marker in the text, what follows the first one is read only up to
   * the second one: the rest of the text is ignored.
   */
  lemma ReadBetweenMarkers(a: String, m: String, b: String, c: String)
    requires m != [] && !Contains(a + m[..|m| - 1], m) && !Contains(b + m[..|m| - 1], m)
    ensures AfterMarker(a + m + (b + m + c), m) == Strip(b)
  {
    var s := a + m + (b + m + c);
    SplitAtFirst(a, m, b + m + c);
    SplitAtFirst(b, m, c);
    assert IsAt(s, m, |a|);
    assert Split(s, m)[1] == b;
  }

  // ---------------------------------------------------------------------
  // detect_language
  // ---------------------------------------------------------------------

  predicate NonAscii(c: char) {
    c as int > 128
  }

  /** `any(ord(char) > 128 for char in text)`. */
  function HasNonAscii(s: String): (b: bool)
    ensures b <==> exists k :: 0 <= k < |s| && NonAscii(s[k])
  {
    if s == [] then false
    else if NonAscii(s[0]) then true
    else
      var rest := HasNonAscii(s[1..]);
      assert rest ==> exists k :: 0 <= k < |s| && NonAscii(s[k]) by {
        if rest {
          var k :| 0 <= k < |s| - 1 && NonAscii(s[1..][k]);
          assert NonAscii(s[k + 1]);
        }
      }
      assert !rest ==> forall k :: 0 <= k < |s| ==> !NonAscii(s[k]) by {
        if !rest {
          forall k | 0 <= k < |s| ensures !NonAscii(s[k]) {
            if k > 0 { assert s[k] == s[1..][k - 1]; }
          }
        }
      }
      rest
  }

  /** `detect_language`: any character past U+0080 makes the text Japanese. */
  function DetectLanguage(s: String): (lang: String)
    ensures lang == "ja" || lang == "en"
  {
    if HasNonAscii(s) then "ja" else "en"
  }

  /**
   * The test is a disjunction over the characters: text is Japanese exactly when one of
   * its parts is, so an accented Latin letter anywhere is enough.
   */
  lemma DetectAppend(a: String, b: String)
    ensures DetectLanguage(a + b) == "ja" <==> DetectLanguage(a) == "ja" || DetectLanguage(b) == "ja"
  {
    var s := a + b;
    if HasNonAscii(a) {
      var k :| 0 <= k < |a| && NonAscii(a[k]);
      assert s[k] == a[k];
    } else if HasNonAscii(b) {
      var k :| 0 <= k < |b| && NonAscii(b[k]);
      assert s[|a| + k] == b[k];
    } else {
      forall k | 0 <= k < |s| ensures !NonAscii(s[k]) {
        if k < |a| { assert s[k] == a[k]; } else { assert s[k] == b[k - |a|]; }
      }
    }
  }

  // ---------------------------------------------------------------------
  // translate_content
  // ---------------------------------------------------------------------

  /** The target languages: Japanese and French for English, English for anything else. */
  function Targets(lang: String): (targets: seq<String>)
    ensures lang !in targets
    ensures forall i, j :: 0 <= i < j < |targets| ==> targets[i] != targets[j]
  {
    if lang == "en" then ["ja", "fr"] else ["en"]
  }

  /** The dict `translate_content` returns: it starts empty. */
  function CommentTranslations(content: String, lang: String, answer: (String, String) -> Option<String>): seq<Entry> {
    Gather([], content, Targets(lang), answer)
  }

  /**
   * The keys are the targets the service answered with a non-empty text, in target
   * order, each with that text; the source language is never a key.
   */
  lemma CommentTranslationsShape(content: String, lang: String, answer: (String, String) -> Option<String>)
    ensures Keys(CommentTranslations(content, lang, answer)) == Answered(content, Targets(lang), answer)
    ensures forall l :: l in Targets(lang) && Truthy(answer(content, l)) ==>
              Get(CommentTranslations(content, lang, answer), l) == answer(content, l)
    ensures forall e :: e in CommentTranslations(content, lang, answer) ==>
              e.lang in Targets(lang) && e.lang != lang && answer(content, e.lang) == Some(e.text) && e.text != []
  {
    GatherFresh([], content, Targets(lang), answer);
    assert Keys([]) == [];
    assert Keys([]) + Answered(content, Targets(lang), answer) == Answered(content, Targets(lang), answer);
    GatherEntries(content, Targets(lang), answer);
  }

  method TranslateContent(content: String, lang: String, oracle: Translator) returns (d: seq<Entry>)
    modifies oracle
    ensures d == CommentTranslations(content, lang, oracle.answer)
    ensures oracle.requests == old(oracle.requests) + Requests(content, Targets(lang))
  {
    d := [];
    var targets := Targets(lang);
    for i := 0 to |targets|
      invariant d == Gather([], content, targets[..i], oracle.answer)
      invariant oracle.requests == old(oracle.requests) + Requests(content, targets[..i])
    {
      var translation := oracle.Translate(content, targets[i]);
      if Truthy(translation) {
        d := Put(d, targets[i], translation.value);
      }
      assert targets[..i + 1][..i] == targets[..i];
      assert Requests(content, targets[..i + 1]) == Requests(content, targets[..i]) + [Request(content, targets[i])];
    }
    assert targets[..|targets|] == targets;
  }

  // ---------------------------------------------------------------------
  // format_translations
  // ---------------------------------------------------------------------

  function DetailsBlock(name: String, t: String): String {
    "<details>\n<summary>" + name + "</summary>\n\n" + t + "\n</details>"
  }

  /** The `<details>` block of one entry, under the language's display name. */
  function Block(e: Entry): String {
    DetailsBlock(LanguageName(e.lang), e.text)
  }

  /** One `<details>` block per entry, in dict order. */
  function DetailsParts(translations: seq<Entry>): (parts: seq<String>)
    ensures |parts| == |translations|
    ensures forall k :: 0 <= k < |parts| ==> parts[k] == Block(translations[k])
  {
    if translations == [] then []
    else
      var init := translations[..|translations| - 1];
      var parts := DetailsParts(init) + [Block(translations[|translations| - 1])];
      assert forall k :: 0 <= k < |parts| ==> parts[k] == Block(translations[k]) by {
        forall k | 0 <= k < |parts|
          ensures parts[k] == Block(translations[k])
        {
          if k < |init| {
            assert parts[k] == DetailsParts(init)[k] && init[k] == translations[k];
          }
        }
      }
      parts
  }

  /** The text `format_translations` returns: the blocks, then the marker and the original. */
  function FormatComment(translations: seq<Entry>, o: String): String {
    Join(DetailsParts(translations), SEP) + (SEP + (MARKER + (SEP + o)))
  }

  method FormatTranslations(translations: seq<Entry>, o: String) returns (r: String)
    ensures r == FormatComment(translations, o)
  {
    var parts: seq<String> := [];
    for i := 0 to |translations|
      invariant parts == DetailsParts(translations[..i])
    {
      parts := parts + [Block(translations[i])];
      assert translations[..i + 1][..i] == translations[..i];
    }
    assert translations[..|translations|] == translations;
    r := Join(parts, "\n\n") + ("\n\n" + (MARKER + ("\n\n" + o)));
  }

  lemma ShortNoMarker(s: String)
    requires |s| < |MARKER|
    ensures !Contains(s, MARKER)
  {
  }

  /** The characters around the pieces of a block are all foreign to the marker. */
  lemma MarkerChars()
    ensures '<' !in MARKER && '>' !in MARKER && '\n' !in MARKER
  {
  }

  lemma DetailsBlockNoMarker(name: String, t: String)
    requires !Contains(name, MARKER) && !Contains(t, MARKER)
    ensures !Contains(DetailsBlock(name, t), MARKER)
  {
    var a, b, c := "<details>\n<summary>", "</summary>\n\n", "\n</details>";
    var x := a + name;
    assert !Contains(x, MARKER) by {
      MarkerChars();
      ShortNoMarker(a);
      AfterForeignChar(a, name, MARKER);
    }
    assert !Contains(x + b, MARKER) by {
      MarkerChars();
      ShortNoMarker(b);
      BeforeForeignChar(x, b, MARKER);
    }
    assert !Contains(x + b + t, MARKER) by {
      MarkerChars();
      AfterForeignChar(x + b, t, MARKER);
    }
    assert !Contains(x + b + t + c, MARKER) by {
      MarkerChars();
      ShortNoMarker(c);
      BeforeForeignChar(x + b + t, c, MARKER);
    }
  }

  /** The blocks hold no marker when neither the names nor the translations do. */
  lemma JoinedBlocksNoMarker(translations: seq<Entry>)
    requires forall e :: e in translations ==> !Contains(e.text, MARKER) && !Contains(LanguageName(e.lang), MARKER)
    ensures !Contains(Join(DetailsParts(translations), SEP), MARKER)
  {
    var parts := DetailsParts(translations);
    forall k | 0 <= k < |parts| ensures !Contains(parts[k], MARKER) {
      assert translations[k] in translations;
      DetailsBlockNoMarker(LanguageName(translations[k].lang), translations[k].text);
      assert parts[k] == Block(translations[k]);
    }
    MarkerChars();
    ShortNoMarker(SEP);
    JoinNoOccurrence(parts, SEP, MARKER);
  }

  /** Joined blocks start with `<` and end with `>`, so they are already stripped. */
  lemma {:induction false} JoinedBlocksEnds(translations: seq<Entry>)
    requires translations != []
    ensures var j := Join(DetailsParts(translations), SEP); j != [] && j[0] == '<' && j[|j| - 1] == '>'
    decreases |translations|
  {
    var parts := DetailsParts(translations);
    var init := translations[..|translations| - 1];
    var last := parts[|parts| - 1];
    assert last[|last| - 1] == '>';
    assert parts == DetailsParts(init) + [last];
    JoinSnoc(DetailsParts(init), last, SEP);
    if init != [] {
      JoinedBlocksEnds(init);
    }
  }

  /**
   * What the next run reads back from a formatted comment: the text before the marker
   * is the blocks, the text after it is the stripped original.
   */
  lemma FormatCommentParts(translations: seq<Entry>, o: String)
    requires forall e :: e in translations ==> !Contains(e.text, MARKER) && !Contains(LanguageName(e.lang), MARKER)
    requires !Contains(o, MARKER)
    ensures Contains(FormatComment(translations, o), MARKER)
    ensures GetOriginalContent(FormatComment(translations, o)) == Strip(o)
    ensures TextBeforeMarker(FormatComment(translations, o)) == Strip(Join(DetailsParts(translations), SEP))
  {
    var j := Join(DetailsParts(translations), SEP);
    BlocksNoMarker(translations);
    SepNoMarker(o);
    SepIsSpace();
    ForeignEndSeam(j + SEP, MARKER);
    ReadFormatted(j, SEP, MARKER, o);
  }

  /** The layout of a formatted comment, for any separator `w` of whitespace and any marker `m`. */
  lemma ReadFormatted(j: String, w: String, m: String, o: String)
    requires m != [] && AllSpace(w)
    requires !Contains(j + w + m[..|m| - 1], m) && !Contains(w + o, m)
    ensures Contains(j + (w + (m + (w + o))), m)
    ensures AfterMarker(j + (w + (m + (w + o))), m) == Strip(o)
    ensures BeforeMarker(j + (w + (m + (w + o))), m) == Strip(j)
  {
    var a, b := j + w, w + o;
    Assoc(j, w, m + b);
    Assoc(a, m, b);
    ReadAroundMarker(a, m, b);
    StripAfterSpace(w, o);
    StripBeforeSpace(j, w);
  }

  lemma SepIsSpace()
    ensures AllSpace(SEP)
  {
  }

  /** The blocks and the blank line after them hold no marker and end with a line end. */
  lemma BlocksNoMarker(translations: seq<Entry>)
    requires forall e :: e in translations ==> !Contains(e.text, MARKER) && !Contains(LanguageName(e.lang), MARKER)
    ensures var a := Join(DetailsParts(translations), SEP) + SEP;
      !Contains(a, MARKER) && a[|a| - 1] !in MARKER
  {
    var j := Join(DetailsParts(translations), SEP);
    JoinedBlocksNoMarker(translations);
    MarkerChars();
    ShortNoMarker(SEP);
    BeforeForeignChar(j, SEP, MARKER);
    assert (j + SEP)[|j + SEP| - 1] == '\n';
  }

  /** A blank line and then a text without the marker hold no marker. */
  lemma SepNoMarker(o: String)
    requires !Contains(o, MARKER)
    ensures !Contains(SEP + o, MARKER)
  {
    MarkerChars();
    ShortNoMarker(SEP);
    AfterForeignChar(SEP, o, MARKER);
  }

  // ---------------------------------------------------------------------
  // should_retranslate
  // ---------------------------------------------------------------------

  /** `s.strip().replace('\r\n', '\n')`. */
  function Normalize(s: String): String {
    CrlfToLf(Strip(s))
  }

  /** `should_retranslate`: the two texts differ after normalisation. */
  predicate ShouldRetranslate(current: String, stored: String)
    ensures ShouldRetranslate(current, stored) ==> Strip(current) != Strip(stored)
  {
    Normalize(current) != Normalize(stored)
  }

  /**
   * The test never fires on equal texts, does not depend on the order of its
   * arguments, and ignores whitespace around either text.
   */
  lemma ShouldRetranslateLaws(a: String, b: String, w1: String, w2: String)
    requires AllSpace(w1) && AllSpace(w2)
    ensures !ShouldRetranslate(a, a)
    ensures ShouldRetranslate(a, b) == ShouldRetranslate(b, a)
    ensures ShouldRetranslate(w1 + a + w2, b) == ShouldRetranslate(a, b)
  {
    StripIgnoresSurroundingSpace(w1, a, w2);
  }

  /** Writing the line ends of a text as CR LF instead of LF does not make it differ. */
  lemma ShouldRetranslateIgnoresCrlf(a: String, b: String)
    requires '\r' !in a
    ensures ShouldRetranslate(LfToCrlf(a), b) == ShouldRetranslate(a, b)
  {
    assert Normalize(LfToCrlf(a)) == Strip(a) by {
      CrlfToLfStrip(LfToCrlf(a));
      CrlfToLfUndoesLfToCrlf(a);
    }
    assert Normalize(a) == Strip(a) by {
      CrlfToLfStrip(a);
      CrlfToLfNoCr(a);
    }
  }

  // ---------------------------------------------------------------------
  // translate_comment
  // ---------------------------------------------------------------------

  /**
   * The text `translate_comment` translates from, or `None` when the comment carries the
   * marker and the text before it matches the one after it.
   */
  function CommentSource(body: String): Option<String> {
    var current := Strip(body);
    if Contains(current, MARKER) then
      var stored := GetOriginalContent(current);
      var currentOriginal := TextBeforeMarker(current);
      if !ShouldRetranslate(currentOriginal, stored) then None else Some(currentOriginal)
    else Some(current)
  }

  /**
   * The text chosen for translation never holds the marker: it is the stripped body
   * when that has none, or the stripped text before the first marker.
   */
  lemma CommentSourceNoMarker(body: String)
    requires CommentSource(body).Some?
    ensures !Contains(CommentSource(body).value, MARKER)
  {
    var current := Strip(body);
    if Contains(current, MARKER) {
      StripNoOccurrence(Split(current, MARKER)[0], MARKER);
    }
  }

  /**
   * The new body `translate_comment` writes, or `None` when the body is empty, the skip
   * rule fires, or the service answered no target.
   */
  function CommentUpdate(body: String, answer: (String, String) -> Option<String>): Option<String> {
    if body == [] then None
    else
      match CommentSource(body)
      case None => None
      case Some(o) =>
        var translations := CommentTranslations(o, DetectLanguage(o), answer);
        if translations == [] then None else Some(FormatComment(translations, o))
  }

  /** The oracle requests `translate_comment` makes. */
  function CommentRequests(body: String): seq<Request> {
    if body == [] then []
    else
      match CommentSource(body)
      case None => []
      case Some(o) => Requests(o, Targets(DetectLanguage(o)))
  }

  /** Without a source text, nothing is written and nothing is asked. */
  lemma NoSourceUpdate(body: String, answer: (String, String) -> Option<String>)
    requires body == [] || CommentSource(body) == None
    ensures CommentUpdate(body, answer) == None && CommentRequests(body) == []
  {
  }

  /** Once the source text is known, the update and the requests follow from it alone. */
  lemma SourceUpdate(body: String, o: String, answer: (String, String) -> Option<String>)
    requires body != [] && CommentSource(body) == Some(o)
    ensures var translations := CommentTranslations(o, DetectLanguage(o), answer);
      CommentUpdate(body, answer) == if translations == [] then None else Some(FormatComment(translations, o))
    ensures CommentRequests(body) == Requests(o, Targets(DetectLanguage(o)))
  {
  }

  method TranslateComment(comment: Comment, oracle: Translator) returns (edited: bool)
    modifies comment, oracle
    ensures var u := CommentUpdate(old(comment.body), oracle.answer);
      edited == u.Some? && comment.body == (if edited then u.value else old(comment.body))
    ensures comment.edits == old(comment.edits) + (if edited then [comment.body] else [])
    ensures oracle.requests == old(oracle.requests) + CommentRequests(old(comment.body))
  {
    ghost var body := comment.body;
    if comment.body == [] {
      NoSourceUpdate(body, oracle.answer);
      return false;
    }
    var current := Strip(comment.body);
    var original;
    if Contains(current, MARKER) {
      var stored := GetOriginalContent(current);
      var currentOriginal := Strip(Split(current, MARKER)[0]);
      if !ShouldRetranslate(currentOriginal, stored) {
        assert CommentSource(body) == None;
        NoSourceUpdate(body, oracle.answer);
        return false;
      }
      original := currentOriginal;
    } else {
      original := current;
    }
    assert CommentSource(body) == Some(original);
    SourceUpdate(body, original, oracle.answer);
    var lang := DetectLanguage(original);
    var translations := TranslateContent(original, lang, oracle);
    if translations != [] {
      var updated := FormatTranslations(translations, original);
      comment.Edit(updated);
      edited := true;
    } else {
      edited := false;
    }
  }

  /** The service never answers with the marker. */
  ghost predicate AnswersFree(answer: (String, String) -> Option<String>) {
    forall x, l :: answer(x, l).Some? ==> !Contains(answer(x, l).value, MARKER)
  }

  lemma NamesNoMarker(lang: String)
    ensures forall l :: l in Targets(lang) ==> !Contains(LanguageName(l), MARKER)
  {
    ShortNoMarker("日本語");
    ShortNoMarker("Français");
    ShortNoMarker("English");
  }

  /**
   * The original written into a comment is what the next run reads back after the
   * marker, when the service's answers do not hold the marker.
   */
  lemma CommentRoundTrip(body: String, answer: (String, String) -> Option<String>)
    requires CommentUpdate(body, answer).Some?
    requires AnswersFree(answer)
    ensures GetOriginalContent(CommentUpdate(body, answer).value) == CommentSource(body).value
  {
    var o := CommentSource(body).value;
    CommentSourceNoMarker(body);
    var translations := CommentTranslations(o, DetectLanguage(o), answer);
    CommentTranslationsShape(o, DetectLanguage(o), answer);
    NamesNoMarker(DetectLanguage(o));
    FormatCommentParts(translations, o);
    StrippedFixed(o);
  }

  /**
   * On the body a first run wrote, the next run compares the blocks of translations
   * before the marker with the original after it: when the original does not itself
   * start with `<`, they differ, and the blocks become the text translated next.
   */
  lemma SecondRunTranslatesBlocks(translations: seq<Entry>, o: String)
    requires translations != []
    requires forall e :: e in translations ==> !Contains(e.text, MARKER) && !Contains(LanguageName(e.lang), MARKER)
    requires o != [] && Stripped(o) && !Contains(o, MARKER) && o[0] != '<'
    ensures CommentSource(FormatComment(translations, o)) == Some(Join(DetailsParts(translations), SEP))
  {
    var f := FormatComment(translations, o);
    var j := Join(DetailsParts(translations), SEP);
    FormatCommentFixed(translations, o);
    FormatCommentReadBack(translations, o);
    BlocksDifferFromOriginal(translations, o);
    SourceOfMarked(f, j, o);
  }

  /** The skip rule on a stripped body with the marker: the text before it, unless it matches. */
  lemma SourceOfMarked(c: String, j: String, o: String)
    requires Strip(c) == c && Contains(c, MARKER)
    requires GetOriginalContent(c) == o && TextBeforeMarker(c) == j && ShouldRetranslate(j, o)
    ensures CommentSource(c) == Some(j)
  {
  }

  lemma FormatCommentFixed(translations: seq<Entry>, o: String)
    requires translations != [] && o != [] && Stripped(o)
    ensures Strip(FormatComment(translations, o)) == FormatComment(translations, o)
  {
    FormatCommentStripped(translations, o);
    StrippedFixed(FormatComment(translations, o));
  }

  lemma FormatCommentReadBack(translations: seq<Entry>, o: String)
    requires translations != []
    requires forall e :: e in translations ==> !Contains(e.text, MARKER) && !Contains(LanguageName(e.lang), MARKER)
    requires Stripped(o) && !Contains(o, MARKER)
    ensures var f := FormatComment(translations, o);
      Contains(f, MARKER) && GetOriginalContent(f) == o &&
      TextBeforeMarker(f) == Join(DetailsParts(translations), SEP)
  {
    var j := Join(DetailsParts(translations), SEP);
    assert Stripped(j) by {
      JoinedBlocksEnds(translations);
    }
    StrippedFixed(j);
    StrippedFixed(o);
    FormatCommentParts(translations, o);
  }

  lemma BlocksDifferFromOriginal(translations: seq<Entry>, o: String)
    requires translations != [] && o != [] && Stripped(o) && o[0] != '<'
    ensures ShouldRetranslate(Join(DetailsParts(translations), SEP), o)
  {
    JoinedBlocksEnds(translations);
    NormalizedDiffer(Join(DetailsParts(translations), SEP), o);
  }

  /** A formatted comment with a non-empty stripped original is itself stripped. */
  lemma FormatCommentStripped(translations: seq<Entry>, o: String)
    requires translations != [] && o != [] && Stripped(o)
    ensures Stripped(FormatComment(translations, o))
  {
    var j := Join(DetailsParts(translations), SEP);
    JoinedBlocksEnds(translations);
    var t := SEP + (MARKER + (SEP + o));
    var f := FormatComment(translations, o);
    assert f[0] == j[0];
    assert t[|t| - 1] == o[|o| - 1];
    assert f[|f| - 1] == t[|t| - 1];
  }

  /** Texts that start differently stay different after normalisation. */
  lemma NormalizedDiffer(j: String, o: String)
    requires j != [] && Stripped(j) && o != [] && Stripped(o) && j[0] != o[0]
    ensures Normalize(j) != Normalize(o)
  {
    StrippedFixed(j);
    StrippedFixed(o);
    assert CrlfToLf(j)[0] == j[0];
    assert CrlfToLf(o)[0] == o[0];
  }
}
