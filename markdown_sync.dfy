// The post-commit hook: every original Markdown file of the working tree gets one
// translated sibling per target language (`README.md` -> `README.ja.md`), written
// whenever the sibling is missing or its lines differ from the original's.

module MarkdownSync {
  import opened Strings
  import opened Services

  const TARGET_LANGUAGES: seq<String> := ["ja", "fr"]

  // ---------------------------------------------------------------------
  // Paths (pathlib, Python 3.12, on normalised POSIX paths)
  // ---------------------------------------------------------------------

  /** Where the last component starts: just after the last `/`, or 0. */
  function NameStart(p: String): (i: nat)
    ensures i <= |p| && '/' !in p[i..]
    ensures i > 0 ==> p[i - 1] == '/'
  {
    if p == [] then 0
    else if p[|p| - 1] == '/' then |p|
    else
      var i := NameStart(p[..|p| - 1]);
      assert p[i..] == p[..|p| - 1][i..] + [p[|p| - 1]];
      i
  }

  /** `Path(p).name`. */
  function Name(p: String): (n: String)
    ensures '/' !in n && EndsWith(p, n)
  {
    p[NameStart(p)..]
  }

  /** `s.rfind(c)`: the last index holding `c`. */
  function RFind(s: String, c: char): (r: Option<nat>)
    ensures r.None? ==> forall k :: 0 <= k < |s| ==> s[k] != c
    ensures r.Some? ==> r.value < |s| && s[r.value] == c && forall k :: r.value < k < |s| ==> s[k] != c
  {
    if s == [] then None
    else if s[|s| - 1] == c then Some(|s| - 1)
    else RFind(s[..|s| - 1], c)
  }

  /**
   * `PurePath.suffix` of a name: from its last `.` on, unless that dot is the first
   * character or the last one.
   */
  function Suffix(name: String): (r: String)
    ensures r == [] || (EndsWith(name, r) && r[0] == '.' && |r| >= 2 && |r| < |name|)
  {
    match RFind(name, '.')
    case None => []
    case Some(i) => if 0 < i < |name| - 1 then name[i..] else []
  }

  /**
   * `Path(p).with_suffix(suffix)`: the last suffix of the name replaced (or the suffix
   * appended when there is none); `None` where pathlib raises `ValueError`: a suffix
   * with a `/`, one that is non-empty without a leading dot or is only a dot, or an
   * empty name.
   */
  function WithSuffix(p: String, suffix: String): (r: Option<String>)
    ensures r.Some? <==> '/' !in suffix && (suffix == [] || (suffix[0] == '.' && suffix != ".")) && Name(p) != []
    ensures r.Some? ==> r.value == p[..|p| - |Suffix(Name(p))|] + suffix
  {
    var n := Name(p);
    assert p[..NameStart(p)] + n[..|n| - |Suffix(n)|] == p[..|p| - |Suffix(n)|];
    if '/' in suffix || (suffix != [] && suffix[0] != '.') || suffix == "." then None
    else
      var n := Name(p);
      if n == [] then None
      else Some(p[..NameStart(p)] + n[..|n| - |Suffix(n)|] + suffix)
  }

  /** The suffix of the translation into `lang`: `.{lang}.md`. */
  function LangSuffix(lang: String): String {
    "." + lang + ".md"
  }

  /** `Path(p).with_suffix(f'.{lang}.md')`. */
  function TranslatedPath(p: String, lang: String): (r: Option<String>)
    ensures r.Some? <==> Name(p) != [] && '/' !in lang
    ensures r.Some? ==> r.value == p[..|p| - |Suffix(Name(p))|] + LangSuffix(lang)
  {
    var suffix := LangSuffix(lang);
    assert suffix == "." + (lang + ".md") && suffix != ".";
    assert '/' in suffix <==> '/' in lang;
    WithSuffix(p, suffix)
  }

  /** `is_original_markdown`. */
  predicate IsOriginalMarkdown(p: String)
    ensures IsOriginalMarkdown(p) ==> EndsWith(Name(p), ".md") && |Name(p)| > 3
  {
    Suffix(Name(p)) == ".md"
    && forall k :: 0 <= k < |TARGET_LANGUAGES| ==> !EndsWith(Name(p), LangSuffix(TARGET_LANGUAGES[k]))
  }

  // ---------------------------------------------------------------------
  // Path lemmas
  // ---------------------------------------------------------------------

  /** A name ending in `.md` has `.md` as its suffix exactly when something precedes it. */
  lemma SuffixOfMd(n: String)
    requires EndsWith(n, ".md") && |n| > 3
    ensures Suffix(n) == ".md"
  {
    var i := |n| - 3;
    assert n[i..] == ".md";
    assert n[i] == '.' && '.' !in n[i + 1..];
  }

  /** A path whose name has the suffix `.md` ends in `.md`, after at least one character. */
  lemma MarkdownPath(p: String)
    requires Suffix(Name(p)) == ".md"
    ensures |p| > 3 && p == p[..|p| - 3] + ".md"
  {
    var n := Name(p);
    assert EndsWith(n, ".md") && |n| > 3;
    assert p[|p| - 3..] == n[|n| - 3..];
  }

  /** A path is its directory part followed by its name. */
  lemma NameOfAppended(dir: String, n: String)
    requires dir == [] || dir[|dir| - 1] == '/'
    requires '/' !in n
    ensures NameStart(dir + n) == |dir| && Name(dir + n) == n
    decreases |n|
  {
    if n == [] {
      assert dir + n == dir;
    } else {
      NameOfAppended(dir, n[..|n| - 1]);
      assert (dir + n)[..|dir + n| - 1] == dir + n[..|n| - 1];
      assert (dir + n)[|dir + n| - 1] == n[|n| - 1];
    }
  }

  /**
   * The translated path of a file named `<stem>.md` is `<stem>.<lang>.md` in the same
   * directory: `README.md` becomes `README.<lang>.md`.
   */
  lemma TranslatedPathOfMarkdown(p: String, lang: String)
    requires Suffix(Name(p)) == ".md" && '/' !in lang
    ensures TranslatedPath(p, lang) == Some(p[..|p| - 3] + LangSuffix(lang))
    ensures Name(TranslatedPath(p, lang).value) == Name(p)[..|Name(p)| - 3] + LangSuffix(lang)
  {
    var n, i := Name(p), NameStart(p);
    var suffix := LangSuffix(lang);
    assert '/' !in suffix by {
      assert suffix == "." + (lang + ".md");
    }
    assert p[..i] + n[..|n| - 3] == p[..|p| - 3];
    var dir := p[..i];
    assert dir == [] || dir[|dir| - 1] == '/';
    assert '/' !in n[..|n| - 3] + suffix by {
      assert forall c :: c in n[..|n| - 3] ==> c in n;
    }
    NameOfAppended(dir, n[..|n| - 3] + suffix);
    Assoc(dir, n[..|n| - 3], suffix);
  }

  /**
   * A translation is never taken for an original: the hook does not feed the files it
   * writes back to itself as sources.
   */
  lemma DerivedNotOriginal(p: String, lang: String)
    requires IsOriginalMarkdown(p) && lang in TARGET_LANGUAGES
    ensures TranslatedPath(p, lang).Some? && !IsOriginalMarkdown(TranslatedPath(p, lang).value)
  {
    TranslatedPathOfMarkdown(p, lang);
    var n := Name(TranslatedPath(p, lang).value);
    var k :| 0 <= k < |TARGET_LANGUAGES| && TARGET_LANGUAGES[k] == lang;
    assert EndsWith(n, LangSuffix(lang));
  }

  /** Text ending in a dot and a dot-free part determines both the text before and the part. */
  lemma DotSplitUnique(a: String, l: String, b: String, m: String)
    requires '.' !in l && '.' !in m && a + "." + l == b + "." + m
    ensures a == b && l == m
  {
    var s := a + "." + l;
    assert s[|a|] == '.' && s[|b|] == '.';
    assert |l| == |m|;
    assert a == s[..|a|] && b == s[..|b|];
    assert l == s[|a| + 1..] && m == s[|b| + 1..];
  }

  lemma DropMd(a: String, l: String)
    ensures var q := a + LangSuffix(l); |q| >= 3 && q[..|q| - 3] == a + "." + l
  {
  }

  /**
   * Different originals or different languages give different translated paths, so no
   * write of the hook overwrites another one.
   */
  lemma TranslatedPathInjective(p1: String, l1: String, p2: String, l2: String)
    requires Suffix(Name(p1)) == ".md" && Suffix(Name(p2)) == ".md"
    requires '/' !in l1 && '/' !in l2 && '.' !in l1 && '.' !in l2
    requires TranslatedPath(p1, l1) == TranslatedPath(p2, l2)
    ensures p1 == p2 && l1 == l2
  {
    var a, b := p1[..|p1| - 3], p2[..|p2| - 3];
    assert TranslatedPath(p1, l1) == Some(a + LangSuffix(l1)) by {
      TranslatedPathOfMarkdown(p1, l1);
    }
    assert TranslatedPath(p2, l2) == Some(b + LangSuffix(l2)) by {
      TranslatedPathOfMarkdown(p2, l2);
    }
    DropMd(a, l1);
    DropMd(b, l2);
    DotSplitUnique(a, l1, b, l2);
    MarkdownPath(p1);
    MarkdownPath(p2);
  }

  // ---------------------------------------------------------------------
  // sync_translations
  // ---------------------------------------------------------------------

  /**
   * `needs_translation`: no translated file yet, or `unified_diff` of the two line lists
   * is non-empty, that is, the lines differ.
   */
  predicate NeedsTranslation(files: map<String, String>, q: String, content: String)
    ensures q !in files ==> NeedsTranslation(files, q, content)
    ensures q in files && files[q] == content ==> !NeedsTranslation(files, q, content)
  {
    q !in files || LinesDiffer(files[q], content)
  }

  /** `bool(unified_diff(existing.splitlines(), content.splitlines()))`: the line lists differ. */
  predicate LinesDiffer(existing: String, content: String) {
    SplitLines(existing) != SplitLines(content)
  }

  /** The state of the working tree during a sync, and what was written and asked so far. */
  datatype SyncState = SyncState(files: map<String, String>, writes: seq<FileWrite>,
                                 requests: seq<Request>, failed: bool)

  /** One turn of the language loop. */
  function SyncStep(s: SyncState, p: String, content: String, lang: String,
                    answer: (String, String) -> Option<String>): SyncState
  {
    match TranslatedPath(p, lang)
    case None => s.(failed := true)
    case Some(q) => TranslateInto(s, q, content, lang, answer)
  }

  /** The turn for `lang` once its translated path `q` is known. */
  function TranslateInto(s: SyncState, q: String, content: String, lang: String,
                         answer: (String, String) -> Option<String>): SyncState
  {
    if !NeedsTranslation(s.files, q, content) then s
    else
      var r := answer(content, lang);
      var asked := s.(requests := s.requests + [Request(content, lang)]);
      if Truthy(r) then asked.(files := s.files[q := r.value], writes := s.writes + [FileWrite(q, r.value)])
      else asked
  }

  /** The loop over `targets`, in order; a raised exception ends it. */
  function SyncLoop(files: map<String, String>, p: String, content: String, targets: seq<String>,
                    answer: (String, String) -> Option<String>): SyncState
  {
    if targets == [] then SyncState(files, [], [], false)
    else
      var s := SyncLoop(files, p, content, targets[..|targets| - 1], answer);
      if s.failed then s else SyncStep(s, p, content, targets[|targets| - 1], answer)
  }

  /** `sync_translations(p, targets)`: nothing happens when the original cannot be read. */
  function Sync(files: map<String, String>, p: String, targets: seq<String>,
                answer: (String, String) -> Option<String>): SyncState
  {
    if p !in files then SyncState(files, [], [], true)
    else SyncLoop(files, p, files[p], targets, answer)
  }

  /** Once the loop has raised, the later languages change nothing. */
  lemma {:induction false} SyncLoopFailedStays(files: map<String, String>, p: String, content: String,
                                               targets: seq<String>, k: nat,
                                               answer: (String, String) -> Option<String>)
    requires k <= |targets| && SyncLoop(files, p, content, targets[..k], answer).failed
    ensures SyncLoop(files, p, content, targets, answer) == SyncLoop(files, p, content, targets[..k], answer)
    decreases |targets| - k
  {
    if k < |targets| {
      var s := SyncLoop(files, p, content, targets[..k + 1], answer);
      assert targets[..k + 1][..k] == targets[..k];
      SyncLoopFailedStays(files, p, content, targets, k + 1, answer);
    } else {
      assert targets[..k] == targets;
    }
  }

  method SyncTranslations(store: FileStore, p: String, targets: seq<String>, oracle: Translator)
    modifies store, oracle
    ensures var s := Sync(old(store.files), p, targets, oracle.answer);
      store.files == s.files && store.writes == old(store.writes) + s.writes &&
      oracle.requests == old(oracle.requests) + s.requests
  {
    if p !in store.files {
      return;
    }
    var content := store.files[p];
    ghost var files0, writes0, requests0 := store.files, store.writes, oracle.requests;
    ghost var s := SyncState(files0, [], [], false);
    var i := 0;
    while i < |targets|
      invariant 0 <= i <= |targets| && s == SyncLoop(files0, p, content, targets[..i], oracle.answer)
      invariant !s.failed && store.files == s.files
      invariant store.writes == writes0 + s.writes && oracle.requests == requests0 + s.requests
    {
      var lang := targets[i];
      SyncLoopSnoc(files0, p, content, targets, i, oracle.answer);
      var translated := TranslatedPath(p, lang);
      if translated.None? {
        SyncLoopFailedStays(files0, p, content, targets, i + 1, oracle.answer);
        return;
      }
      var q := translated.value;
      var needs := true;
      if q in store.files {
        var existing := store.files[q];
        needs := LinesDiffer(existing, content);
      }
      if needs {
        var r := oracle.Translate(content, lang);
        LogAppend(requests0, s.requests, Request(content, lang));
        if Truthy(r) {
          store.Write(q, r.value);
          LogAppend(writes0, s.writes, FileWrite(q, r.value));
        }
      }
      s := TranslateInto(s, q, content, lang, oracle.answer);
      i := i + 1;
    }
    assert targets[..i] == targets;
  }

  /** The loop over one more target is one more turn. */
  lemma SyncLoopSnoc(files: map<String, String>, p: String, content: String, targets: seq<String>, i: nat,
                     answer: (String, String) -> Option<String>)
    requires i < |targets| && !SyncLoop(files, p, content, targets[..i], answer).failed
    ensures SyncLoop(files, p, content, targets[..i + 1], answer) ==
      SyncStep(SyncLoop(files, p, content, targets[..i], answer), p, content, targets[i], answer)
  {
    assert targets[..i + 1][..i] == targets[..i];
  }

  lemma LogAppend<T>(before: seq<T>, log: seq<T>, x: T)
    ensures before + log + [x] == before + (log + [x])
  {
  }

  // ---------------------------------------------------------------------
  // What a sync does
  // ---------------------------------------------------------------------

  /** Each target of a Markdown original has a translated path, so the loop never raises. */
  lemma {:induction false} SyncLoopNoFail(files: map<String, String>, p: String, content: String,
                                          targets: seq<String>, answer: (String, String) -> Option<String>)
    requires Suffix(Name(p)) == ".md" && forall l :: l in targets ==> '/' !in l
    ensures !SyncLoop(files, p, content, targets, answer).failed
    decreases |targets|
  {
    if targets != [] {
      var init, lang := targets[..|targets| - 1], targets[|targets| - 1];
      assert targets == init + [lang];
      SyncLoopNoFail(files, p, content, init, answer);
      TranslatedPathOfMarkdown(p, lang);
    }
  }

  /** A file that is the translated path of no target keeps its content, or stays absent. */
  lemma {:induction false} SyncLoopKeeps(files: map<String, String>, p: String, content: String,
                                         targets: seq<String>, answer: (String, String) -> Option<String>,
                                         path: String)
    requires forall l :: l in targets ==> TranslatedPath(p, l) != Some(path)
    ensures var s := SyncLoop(files, p, content, targets, answer);
      (path in s.files <==> path in files) && (path in files ==> s.files[path] == files[path])
    decreases |targets|
  {
    if targets != [] {
      var init, lang := targets[..|targets| - 1], targets[|targets| - 1];
      assert targets == init + [lang];
      SyncLoopKeeps(files, p, content, init, answer, path);
    }
  }

  /** One turn asks the service at most once, and writes at most once, after asking. */
  lemma SyncStepShape(s: SyncState, p: String, content: String, lang: String,
                      answer: (String, String) -> Option<String>)
    ensures var t := SyncStep(s, p, content, lang, answer);
      (t.requests == s.requests && t.writes == s.writes) ||
      (t.requests == s.requests + [Request(content, lang)] &&
       (t.writes == s.writes || exists q :: TranslatedPath(p, lang) == Some(q) && t.writes == s.writes + [FileWrite(q, answer(content, lang).value)]))
  {
  }

  /** Every write goes to the translated path of a target, and follows a request. */
  lemma {:induction false} SyncLoopWrites(files: map<String, String>, p: String, content: String,
                                          targets: seq<String>, answer: (String, String) -> Option<String>)
    ensures var s := SyncLoop(files, p, content, targets, answer);
      |s.writes| <= |s.requests| &&
      forall w :: w in s.writes ==> exists l :: l in targets && TranslatedPath(p, l) == Some(w.path)
    decreases |targets|
  {
    if targets != [] {
      var init, lang := targets[..|targets| - 1], targets[|targets| - 1];
      assert targets == init + [lang];
      SyncLoopWrites(files, p, content, init, answer);
      var s := SyncLoop(files, p, content, init, answer);
      if !s.failed {
        SyncStepShape(s, p, content, lang, answer);
      }
    }
  }

  /** The languages asked for, in order. */
  function Langs(rs: seq<Request>): seq<String> {
    seq(|rs|, k requires 0 <= k < |rs| => rs[k].lang)
  }

  /** `xs` is `ys` with some elements left out, the rest kept in order. */
  predicate Subsequence(xs: seq<String>, ys: seq<String>)
    decreases |ys|
  {
    if xs == [] then true
    else if ys == [] then false
    else (xs[|xs| - 1] == ys[|ys| - 1] && Subsequence(xs[..|xs| - 1], ys[..|ys| - 1]))
         || Subsequence(xs, ys[..|ys| - 1])
  }

  predicate Distinct(xs: seq<String>) {
    forall i, j :: 0 <= i < j < |xs| ==> xs[i] != xs[j]
  }

  /** A subsequence is no longer, and takes only what is there. */
  lemma {:induction false} SubsequenceMembers(xs: seq<String>, ys: seq<String>)
    requires Subsequence(xs, ys)
    ensures |xs| <= |ys| && forall x :: x in xs ==> x in ys
    decreases |ys|
  {
    if xs != [] {
      var ys' := ys[..|ys| - 1];
      assert ys == ys' + [ys[|ys| - 1]];
      if xs[|xs| - 1] == ys[|ys| - 1] && Subsequence(xs[..|xs| - 1], ys') {
        var xs' := xs[..|xs| - 1];
        SubsequenceMembers(xs', ys');
        assert xs == xs' + [ys[|ys| - 1]];
      } else {
        SubsequenceMembers(xs, ys');
      }
    }
  }

  /** A subsequence of distinct elements repeats nothing. */
  lemma {:induction false} SubsequenceDistinct(xs: seq<String>, ys: seq<String>)
    requires Subsequence(xs, ys) && Distinct(ys)
    ensures Distinct(xs)
    decreases |ys|
  {
    if xs != [] {
      var ys' := ys[..|ys| - 1];
      assert Distinct(ys') by {
        forall i, j | 0 <= i < j < |ys'| ensures ys'[i] != ys'[j] {
          assert ys'[i] == ys[i] && ys'[j] == ys[j];
        }
      }
      if xs[|xs| - 1] == ys[|ys| - 1] && Subsequence(xs[..|xs| - 1], ys') {
        var xs' := xs[..|xs| - 1];
        SubsequenceDistinct(xs', ys');
        SubsequenceMembers(xs', ys');
        forall i, j | 0 <= i < j < |xs| ensures xs[i] != xs[j] {
          if j == |xs| - 1 {
            assert xs'[i] == xs[i] && xs[i] in xs';
            assert xs[i] in ys';
            var k :| 0 <= k < |ys'| && ys'[k] == xs[i];
            assert ys[k] == xs[i];
          } else {
            assert xs'[i] == xs[i] && xs'[j] == xs[j];
          }
        }
      } else {
        SubsequenceDistinct(xs, ys');
      }
    }
  }

  /** A turn that asks at most for `lang` keeps the requests a subsequence of the targets so far. */
  lemma RequestsStep(s: SyncState, t: SyncState, content: String, lang: String, init: seq<String>)
    requires (forall r :: r in s.requests ==> r.text == content) && Subsequence(Langs(s.requests), init)
    requires t.requests == s.requests || t.requests == s.requests + [Request(content, lang)]
    ensures (forall r :: r in t.requests ==> r.text == content) && Subsequence(Langs(t.requests), init + [lang])
  {
    var ls := Langs(s.requests);
    assert (init + [lang])[..|init|] == init;
    if t.requests != s.requests {
      assert Langs(t.requests) == ls + [lang];
      assert (ls + [lang])[..|ls|] == ls;
    }
    assert ls == [] || Subsequence(ls, init + [lang]);
  }

  /**
   * The service is asked at most once per target, always for the original's content,
   * and in the order of the targets: the languages asked for are the targets with some
   * left out.
   */
  lemma {:induction false} SyncLoopRequests(files: map<String, String>, p: String, content: String,
                                            targets: seq<String>, answer: (String, String) -> Option<String>)
    ensures var s := SyncLoop(files, p, content, targets, answer);
      (forall r :: r in s.requests ==> r.text == content) && Subsequence(Langs(s.requests), targets)
    decreases |targets|
  {
    if targets != [] {
      var init, lang := targets[..|targets| - 1], targets[|targets| - 1];
      assert targets == init + [lang];
      SyncLoopRequests(files, p, content, init, answer);
      var s := SyncLoop(files, p, content, init, answer);
      if !s.failed {
        SyncStepShape(s, p, content, lang, answer);
        RequestsStep(s, SyncStep(s, p, content, lang, answer), content, lang, init);
      } else {
        RequestsStep(s, s, content, lang, init);
      }
    }
  }

  /** With distinct targets, no language is asked for twice, and there are at most as many requests as targets. */
  lemma SyncLoopAsksOnce(files: map<String, String>, p: String, content: String,
                         targets: seq<String>, answer: (String, String) -> Option<String>)
    ensures var s := SyncLoop(files, p, content, targets, answer);
      |s.requests| <= |targets| && (forall r :: r in s.requests ==> r.lang in targets) &&
      (Distinct(targets) ==> Distinct(Langs(s.requests)))
  {
    var s := SyncLoop(files, p, content, targets, answer);
    SyncLoopRequests(files, p, content, targets, answer);
    SubsequenceMembers(Langs(s.requests), targets);
    if Distinct(targets) {
      SubsequenceDistinct(Langs(s.requests), targets);
    }
    forall r | r in s.requests ensures r.lang in targets {
      var k :| 0 <= k < |s.requests| && s.requests[k] == r;
      assert Langs(s.requests)[k] == r.lang;
    }
  }

  /**
   * What the sync leaves at translated path `q`: the service's answer `r` when a
   * translation was needed and the answer is non-empty, otherwise what was there.
   */
  ghost predicate SyncedAt(before: map<String, String>, after: map<String, String>, q: String,
                           content: String, r: Option<String>)
  {
    if NeedsTranslation(before, q, content) && Truthy(r)
    then q in after && after[q] == r.value
    else (q in after <==> q in before) && (q in before ==> after[q] == before[q])
  }

  /** Distinct languages have distinct translated paths. */
  lemma DistinctPaths(p: String, l1: String, l2: String)
    requires Suffix(Name(p)) == ".md" && l1 != l2
    requires '/' !in l1 && '/' !in l2 && '.' !in l1 && '.' !in l2
    ensures TranslatedPath(p, l1) != TranslatedPath(p, l2)
  {
    if TranslatedPath(p, l1) == TranslatedPath(p, l2) {
      TranslatedPathInjective(p, l1, p, l2);
    }
  }

  /**
   * For distinct target languages of a Markdown original, the translation into each of
   * them is written exactly when it was needed before the sync and the service answered
   * with a non-empty text, and it is that text; the earlier languages' writes do not
   * change the decision for a later one.
   */
  lemma {:induction false} SyncLoopOutcome(files: map<String, String>, p: String, content: String,
                                           targets: seq<String>, answer: (String, String) -> Option<String>,
                                           l: String)
    requires Suffix(Name(p)) == ".md"
    requires forall t :: t in targets ==> '/' !in t && '.' !in t
    requires forall i, j :: 0 <= i < j < |targets| ==> targets[i] != targets[j]
    requires l in targets
    ensures TranslatedPath(p, l).Some?
    ensures SyncedAt(files, SyncLoop(files, p, content, targets, answer).files,
                     TranslatedPath(p, l).value, content, answer(content, l))
    decreases |targets|
  {
    var init, lang := targets[..|targets| - 1], targets[|targets| - 1];
    assert targets == init + [lang];
    assert TranslatedPath(p, l).Some? by {
      TranslatedPathOfMarkdown(p, l);
    }
    var q := TranslatedPath(p, l).value;
    SyncLoopNoFail(files, p, content, init, answer);
    var s := SyncLoop(files, p, content, init, answer);
    assert SyncLoop(files, p, content, targets, answer) == SyncStep(s, p, content, lang, answer);
    if l == lang {
      assert l !in init;
      forall t | t in init
        ensures TranslatedPath(p, t) != Some(q)
      {
        DistinctPaths(p, t, l);
      }
      SyncLoopKeeps(files, p, content, init, answer, q);
      SyncStepHere(s, p, content, lang, answer, q);
    } else {
      assert l in init;
      SyncLoopOutcome(files, p, content, init, answer, l);
      DistinctPaths(p, lang, l);
      SyncStepElsewhere(s, p, content, lang, answer, q);
    }
  }

  /** One turn leaves at its own translated path what `SyncedAt` says. */
  lemma SyncStepHere(s: SyncState, p: String, content: String, lang: String,
                     answer: (String, String) -> Option<String>, q: String)
    requires TranslatedPath(p, lang) == Some(q)
    ensures SyncedAt(s.files, SyncStep(s, p, content, lang, answer).files, q, content, answer(content, lang))
  {
  }

  /** One turn leaves every other path as it was. */
  lemma SyncStepElsewhere(s: SyncState, p: String, content: String, lang: String,
                          answer: (String, String) -> Option<String>, q: String)
    requires TranslatedPath(p, lang) != Some(q)
    ensures var after := SyncStep(s, p, content, lang, answer).files;
      (q in after <==> q in s.files) && (q in s.files ==> after[q] == s.files[q])
  {
    var t := SyncStep(s, p, content, lang, answer);
    var path := TranslatedPath(p, lang);
    if path.Some? {
      assert t.files == s.files || t.files == s.files[path.value := answer(content, lang).value];
    } else {
      assert t.files == s.files;
    }
  }

  /**
   * The hook's own call on an original Markdown file it can read: the loop runs to the
   * end, the original keeps its content, and each target language's translated file
   * ends up as `SyncedAt` says.
   */
  lemma SyncOfOriginal(files: map<String, String>, p: String, answer: (String, String) -> Option<String>)
    requires IsOriginalMarkdown(p) && p in files
    ensures var s := Sync(files, p, TARGET_LANGUAGES, answer);
      !s.failed && p in s.files && s.files[p] == files[p] &&
      forall l :: l in TARGET_LANGUAGES ==>
        TranslatedPath(p, l).Some? &&
        SyncedAt(files, s.files, TranslatedPath(p, l).value, files[p], answer(files[p], l))
  {
    var content := files[p];
    assert forall t :: t in TARGET_LANGUAGES ==> '/' !in t && '.' !in t;
    SyncLoopNoFail(files, p, content, TARGET_LANGUAGES, answer);
    forall l | l in TARGET_LANGUAGES
      ensures TranslatedPath(p, l) != Some(p)
    {
      DerivedNotOriginal(p, l);
    }
    SyncLoopKeeps(files, p, content, TARGET_LANGUAGES, answer, p);
    forall l | l in TARGET_LANGUAGES
      ensures TranslatedPath(p, l).Some?
      ensures SyncedAt(files, SyncLoop(files, p, content, TARGET_LANGUAGES, answer).files,
                       TranslatedPath(p, l).value, content, answer(content, l))
    {
      SyncLoopOutcome(files, p, content, TARGET_LANGUAGES, answer, l);
    }
  }

  /**
   * With distinct targets, the service is asked for language `l` exactly when the
   * translation at `l`'s path was needed before the loop: the other languages' turns
   * write elsewhere and leave that decision as it was.
   */
  lemma {:induction false} SyncLoopAsks(files: map<String, String>, p: String, content: String,
                                        targets: seq<String>, answer: (String, String) -> Option<String>,
                                        l: String)
    requires Suffix(Name(p)) == ".md"
    requires forall t :: t in targets ==> '/' !in t && '.' !in t
    requires forall i, j :: 0 <= i < j < |targets| ==> targets[i] != targets[j]
    requires l in targets
    ensures TranslatedPath(p, l).Some?
    ensures Request(content, l) in SyncLoop(files, p, content, targets, answer).requests <==>
      NeedsTranslation(files, TranslatedPath(p, l).value, content)
    decreases |targets|
  {
    var init, lang := targets[..|targets| - 1], targets[|targets| - 1];
    assert targets == init + [lang];
    TranslatedPathOfMarkdown(p, l);
    var q := TranslatedPath(p, l).value;
    SyncLoopNoFail(files, p, content, init, answer);
    var s := SyncLoop(files, p, content, init, answer);
    assert SyncLoop(files, p, content, targets, answer) == SyncStep(s, p, content, lang, answer);
    if l == lang {
      assert l !in init;
      forall t | t in init
        ensures TranslatedPath(p, t) != Some(q)
      {
        DistinctPaths(p, t, l);
      }
      SyncLoopKeeps(files, p, content, init, answer, q);
      SyncLoopAsksOnce(files, p, content, init, answer);
      AskedHere(files, s, q, content, l, answer);
    } else {
      assert l in init;
      SyncLoopAsks(files, p, content, init, answer, l);
      SyncStepShape(s, p, content, lang, answer);
      AskedElsewhere(s.requests, SyncStep(s, p, content, lang, answer).requests, content, lang, l);
    }
  }

  /** The turn for `l` asks for it when the file at its path, as before the loop, needs it. */
  lemma AskedHere(files: map<String, String>, s: SyncState, q: String, content: String, l: String,
                  answer: (String, String) -> Option<String>)
    requires Request(content, l) !in s.requests
    requires (q in s.files <==> q in files) && (q in files ==> s.files[q] == files[q])
    ensures Request(content, l) in TranslateInto(s, q, content, l, answer).requests <==>
      NeedsTranslation(files, q, content)
  {
  }

  /** A turn for another language neither adds nor removes a request for `l`. */
  lemma AskedElsewhere(rs: seq<Request>, rs': seq<Request>, content: String, lang: String, l: String)
    requires lang != l && (rs' == rs || rs' == rs + [Request(content, lang)])
    ensures Request(content, l) in rs' <==> Request(content, l) in rs
  {
  }

  /**
   * The hook compares an existing translation with the original itself. So when a run
   * has written the service's answer for `l`, the next run over the files it left and
   * the same original asks for `l` again exactly when that answer and the original
   * have different lines, whatever the service answers in the next run.
   */
  lemma NextRunNeeds(files: map<String, String>, p: String, content: String, targets: seq<String>,
                     answer: (String, String) -> Option<String>, next: (String, String) -> Option<String>,
                     l: String)
    requires Suffix(Name(p)) == ".md"
    requires forall t :: t in targets ==> '/' !in t && '.' !in t
    requires forall i, j :: 0 <= i < j < |targets| ==> targets[i] != targets[j]
    requires l in targets && TranslatedPath(p, l).Some?
    requires NeedsTranslation(files, TranslatedPath(p, l).value, content) && Truthy(answer(content, l))
    ensures var first := SyncLoop(files, p, content, targets, answer);
      Request(content, l) in SyncLoop(first.files, p, content, targets, next).requests <==>
      SplitLines(answer(content, l).value) != SplitLines(content)
  {
    var first := SyncLoop(files, p, content, targets, answer);
    SyncLoopOutcome(files, p, content, targets, answer, l);
    SyncLoopAsks(first.files, p, content, targets, next, l);
  }

  // ---------------------------------------------------------------------
  // splitlines() and the needs-translation test
  // ---------------------------------------------------------------------

  /** Writing the line ends as CR LF instead of LF leaves the line list as it is. */
  lemma {:induction false} SplitLinesIgnoresCrlf(s: String)
    requires '\r' !in s
    ensures SplitLines(LfToCrlf(s)) == SplitLines(s)
    decreases |s|
  {
    if s != [] {
      var i := LineEnd(s);
      LfToCrlfPrefix(s, i);
      if i == |s| {
        assert s[i..] == [] && s[..i] == s;
        assert LfToCrlf(s[i..]) == [];
        assert LfToCrlf(s) == s;
      } else {
        var rest := s[i + 1..];
        assert '\r' !in rest;
        FirstLine(s, i);
        FirstLineCrlf(s, i);
        SplitLinesIgnoresCrlf(rest);
      }
    }
  }

  /** The first line of `s` ends at its first line break, which is not a CR. */
  lemma FirstLine(s: String, i: nat)
    requires '\r' !in s && i < |s| && i == LineEnd(s)
    ensures SplitLines(s) == [s[..i]] + SplitLines(s[i + 1..])
  {
  }

  /** Written with CR LF line ends, `s` has the same first line and then the rest's lines. */
  lemma FirstLineCrlf(s: String, i: nat)
    requires '\r' !in s && i < |s| && i == LineEnd(s)
    requires LfToCrlf(s) == s[..i] + LfToCrlf(s[i..])
    ensures SplitLines(LfToCrlf(s)) == [s[..i]] + SplitLines(LfToCrlf(s[i + 1..]))
  {
    var rest := s[i + 1..];
    var y := LfToCrlf(rest);
    var t := s[i..];
    assert t[0] == s[i] && t[1..] == rest;
    if s[i] == '\n' {
      assert LfToCrlf(s) == s[..i] + ("\r\n" + y) by {
        assert LfToCrlf(t) == "\r\n" + y;
      }
      SplitLinesAt(s[..i], "\r\n", y);
    } else {
      assert LfToCrlf(s) == s[..i] + ([s[i]] + y) by {
        assert LfToCrlf(t) == [s[i]] + y;
      }
      SplitLinesAt(s[..i], [s[i]], y);
    }
  }

  /** A line free of line breaks, one line end (CR LF or a single break), then the rest. */
  lemma SplitLinesAt(x: String, br: String, y: String)
    requires forall k :: 0 <= k < |x| ==> !IsLineBreak(x[k])
    requires br == "\r\n" || (|br| == 1 && IsLineBreak(br[0]) && br[0] != '\r')
    ensures SplitLines(x + (br + y)) == [x] + SplitLines(y)
  {
    var s := x + (br + y);
    LineEndOfPrefix(x, br + y);
    assert s[..|x|] == x;
    assert s[|x| + |br|..] == y;
    if |br| == 2 {
      assert s[|x|] == '\r' && |x| + 1 < |s| && s[|x| + 1] == '\n';
    } else {
      assert s[|x|] == br[0] != '\r';
    }
  }

  /** Text free of line breaks followed by a line break: the first line ends at the seam. */
  lemma {:induction false} LineEndOfPrefix(a: String, b: String)
    requires forall k :: 0 <= k < |a| ==> !IsLineBreak(a[k])
    requires b != [] && IsLineBreak(b[0])
    ensures LineEnd(a + b) == |a|
    decreases |a|
  {
    if a == [] {
      assert a + b == b;
    } else {
      assert (a + b)[1..] == a[1..] + b;
      LineEndOfPrefix(a[1..], b);
    }
  }

  /** A prefix free of line breaks is copied unchanged. */
  lemma {:induction false} LfToCrlfPrefix(s: String, i: nat)
    requires '\r' !in s && i <= |s| && forall k :: 0 <= k < i ==> !IsLineBreak(s[k])
    ensures LfToCrlf(s) == s[..i] + LfToCrlf(s[i..])
    decreases i
  {
    if i > 0 {
      assert s[0] != '\n';
      assert '\r' !in s[1..];
      LfToCrlfPrefix(s[1..], i - 1);
      assert s[1..][i - 1..] == s[i..];
      assert s[..i] == [s[0]] + s[1..][..i - 1];
    }
  }
}
