// The host-side services the three scripts talk to: the translation service
// (`translate_text`), ordered dictionaries of translations, GitHub comments and
// pull requests, and the working tree the post-commit hook writes into.

module Services {
  import opened Strings

  /** One `language: translation` entry of an insertion-ordered Python dict. */
  datatype Entry = Entry(lang: String, text: String)

  /** One call `translate_text(text, lang)`. */
  datatype Request = Request(text: String, lang: String)

  /** One `write_text` of a translated Markdown file. */
  datatype FileWrite = FileWrite(path: String, text: String)

  /** The languages of a dict, in insertion order. */
  function Keys(d: seq<Entry>): seq<String> {
    seq(|d|, k requires 0 <= k < |d| => d[k].lang)
  }

  /** `d.get(lang)`. */
  function Get(d: seq<Entry>, lang: String): Option<String> {
    if d == [] then None
    else if d[0].lang == lang then Some(d[0].text)
    else Get(d[1..], lang)
  }

  /** `d[lang] = text`: an existing key keeps its place, a new key goes last. */
  function Put(d: seq<Entry>, lang: String, text: String): (r: seq<Entry>)
    ensures Get(r, lang) == Some(text)
    ensures forall l :: l != lang ==> Get(r, l) == Get(d, l)
    ensures Keys(r) == if lang in Keys(d) then Keys(d) else Keys(d) + [lang]
  {
    if d == [] then [Entry(lang, text)]
    else if d[0].lang == lang then
      var r := [Entry(lang, text)] + d[1..];
      KeysCons(d[0], d[1..]);
      KeysCons(Entry(lang, text), d[1..]);
      assert d == [d[0]] + d[1..];
      r
    else
      var rest := Put(d[1..], lang, text);
      var r := [d[0]] + rest;
      assert r[1..] == rest;
      KeysCons(d[0], d[1..]);
      KeysCons(d[0], rest);
      assert d == [d[0]] + d[1..];
      r
  }

  lemma KeysCons(e: Entry, d: seq<Entry>)
    ensures Keys([e] + d) == [e.lang] + Keys(d)
  {
  }

  /** Python truthiness of what `translate_text` returned: a non-empty string. */
  predicate Truthy(r: Option<String>) {
    r.Some? && r.value != []
  }

  /**
   * The `for language in targets: translation = translate_text(content, language);
   * if translation: d[language] = translation` loop, from the dict `d`.
   */
  function Gather(d: seq<Entry>, content: String, targets: seq<String>,
                  answer: (String, String) -> Option<String>): seq<Entry>
  {
    if targets == [] then d
    else
      var before := Gather(d, content, targets[..|targets| - 1], answer);
      var lang := targets[|targets| - 1];
      if Truthy(answer(content, lang)) then Put(before, lang, answer(content, lang).value) else before
  }

  /** The oracle calls that loop makes: one per target, in order. */
  function Requests(content: String, targets: seq<String>): (rs: seq<Request>)
    ensures |rs| == |targets|
    ensures forall k :: 0 <= k < |targets| ==> rs[k] == Request(content, targets[k])
  {
    seq(|targets|, k requires 0 <= k < |targets| => Request(content, targets[k]))
  }

  /**
   * What the loop gathers: starting from a dict without any target as a key and
   * distinct targets, a target is a key exactly when the service answered it with a
   * non-empty text, that text is its value, and the keys keep the target order.
   */
  lemma {:induction false} GatherFresh(d: seq<Entry>, content: String, targets: seq<String>,
                                       answer: (String, String) -> Option<String>)
    requires forall i, j :: 0 <= i < j < |targets| ==> targets[i] != targets[j]
    requires forall k :: 0 <= k < |targets| ==> targets[k] !in Keys(d)
    ensures Keys(Gather(d, content, targets, answer)) == Keys(d) + Answered(content, targets, answer)
    ensures forall l :: l !in targets ==> Get(Gather(d, content, targets, answer), l) == Get(d, l)
    ensures forall l :: l in targets && Truthy(answer(content, l)) ==>
              Get(Gather(d, content, targets, answer), l) == answer(content, l)
    decreases |targets|
  {
    if targets != [] {
      var init := targets[..|targets| - 1];
      var lang := targets[|targets| - 1];
      GatherFresh(d, content, init, answer);
      assert lang !in Keys(d) + Answered(content, init, answer) by {
        AnsweredIn(content, init, answer);
        assert lang !in init;
      }
      assert targets == init + [lang];
    }
  }

  /** An entry after `d[lang] = text` is the new one or was there before. */
  lemma {:induction false} PutEntries(d: seq<Entry>, lang: String, text: String)
    ensures forall e :: e in Put(d, lang, text) ==> e in d || e == Entry(lang, text)
    decreases |d|
  {
    if d != [] && d[0].lang != lang {
      PutEntries(d[1..], lang, text);
      forall e | e in Put(d, lang, text) ensures e in d || e == Entry(lang, text) {
        if e != d[0] {
          assert e in Put(d[1..], lang, text);
        }
      }
    } else if d != [] {
      forall e | e in Put(d, lang, text) ensures e in d || e == Entry(lang, text) {
        if e != Entry(lang, text) {
          assert e in d[1..];
        }
      }
    }
  }

  /**
   * Every entry the loop gathers into a dict that held none is a target the service
   * answered with a non-empty text, paired with that text.
   */
  lemma {:induction false} GatherEntries(content: String, targets: seq<String>,
                                         answer: (String, String) -> Option<String>)
    ensures forall e :: e in Gather([], content, targets, answer) ==>
              e.lang in targets && answer(content, e.lang) == Some(e.text) && e.text != []
    decreases |targets|
  {
    if targets != [] {
      var init, lang := targets[..|targets| - 1], targets[|targets| - 1];
      GatherEntries(content, init, answer);
      var before := Gather([], content, init, answer);
      if Truthy(answer(content, lang)) {
        PutEntries(before, lang, answer(content, lang).value);
      }
      forall e | e in Gather([], content, targets, answer)
        ensures e.lang in targets && answer(content, e.lang) == Some(e.text) && e.text != []
      {
        if e in before {
          assert e.lang in init;
        }
      }
    }
  }

  /** The targets the service answered with a non-empty text, in order. */
  function Answered(content: String, targets: seq<String>,
                    answer: (String, String) -> Option<String>): seq<String>
  {
    if targets == [] then []
    else
      var init := Answered(content, targets[..|targets| - 1], answer);
      var lang := targets[|targets| - 1];
      if Truthy(answer(content, lang)) then init + [lang] else init
  }

  lemma {:induction false} AnsweredIn(content: String, targets: seq<String>,
                                      answer: (String, String) -> Option<String>)
    ensures forall l :: l in Answered(content, targets, answer) ==> l in targets && Truthy(answer(content, l))
    decreases |targets|
  {
    if targets != [] {
      AnsweredIn(content, targets[..|targets| - 1], answer);
    }
  }

  /**
   * `translate_text(text, lang)`: the translation service, seen as a fixed answer per
   * request (`None` where the call raised) plus the log of requests made so far.
   */
  class Translator {
    const answer: (String, String) -> Option<String>
    ghost var requests: seq<Request>

    constructor (answer: (String, String) -> Option<String>)
      ensures this.answer == answer && requests == []
    {
      this.answer := answer;
      requests := [];
    }

    method Translate(text: String, lang: String) returns (r: Option<String>)
      modifies this
      ensures r == answer(text, lang)
      ensures requests == old(requests) + [Request(text, lang)]
    {
      r := answer(text, lang);
      requests := requests + [Request(text, lang)];
    }
  }

  /** An issue comment or a pull-request (review) comment. */
  class Comment {
    var body: String
    ghost var edits: seq<String>

    constructor (body: String)
      ensures this.body == body && edits == []
    {
      this.body := body;
      edits := [];
    }

    /** `comment.edit(body=...)`. */
    method Edit(newBody: String)
      modifies this
      ensures body == newBody && edits == old(edits) + [newBody]
    {
      body := newBody;
      edits := edits + [newBody];
    }
  }

  /** A pull request: its title, its description and the names of its labels. */
  class PullRequest {
    var title: String
    var body: String
    var labels: seq<String>
    ghost var edits: seq<String>

    constructor (title: String, body: String, labels: seq<String>)
      ensures this.title == title && this.body == body && this.labels == labels && edits == []
    {
      this.title := title;
      this.body := body;
      this.labels := labels;
      edits := [];
    }

    /** `pr.edit(body=...)`. */
    method Edit(newBody: String)
      modifies this
      ensures body == newBody && edits == old(edits) + [newBody]
      ensures title == old(title) && labels == old(labels)
    {
      body := newBody;
      edits := edits + [newBody];
    }

    /** `pr.add_to_labels(name)`. */
    method AddToLabels(name: String)
      modifies this
      ensures labels == old(labels) + [name]
      ensures title == old(title) && body == old(body) && edits == old(edits)
    {
      labels := labels + [name];
    }
  }

  /** The working tree, as the content of every file by path, and the log of writes. */
  class FileStore {
    var files: map<String, String>
    ghost var writes: seq<FileWrite>

    constructor (files: map<String, String>)
      ensures this.files == files && writes == []
    {
      this.files := files;
      writes := [];
    }

    /** `Path(path).write_text(text)`. */
    method Write(path: String, text: String)
      modifies this
      ensures files == old(files)[path := text]
      ensures writes == old(writes) + [FileWrite(path, text)]
    {
      files := files[path := text];
      writes := writes + [FileWrite(path, text)];
    }
  }
}
