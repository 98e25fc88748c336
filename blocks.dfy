// Spans of text delimited by an opening and a closing marker, as a non-greedy
// DOTALL regular expression `re.escape(open) + ".*?" + re.escape(close)` finds
// them, and the framed form in which such a span is appended to a text.

module Blocks {
  import opened Strings

  /**
   * `re.sub(open + ".*?" + close, "", s, flags=re.DOTALL)`: from the leftmost `open`
   * up to the first `close` after it is cut out, and the scan goes on after that
   * `close`.  When the first `open` has no `close` after it, no later `open` has one
   * either, so nothing more is cut.
   */
  function RemoveSpans(s: String, open: String, close: String): (r: String)
    requires open != []
    ensures |r| <= |s|
    decreases |s|
  {
    match Find(s, open)
    case None => s
    case Some(i) =>
      var after := s[i + |open|..];
      match Find(after, close)
      case None => s
      case Some(j) => s[..i] + RemoveSpans(after[j + |close|..], open, close)
  }

  /** `f"\n{open}\n{t}\n{close}\n"`: a span on lines of its own. */
  function Framed(t: String, open: String, close: String): String {
    "\n" + (open + (("\n" + t + "\n") + (close + "\n")))
  }

  /**
   * A span is cut out whole, together with what lies between its markers, and only it,
   * when the `open` shown is the first one and the `close` shown the first after it.
   */
  lemma RemoveSpansSplice(p: String, m: String, r: String, open: String, close: String)
    requires open != [] && close != []
    requires !Contains(p + open[..|open| - 1], open)
    requires !Contains(m + close[..|close| - 1], close)
    ensures RemoveSpans(p + (open + (m + (close + r))), open, close) == p + RemoveSpans(r, open, close)
  {
    var rest := m + (close + r);
    var s := p + (open + rest);
    Assoc(p, open, rest);
    FirstOccurrenceExact(p, open, rest);
    assert s[|p| + |open|..] == rest;
    Assoc(m, close, r);
    FirstOccurrenceExact(m, close, r);
    assert rest[|m| + |close|..] == r;
    assert s[..|p|] == p;
  }

  /** The same when `p` and `m` end with characters foreign to the marker after them. */
  lemma RemoveSpansSpliceForeign(p: String, m: String, r: String, open: String, close: String)
    requires open != [] && close != []
    requires !Contains(p, open) && (p == [] || p[|p| - 1] !in open)
    requires !Contains(m, close) && (m == [] || m[|m| - 1] !in close)
    ensures RemoveSpans(p + (open + (m + (close + r))), open, close) == p + RemoveSpans(r, open, close)
  {
    ForeignEndSeam(p, open);
    ForeignEndSeam(m, close);
    RemoveSpansSplice(p, m, r, open, close);
  }

  lemma AppendForeignChar(s: String, c: char, p: String)
    requires p != [] && !Contains(s, p) && c !in p
    ensures !Contains(s + [c], p)
  {
    MissingCharNoOccurrence([c], p, p[0]);
    ConcatNoOccurrence(s, [c], p);
  }

  lemma FrameForeignChar(t: String, c: char, p: String)
    requires p != [] && !Contains(t, p) && c !in p
    ensures !Contains([c] + t + [c], p)
  {
    MissingCharNoOccurrence([c], p, p[0]);
    ConcatNoOccurrence([c], t, p);
    ConcatNoOccurrence([c] + t, [c], p);
  }

  /**
   * Cutting spans from a text with a freshly framed span appended leaves the text and
   * the two line ends around the span.
   */
  lemma RemoveSpansOfAppended(s: String, t: String, open: String, close: String)
    requires open != [] && close != [] && '\n' !in open && '\n' !in close
    requires !Contains(s, open) && !Contains(t, close)
    ensures RemoveSpans(s + Framed(t, open, close), open, close) == s + "\n\n"
  {
    var m := "\n" + t + "\n";
    AppendForeignChar(s, '\n', open);
    FrameForeignChar(t, '\n', close);
    Assoc(s, "\n", open + (m + (close + "\n")));
    RemoveSpansSpliceForeign(s + "\n", m, "\n", open, close);
    MissingCharNoOccurrence("\n", open, open[0]);
    Assoc(s, "\n", "\n");
  }

  /** Hence stripping what is left gives the stripped text back. */
  lemma StripRemoveSpansOfAppended(s: String, t: String, open: String, close: String)
    requires open != [] && close != [] && '\n' !in open && '\n' !in close
    requires !Contains(s, open) && !Contains(t, close)
    ensures Strip(RemoveSpans(s + Framed(t, open, close), open, close)) == Strip(s)
  {
    RemoveSpansOfAppended(s, t, open, close);
    assert AllSpace("\n\n");
    StripIgnoresSurroundingSpace([], s, "\n\n");
    assert [] + s == s;
  }

  /** The same when the whole text was stripped after the span was appended to a stripped text. */
  lemma StripRemoveSpansOfStrippedAppended(s: String, t: String, open: String, close: String)
    requires open != [] && close != [] && '\n' !in open && '\n' !in close
    requires !IsSpace(open[0]) && !IsSpace(close[|close| - 1])
    requires Stripped(s) && !Contains(s, open) && !Contains(t, close)
    ensures Strip(RemoveSpans(Strip(s + Framed(t, open, close)), open, close)) == s
  {
    var m := "\n" + t + "\n";
    FrameForeignChar(t, '\n', close);
    var inner := open + (m + close);
    Assoc(m, close, "\n");
    Assoc(open, m + close, "\n");
    assert inner[0] == open[0] && inner[|inner| - 1] == close[|close| - 1];
    assert close + [] == close;
    if s == [] {
      StrippedFrameAlone(t, open, close, m, inner);
    } else {
      StrippedFrameAfter(s, t, open, close, m, inner);
    }
  }

  lemma StrippedFrameAlone(t: String, open: String, close: String, m: String, inner: String)
    requires open != [] && close != [] && m == "\n" + t + "\n" && !Contains(m, close) && m[|m| - 1] !in close
    requires inner == open + (m + close) && Framed(t, open, close) == "\n" + (inner + "\n")
    requires !IsSpace(inner[0]) && !IsSpace(inner[|inner| - 1]) && close + [] == close
    ensures Strip(RemoveSpans(Strip([] + Framed(t, open, close)), open, close)) == []
  {
    assert Strip([] + Framed(t, open, close)) == inner by {
      assert AllSpace("\n");
      Assoc("\n", inner, "\n");
      StripOf("\n", inner, "\n");
      assert [] + Framed(t, open, close) == "\n" + inner + "\n";
    }
    assert RemoveSpans(inner, open, close) == [] by {
      RemoveSpansSpliceForeign([], m, [], open, close);
      assert [] + inner == inner;
    }
    assert Strip([]) == [] by {
      assert AllSpace([]);
      StripOf([], [], []);
    }
  }

  lemma StrippedFrameAfter(s: String, t: String, open: String, close: String, m: String, inner: String)
    requires open != [] && close != [] && '\n' !in open && s != [] && Stripped(s) && !Contains(s, open)
    requires m == "\n" + t + "\n" && !Contains(m, close) && m[|m| - 1] !in close
    requires inner == open + (m + close) && Framed(t, open, close) == "\n" + (inner + "\n")
    requires !IsSpace(inner[|inner| - 1]) && close + [] == close
    ensures Strip(RemoveSpans(Strip(s + Framed(t, open, close)), open, close)) == s
  {
    StripFrameAfter(s, inner);
    RemoveFrameAfter(s, open, close, m, inner);
  }

  /** Stripping a stripped text with a framed span after it drops only the last line end. */
  lemma StripFrameAfter(s: String, inner: String)
    requires s != [] && Stripped(s) && inner != [] && !IsSpace(inner[|inner| - 1])
    ensures Strip(s + ("\n" + (inner + "\n"))) == (s + "\n") + inner
  {
    var p := s + "\n";
    Assoc(s, "\n", inner + "\n");
    Assoc(p, inner, "\n");
    var q := p + inner;
    assert q[0] == s[0] && q[|q| - 1] == inner[|inner| - 1];
    assert AllSpace("\n") && AllSpace([]);
    StripOf([], q, "\n");
    assert [] + q == q;
  }

  lemma RemoveFrameAfter(s: String, open: String, close: String, m: String, inner: String)
    requires open != [] && close != [] && '\n' !in open && Stripped(s) && !Contains(s, open)
    requires !Contains(m, close) && (m == [] || m[|m| - 1] !in close)
    requires inner == open + (m + close) && close + [] == close
    ensures Strip(RemoveSpans((s + "\n") + inner, open, close)) == s
  {
    var p := s + "\n";
    assert RemoveSpans(p + inner, open, close) == p by {
      AppendForeignChar(s, '\n', open);
      RemoveSpansSpliceForeign(p, m, [], open, close);
      assert p + [] == p;
    }
    assert Strip(p) == s by {
      assert [] + s == s;
      assert AllSpace("\n");
      StripOf([], s, "\n");
    }
  }

  /**
   * A text wrapped between two pieces holds no `p` when none of the three does and
   * the seams are foreign to `p`: the left piece ends with a character that `p` has
   * only at its end, the right piece starts with one that `p` has only at its start.
   */
  lemma WrappedNoOccurrence(a: String, x: String, b: String, p: String)
    requires p != [] && a != [] && b != []
    requires !Contains(a, p) && !Contains(x, p) && !Contains(b, p)
    requires a[|a| - 1] !in p[..|p| - 1] && b[0] !in p[1..]
    ensures !Contains(a + x + b, p)
  {
    ConcatNoOccurrence(a, x, p);
    if x == [] {
      assert a + x == a;
    } else {
      assert (a + x)[|a + x| - 1] == x[|x| - 1];
    }
    ConcatNoOccurrence(a + x, b, p);
  }
}
