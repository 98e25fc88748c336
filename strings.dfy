/**
 * The parts of Python's `str` that the translation scripts rely on:
 * `strip`, `in`/`find`, `split`, `replace('\r\n', '\n')`, `join`,
 * `splitlines`, `lower` and `capitalize`, over strings as `seq<char>`.
 */
module Strings {

  datatype Option<+T> = None | Some(value: T)

  type String = seq<char>

  // ---------------------------------------------------------------------
  // Whitespace and strip()
  // ---------------------------------------------------------------------

  /** The characters for which Python's `str.isspace()` holds; `strip()` removes these. */
  predicate IsSpace(c: char) {
    var n := c as int;
    (9 <= n <= 13) || (28 <= n <= 32) || n == 0x85 || n == 0xA0 || n == 0x1680
    || (0x2000 <= n <= 0x200A) || n == 0x2028 || n == 0x2029 || n == 0x202F
    || n == 0x205F || n == 0x3000
  }

  predicate AllSpace(s: String) {
    forall k :: 0 <= k < |s| ==> IsSpace(s[k])
  }

  /** Every character of `s` from index `lo` up to `hi` is whitespace. */
  predicate SpaceBetween(s: String, lo: int, hi: int)
    requires 0 <= lo <= hi <= |s|
  {
    forall k :: lo <= k < hi ==> IsSpace(s[k])
  }

  /** Neither starts nor ends with whitespace: what `strip()` returns. */
  predicate Stripped(s: String) {
    s == [] || (!IsSpace(s[0]) && !IsSpace(s[|s| - 1]))
  }

  /** The first index at or after `i` that does not hold whitespace (or `|s|`). */
  function SkipSpace(s: String, i: nat): (r: nat)
    requires i <= |s|
    ensures i <= r <= |s| && SpaceBetween(s, i, r)
    ensures r < |s| ==> !IsSpace(s[r])
    decreases |s| - i
  {
    if i < |s| && IsSpace(s[i]) then SkipSpace(s, i + 1) else i
  }

  /** The last index down from `hi`, but not below `lo`, that follows a non-whitespace character (or `lo`). */
  function SkipSpaceBack(s: String, lo: nat, hi: nat): (r: nat)
    requires lo <= hi <= |s|
    ensures lo <= r <= hi && SpaceBetween(s, r, hi)
    ensures lo < r ==> !IsSpace(s[r - 1])
    decreases hi
  {
    if lo < hi && IsSpace(s[hi - 1]) then SkipSpaceBack(s, lo, hi - 1) else hi
  }

  /** `s.lstrip()`: the suffix of `s` after its leading whitespace. */
  function LStrip(s: String): (r: String)
    ensures |r| <= |s| && r == s[|s| - |r|..]
    ensures SpaceBetween(s, 0, |s| - |r|)
    ensures r == [] || !IsSpace(r[0])
  {
    s[SkipSpace(s, 0)..]
  }

  /** `s.strip()`: `s` without its leading and trailing whitespace. */
  function Strip(s: String): (r: String)
    ensures Stripped(r)
    ensures |r| <= |s|
  {
    var a := SkipSpace(s, 0);
    s[a..SkipSpaceBack(s, a, |s|)]
  }

  /** Where strip() cut: `s` is whitespace, then `Strip(s)` from index `i`, then whitespace. */
  lemma StripParts(s: String) returns (i: nat)
    ensures i + |Strip(s)| <= |s| && s[i..i + |Strip(s)|] == Strip(s)
    ensures SpaceBetween(s, 0, i) && SpaceBetween(s, i + |Strip(s)|, |s|)
    ensures AllSpace(s[..i]) && AllSpace(s[i + |Strip(s)|..])
    ensures s == s[..i] + Strip(s) + s[i + |Strip(s)|..]
  {
    i := SkipSpace(s, 0);
    var j := i + |Strip(s)|;
    assert AllSpace(s[..i]) by {
      forall k | 0 <= k < i ensures IsSpace(s[..i][k]) { assert s[..i][k] == s[k]; }
    }
    assert AllSpace(s[j..]) by {
      forall k | 0 <= k < |s| - j ensures IsSpace(s[j..][k]) { assert s[j..][k] == s[j + k]; }
    }
    assert s == s[..i] + s[i..j] + s[j..];
  }

  lemma SkipSpaceIsFirst(s: String, i: nat, r: nat)
    requires i <= r <= |s| && SpaceBetween(s, i, r) && (r < |s| ==> !IsSpace(s[r]))
    ensures SkipSpace(s, i) == r
  {
  }

  lemma SkipSpaceBackIsLast(s: String, lo: nat, hi: nat, r: nat)
    requires lo <= r <= hi <= |s| && SpaceBetween(s, r, hi) && (lo < r ==> !IsSpace(s[r - 1]))
    ensures SkipSpaceBack(s, lo, hi) == r
  {
  }

  /** Strip is characterised by its result: whatever whitespace surrounds a stripped text, strip() gives it back. */
  lemma StripOf(w1: String, m: String, w2: String)
    requires AllSpace(w1) && AllSpace(w2) && Stripped(m)
    ensures Strip(w1 + m + w2) == m
  {
    var s := w1 + m + w2;
    var a, b := |w1|, |w1| + |m|;
    assert SpaceBetween(s, 0, a) by {
      forall k | 0 <= k < a ensures IsSpace(s[k]) { assert s[k] == w1[k]; }
    }
    assert SpaceBetween(s, b, |s|) by {
      forall k | b <= k < |s| ensures IsSpace(s[k]) { assert s[k] == w2[k - b]; }
    }
    if m == [] {
      SkipSpaceIsFirst(s, 0, |s|);
      assert s[|s|..|s|] == m;
    } else {
      assert s[a] == m[0] && s[b - 1] == m[|m| - 1];
      SkipSpaceIsFirst(s, 0, a);
      SkipSpaceBackIsLast(s, a, |s|, b);
      assert s[a..b] == m;
    }
  }

  /** `lstrip()` drops exactly a whitespace prefix in front of a text that starts with no whitespace. */
  lemma LStripAfterSpaces(w: String, x: String)
    requires AllSpace(w) && (x == [] || !IsSpace(x[0]))
    ensures LStrip(w + x) == x
  {
    var s := w + x;
    assert SpaceBetween(s, 0, |w|) by {
      forall k | 0 <= k < |w| ensures IsSpace(s[k]) { assert s[k] == w[k]; }
    }
    if x != [] {
      assert s[|w|] == x[0];
    }
    SkipSpaceIsFirst(s, 0, |w|);
    assert s[|w|..] == x;
  }

  /** Stripping text followed by a part that starts and ends outside whitespace keeps the part whole. */
  lemma StripKeepsTail(pre: String, x: String)
    requires x != [] && !IsSpace(x[0]) && !IsSpace(x[|x| - 1])
    ensures Strip(pre + x) == LStrip(pre) + x
  {
    var s := pre + x;
    var r := SkipSpace(pre, 0);
    assert SpaceBetween(s, 0, r) by {
      forall k | 0 <= k < r ensures IsSpace(s[k]) { assert s[k] == pre[k]; }
    }
    assert r < |s| && !IsSpace(s[r]) by {
      if r < |pre| { assert s[r] == pre[r]; } else { assert s[r] == x[0]; }
    }
    assert Strip(s) == s[r..] by {
      SkipSpaceIsFirst(s, 0, r);
      SkipSpaceBackIsLast(s, r, |s|, |s|);
      assert s[r..|s|] == s[r..];
    }
    assert LStrip(pre) == pre[r..];
    assert s[r..] == pre[r..] + x;
  }

  /** Whitespace before a text does not change what strip() returns. */
  lemma StripAfterSpace(w: String, s: String)
    requires AllSpace(w)
    ensures Strip(w + s) == Strip(s)
  {
    assert AllSpace([]);
    StripIgnoresSurroundingSpace(w, s, []);
    assert w + s + [] == w + s;
  }

  /** Whitespace after a text does not change what strip() returns. */
  lemma StripBeforeSpace(s: String, w: String)
    requires AllSpace(w)
    ensures Strip(s + w) == Strip(s)
  {
    assert AllSpace([]);
    StripIgnoresSurroundingSpace([], s, w);
    assert [] + s + w == s + w;
  }

  /** A stripped text is its own strip. */
  /** A part that starts and ends outside whitespace, followed only by whitespace, ends the stripped text. */
  lemma StripKeepsTailBeforeSpace(pre: String, x: String, w: String)
    requires x != [] && !IsSpace(x[0]) && !IsSpace(x[|x| - 1]) && AllSpace(w)
    ensures Strip(pre + x + w) == LStrip(pre) + x
  {
    StripBeforeSpace(pre + x, w);
    StripKeepsTail(pre, x);
  }

  lemma StrippedFixed(s: String)
    requires Stripped(s)
    ensures Strip(s) == s
  {
    StripOf([], s, []);
    assert [] + s + [] == s;
  }

  lemma StripIdempotent(s: String)
    ensures Strip(Strip(s)) == Strip(s)
  {
    StripOf([], Strip(s), []);
    assert [] + Strip(s) + [] == Strip(s);
  }

  /** Appending or prepending whitespace does not change what strip() returns. */
  lemma StripIgnoresSurroundingSpace(w1: String, s: String, w2: String)
    requires AllSpace(w1) && AllSpace(w2)
    ensures Strip(w1 + s + w2) == Strip(s)
  {
    var r := Strip(s);
    var i := StripParts(s);
    var p, q := s[..i], s[i + |r|..];
    AllSpaceConcat(w1, p);
    AllSpaceConcat(q, w2);
    assert w1 + s + w2 == (w1 + p) + r + (q + w2) by {
      assert s == p + r + q;
      Assoc(w1, p + r, q);
      Assoc(w1, p, r);
      Assoc(w1 + p + r, q, w2);
    }
    StripOf(w1 + p, r, q + w2);
  }

  lemma AllSpaceConcat(a: String, b: String)
    requires AllSpace(a) && AllSpace(b)
    ensures AllSpace(a + b)
  {
    forall k | 0 <= k < |a + b| ensures IsSpace((a + b)[k]) {
      if k < |a| { assert (a + b)[k] == a[k]; } else { assert (a + b)[k] == b[k - |a|]; }
    }
  }

  lemma Assoc(a: String, b: String, c: String)
    ensures a + b + c == a + (b + c)
  {
  }

  // ---------------------------------------------------------------------
  // Occurrences: `in`, find()
  // ---------------------------------------------------------------------

  /** `p` occurs in `s` at index `i`. */
  predicate IsAt(s: String, p: String, i: int) {
    0 <= i && i + |p| <= |s| && s[i..i + |p|] == p
  }

  /** Python's `p in s`. */
  predicate Contains(s: String, p: String) {
    exists i | 0 <= i <= |s| - |p| :: IsAt(s, p, i)
  }

  predicate StartsWith(s: String, p: String) {
    |p| <= |s| && s[..|p|] == p
  }

  predicate EndsWith(s: String, p: String) {
    |p| <= |s| && s[|s| - |p|..] == p
  }

  /** The first occurrence of `p` in `s` at or after index `k`. */
  function FindFrom(s: String, p: String, k: nat): (r: Option<nat>)
    ensures r.Some? ==> k <= r.value && IsAt(s, p, r.value)
    ensures r.Some? ==> forall j :: k <= j < r.value ==> !IsAt(s, p, j)
    ensures r.None? ==> forall j :: k <= j ==> !IsAt(s, p, j)
    decreases |s| - k
  {
    if k + |p| > |s| then None
    else if s[k..k + |p|] == p then Some(k)
    else FindFrom(s, p, k + 1)
  }

  /** Python's `s.find(p)`, with `None` for -1. */
  function Find(s: String, p: String): (r: Option<nat>)
    ensures r.Some? <==> Contains(s, p)
    ensures r.Some? ==> IsAt(s, p, r.value) && forall j :: 0 <= j < r.value ==> !IsAt(s, p, j)
  {
    FindFrom(s, p, 0)
  }

  /** The first occurrence is the one with no occurrence before it. */
  lemma FindIsFirst(s: String, p: String, i: nat)
    requires IsAt(s, p, i)
    requires forall j :: 0 <= j < i ==> !IsAt(s, p, j)
    ensures Find(s, p) == Some(i)
  {
  }

  /** A text that lacks one of the pattern's characters cannot contain it. */
  lemma MissingCharNoOccurrence(s: String, p: String, c: char)
    requires c in p && c !in s
    ensures !Contains(s, p)
  {
    var k :| 0 <= k < |p| && p[k] == c;
    forall i | 0 <= i <= |s| - |p| ensures !IsAt(s, p, i) {
      assert s[i..i + |p|][k] == s[i + k] != p[k];
    }
  }

  /**
   * An occurrence of `p` in `a + b` lies in `a`, lies in `b`, or straddles the seam.
   * A straddle is ruled out when the last character of `a` occurs in `p` only at its end,
   * when the first character of `b` occurs in `p` only at its start, or when `a` lacks `p[0]`.
   */
  lemma ConcatNoOccurrence(a: String, b: String, p: String)
    requires !Contains(a, p) && !Contains(b, p)
    requires a == [] || b == [] || (p != [] && a[|a| - 1] !in p[..|p| - 1])
          || (p != [] && b[0] !in p[1..]) || (p != [] && p[0] !in a)
    ensures !Contains(a + b, p)
  {
    var s := a + b;
    forall i | 0 <= i <= |s| - |p| ensures !IsAt(s, p, i) {
      if i + |p| <= |a| {
        assert s[i..i + |p|] == a[i..i + |p|];
        assert !IsAt(a, p, i);
      } else if i >= |a| {
        var u, v := s[i..i + |p|], b[i - |a|..i - |a| + |p|];
        forall k | 0 <= k < |p| ensures u[k] == v[k] {
          assert u[k] == s[i + k] == b[i + k - |a|];
        }
        assert u == v;
        assert !IsAt(b, p, i - |a|);
      } else if a[|a| - 1] !in p[..|p| - 1] {
        assert s[i..i + |p|][|a| - 1 - i] == a[|a| - 1];
        assert p[..|p| - 1][|a| - 1 - i] == p[|a| - 1 - i];
      } else if b[0] !in p[1..] {
        assert s[i..i + |p|][|a| - i] == b[0];
        assert p[1..][|a| - i - 1] == p[|a| - i];
      } else {
        assert s[i..i + |p|][0] == a[i];
      }
    }
  }

  /** A seam after a character foreign to `p` cannot hold `p`. */
  lemma AfterForeignChar(a: String, b: String, p: String)
    requires p != [] && !Contains(a, p) && !Contains(b, p) && a != [] && a[|a| - 1] !in p
    ensures !Contains(a + b, p)
  {
    assert a[|a| - 1] !in p[..|p| - 1];
    ConcatNoOccurrence(a, b, p);
  }

  /** A seam before a character foreign to `p` cannot hold `p`. */
  lemma BeforeForeignChar(a: String, b: String, p: String)
    requires p != [] && !Contains(a, p) && !Contains(b, p) && b != [] && b[0] !in p
    ensures !Contains(a + b, p)
  {
    assert b[0] !in p[1..];
    ConcatNoOccurrence(a, b, p);
  }

  /** A text that does not contain `p` does not contain it in any slice either. */
  lemma SliceNoOccurrence(s: String, p: String, lo: int, hi: int)
    requires 0 <= lo <= hi <= |s|
    requires !Contains(s, p)
    ensures !Contains(s[lo..hi], p)
  {
    forall i | 0 <= i <= hi - lo - |p| ensures !IsAt(s[lo..hi], p, i) {
      var t := s[lo..hi];
      assert !IsAt(s, p, lo + i);
      var u, v := t[i..i + |p|], s[lo + i..lo + i + |p|];
      assert forall k | 0 <= k < |p| :: u[k] == v[k];
      assert u == v;
    }
  }

  lemma StripNoOccurrence(s: String, p: String)
    requires !Contains(s, p)
    ensures !Contains(Strip(s), p)
  {
    var i := StripParts(s);
    SliceNoOccurrence(s, p, i, i + |Strip(s)|);
  }

  /**
   * Searching `p + pat + rest` for `pat` finds the visible `pat` at `|p|` exactly when
   * no occurrence lies in `p` or straddles the seam into `pat`: any earlier occurrence
   * would end before the last character of the visible `pat`.
   */
  lemma FirstOccurrenceExact(p: String, pat: String, rest: String)
    requires pat != [] && !Contains(p + pat[..|pat| - 1], pat)
    ensures Find(p + pat + rest, pat) == Some(|p|)
  {
    var s := p + pat + rest;
    var q := p + pat[..|pat| - 1];
    assert s[|p|..|p| + |pat|] == pat;
    assert pat == pat[..|pat| - 1] + [pat[|pat| - 1]];
    assert s == q + ([pat[|pat| - 1]] + rest);
    forall j | 0 <= j < |p| ensures !IsAt(s, pat, j) {
      assert s[j..j + |pat|] == q[j..j + |pat|];
      assert !IsAt(q, pat, j);
    }
    FindIsFirst(s, pat, |p|);
  }

  /** The seam holds no `pat` when `p` holds none and ends with a character foreign to `pat`. */
  lemma ForeignEndSeam(p: String, pat: String)
    requires pat != [] && !Contains(p, pat) && (p == [] || p[|p| - 1] !in pat)
    ensures !Contains(p + pat[..|pat| - 1], pat)
  {
    var q := p + pat[..|pat| - 1];
    forall j | 0 <= j <= |q| - |pat| ensures !IsAt(q, pat, j) {
      if j + |pat| <= |p| {
        assert q[j..j + |pat|] == p[j..j + |pat|];
        assert !IsAt(p, pat, j);
      } else {
        assert q[j..j + |pat|][|p| - 1 - j] == p[|p| - 1];
      }
    }
  }

  /**
   * The same when `pat` ends with a character it holds nowhere else: then no occurrence
   * can start in `p` and end inside the visible `pat`, whatever `p` ends with.
   */
  lemma FirstOccurrenceOfUniqueEnd(p: String, pat: String, rest: String)
    requires !Contains(p, pat)
    requires pat != [] && pat[|pat| - 1] !in pat[..|pat| - 1]
    ensures Find(p + pat + rest, pat) == Some(|p|)
  {
    var s := p + pat + rest;
    assert s[|p|..|p| + |pat|] == pat;
    forall j | 0 <= j < |p| ensures !IsAt(s, pat, j) {
      if j + |pat| <= |p| {
        assert s[j..j + |pat|] == p[j..j + |pat|];
        assert !IsAt(p, pat, j);
      } else if j + |pat| <= |s| {
        var e := j + |pat| - 1 - |p|;
        assert s[j..j + |pat|][|pat| - 1] == pat[e];
        assert pat[..|pat| - 1][e] == pat[e];
      }
    }
    FindIsFirst(s, pat, |p|);
  }

  // ---------------------------------------------------------------------
  // join() and split()
  // ---------------------------------------------------------------------

  /** `sep.join(parts)`. */
  function Join(parts: seq<String>, sep: String): String {
    if parts == [] then []
    else if |parts| == 1 then parts[0]
    else parts[0] + sep + Join(parts[1..], sep)
  }

  /** Joining one more part adds the separator and the part. */
  lemma {:induction false} JoinSnoc(parts: seq<String>, x: String, sep: String)
    ensures Join(parts + [x], sep) == if parts == [] then x else Join(parts, sep) + sep + x
    decreases |parts|
  {
    if |parts| == 1 {
      assert parts + [x] == [parts[0], x];
      assert [parts[0], x][1..] == [x];
    } else if |parts| > 1 {
      JoinSnoc(parts[1..], x, sep);
      assert (parts + [x])[1..] == parts[1..] + [x];
      Assoc(parts[0], sep, Join(parts[1..], sep));
      Assoc(parts[0] + sep + Join(parts[1..], sep), sep, x);
    } else {
      assert parts + [x] == [x];
    }
  }

  /** `s.split(sep)` with no `maxsplit`: every piece between non-overlapping occurrences, left to right. */
  function Split(s: String, sep: String): (parts: seq<String>)
    requires sep != []
    ensures |parts| >= 1
    ensures Join(parts, sep) == s
    ensures |parts| >= 2 <==> Contains(s, sep)
    ensures forall k :: 0 <= k < |parts| ==> !Contains(parts[k], sep)
    ensures |parts| >= 2 ==> Find(s, sep) == Some(|parts[0]|)
    decreases |s|
  {
    match Find(s, sep)
    case None => [s]
    case Some(i) =>
      var rest := Split(s[i + |sep|..], sep);
      assert s == s[..i] + sep + s[i + |sep|..];
      assert !Contains(s[..i], sep) by {
        forall j | 0 <= j <= i - |sep| ensures !IsAt(s[..i], sep, j) {
          assert s[..i][j..j + |sep|] == s[j..j + |sep|];
          assert !IsAt(s, sep, j);
        }
      }
      [s[..i]] + rest
  }

  /** A text without the separator splits into itself alone. */
  lemma SplitWithoutSep(s: String, sep: String)
    requires sep != [] && !Contains(s, sep)
    ensures Split(s, sep) == [s]
  {
    var parts := Split(s, sep);
    assert |parts| == 1;
    assert Join(parts, sep) == parts[0];
  }

  /** Splitting at a first visible separator: the text before it is the first piece. */
  lemma SplitAtFirst(a: String, sep: String, b: String)
    requires sep != [] && !Contains(a + sep[..|sep| - 1], sep)
    ensures Split(a + sep + b, sep) == [a] + Split(b, sep)
  {
    var s := a + sep + b;
    FirstOccurrenceExact(a, sep, b);
    assert s[..|a|] == a && s[|a| + |sep|..] == b;
  }

  /** No separator was found unless a part, a separator or a seam holds it. */
  lemma {:induction false} JoinNoOccurrence(parts: seq<String>, sep: String, p: String)
    requires forall k :: 0 <= k < |parts| ==> !Contains(parts[k], p)
    requires p != [] && sep != [] && !Contains(sep, p) && sep[0] !in p && sep[|sep| - 1] !in p
    ensures !Contains(Join(parts, sep), p)
    decreases |parts|
  {
    if parts == [] {
      assert !IsAt([], p, 0);
    } else if |parts| > 1 {
      var rest := Join(parts[1..], sep);
      JoinNoOccurrence(parts[1..], sep, p);
      assert sep[0] !in p[1..] && sep[|sep| - 1] !in p[..|p| - 1];
      ConcatNoOccurrence(parts[0], sep, p);
      ConcatNoOccurrence(parts[0] + sep, rest, p);
      assert Join(parts, sep) == parts[0] + sep + rest;
    }
  }

  // ---------------------------------------------------------------------
  // replace('\r\n', '\n')
  // ---------------------------------------------------------------------

  /** `s.replace('\r\n', '\n')`: every non-overlapping CR LF, scanned left to right, becomes LF. */
  function CrlfToLf(s: String): (r: String)
    ensures |r| <= |s|
    decreases |s|
  {
    if |s| >= 2 && s[0] == '\r' && s[1] == '\n' then "\n" + CrlfToLf(s[2..])
    else if s == [] then []
    else [s[0]] + CrlfToLf(s[1..])
  }

  /** Normalising line ends works piecewise wherever the seam does not cut a CR LF pair. */
  lemma {:induction false} CrlfToLfAppend(x: String, y: String)
    requires x == [] || y == [] || x[|x| - 1] != '\r' || y[0] != '\n'
    ensures CrlfToLf(x + y) == CrlfToLf(x) + CrlfToLf(y)
    decreases |x|
  {
    if x == [] {
      assert x + y == y;
    } else if |x| >= 2 && x[0] == '\r' && x[1] == '\n' {
      assert CrlfToLf(x + y) == "\n" + CrlfToLf(x[2..] + y) by {
        assert (x + y)[0] == '\r' && (x + y)[1] == '\n';
        assert (x + y)[2..] == x[2..] + y;
      }
      CrlfToLfAppend(x[2..], y);
      Assoc("\n", CrlfToLf(x[2..]), CrlfToLf(y));
    } else {
      assert CrlfToLf(x + y) == [x[0]] + CrlfToLf(x[1..] + y) by {
        assert (x + y)[0] == x[0];
        assert |x| >= 2 ==> (x + y)[1] == x[1];
        assert |x| == 1 && y != [] ==> (x + y)[1] == y[0];
        assert (x + y)[1..] == x[1..] + y;
      }
      CrlfToLfAppend(x[1..], y);
      Assoc([x[0]], CrlfToLf(x[1..]), CrlfToLf(y));
    }
  }

  lemma {:induction false} CrlfToLfSpaces(w: String)
    requires AllSpace(w)
    ensures AllSpace(CrlfToLf(w))
    decreases |w|
  {
    if |w| >= 2 && w[0] == '\r' && w[1] == '\n' {
      assert AllSpace(w[2..]) by {
        forall k | 0 <= k < |w| - 2 ensures IsSpace(w[2..][k]) { assert w[2..][k] == w[k + 2]; }
      }
      CrlfToLfSpaces(w[2..]);
    } else if w != [] {
      assert AllSpace(w[1..]) by {
        forall k | 0 <= k < |w| - 1 ensures IsSpace(w[1..][k]) { assert w[1..][k] == w[k + 1]; }
      }
      CrlfToLfSpaces(w[1..]);
    }
  }

  lemma CrlfToLfEnds(m: String)
    requires Stripped(m)
    ensures Stripped(CrlfToLf(m))
  {
    if m != [] {
      var last := m[|m| - 1];
      var init := m[..|m| - 1];
      assert m == init + [last];
      CrlfToLfAppend(init, [last]);
      assert CrlfToLf([last]) == [last];
      assert CrlfToLf(m)[0] == m[0];
    }
  }

  /** Stripping never splits a CR LF pair, so normalising line ends and stripping commute. */
  lemma CrlfToLfStrip(s: String)
    ensures CrlfToLf(Strip(s)) == Strip(CrlfToLf(s))
  {
    var m := Strip(s);
    var i := StripParts(s);
    var w1, w2 := s[..i], s[i + |m|..];
    if m == [] {
      assert AllSpace(s) by {
        forall k | 0 <= k < |s| ensures IsSpace(s[k]) {
          if k < i { assert s[k] == w1[k]; } else { assert s[k] == w2[k - i]; }
        }
      }
      CrlfToLfSpaces(s);
      StripOf(CrlfToLf(s), [], []);
      assert CrlfToLf(s) + [] + [] == CrlfToLf(s);
      return;
    }
    assert (w1 + m)[|w1 + m| - 1] == m[|m| - 1];
    CrlfToLfAppend(w1, m);
    CrlfToLfAppend(w1 + m, w2);
    assert CrlfToLf(s) == CrlfToLf(w1) + CrlfToLf(m) + CrlfToLf(w2);
    CrlfToLfSpaces(w1);
    CrlfToLfSpaces(w2);
    CrlfToLfEnds(m);
    StripOf(CrlfToLf(w1), CrlfToLf(m), CrlfToLf(w2));
  }

  /** A text without CR has nothing to normalise. */
  lemma {:induction false} CrlfToLfNoCr(s: String)
    requires '\r' !in s
    ensures CrlfToLf(s) == s
    decreases |s|
  {
    if s != [] {
      assert s[0] != '\r' && '\r' !in s[1..];
      CrlfToLfNoCr(s[1..]);
      assert s == [s[0]] + s[1..];
    }
  }

  /** Writing every line end as CR LF instead of LF (for a text with no CR of its own). */
  function LfToCrlf(s: String): (r: String)
    requires '\r' !in s
    ensures |r| >= |s|
  {
    if s == [] then []
    else if s[0] == '\n' then "\r\n" + LfToCrlf(s[1..])
    else [s[0]] + LfToCrlf(s[1..])
  }

  /** Replacing CR LF by LF undoes writing line ends as CR LF. */
  lemma {:induction false} CrlfToLfUndoesLfToCrlf(s: String)
    requires '\r' !in s
    ensures CrlfToLf(LfToCrlf(s)) == s
    decreases |s|
  {
    if s != [] {
      CrlfToLfUndoesLfToCrlf(s[1..]);
      if s[0] == '\n' {
        assert LfToCrlf(s)[2..] == LfToCrlf(s[1..]);
      } else {
        assert LfToCrlf(s)[1..] == LfToCrlf(s[1..]);
        assert s == [s[0]] + s[1..];
      }
    }
  }

  // ---------------------------------------------------------------------
  // splitlines()
  // ---------------------------------------------------------------------

  /** The line boundaries of Python's `str.splitlines()`. */
  predicate IsLineBreak(c: char) {
    var n := c as int;
    (10 <= n <= 13) || (28 <= n <= 30) || n == 0x85 || n == 0x2028 || n == 0x2029
  }

  /** Index of the first line break in `s`, or `|s|`. */
  function LineEnd(s: String): (i: nat)
    ensures i <= |s|
    ensures forall k :: 0 <= k < i ==> !IsLineBreak(s[k])
    ensures i < |s| ==> IsLineBreak(s[i])
  {
    if s == [] || IsLineBreak(s[0]) then 0 else 1 + LineEnd(s[1..])
  }

  /** `s.splitlines()`: the lines without their ends; CR LF counts as one line end. */
  function SplitLines(s: String): (lines: seq<String>)
    ensures lines == [] <==> s == []
    ensures |lines| <= |s|
    decreases |s|
  {
    if s == [] then []
    else
      var i := LineEnd(s);
      if i == |s| then [s]
      else
        var next := if s[i] == '\r' && i + 1 < |s| && s[i + 1] == '\n' then i + 2 else i + 1;
        [s[..i]] + SplitLines(s[next..])
  }
  /** No line keeps a line break. */
  lemma {:induction false} SplitLinesNoBreaks(s: String)
    ensures forall k, j :: 0 <= k < |SplitLines(s)| && 0 <= j < |SplitLines(s)[k]| ==> !IsLineBreak(SplitLines(s)[k][j])
    decreases |s|
  {
    if s != [] {
      var i := LineEnd(s);
      if i < |s| {
        var next := if s[i] == '\r' && i + 1 < |s| && s[i + 1] == '\n' then i + 2 else i + 1;
        var rest := SplitLines(s[next..]);
        SplitLinesNoBreaks(s[next..]);
        var lines := SplitLines(s);
        assert lines == [s[..i]] + rest;
        forall k, j | 0 <= k < |lines| && 0 <= j < |lines[k]|
          ensures !IsLineBreak(lines[k][j])
        {
          if k == 0 {
            assert lines[k][j] == s[j];
          } else {
            assert lines[k] == rest[k - 1];
          }
        }
      } else {
        assert SplitLines(s) == [s];
      }
    }
  }

}

/** Python's `lower()` and `capitalize()`, on the ASCII letters. */
module Letters {
  import opened Strings

  function LowerChar(c: char): char {
    if 'A' <= c <= 'Z' then (c as int + 32) as char else c
  }

  function UpperChar(c: char): char {
    if 'a' <= c <= 'z' then (c as int - 32) as char else c
  }

  /** `s.lower()`, restricted to the ASCII letters. */
  function Lower(s: String): (r: String)
    ensures |r| == |s|
    ensures forall k :: 0 <= k < |s| ==> r[k] == LowerChar(s[k])
  {
    seq(|s|, k requires 0 <= k < |s| => LowerChar(s[k]))
  }

  /** `s.capitalize()`, restricted to the ASCII letters: first upper case, the rest lower case. */
  function Capitalize(s: String): (r: String)
    ensures |r| == |s|
    ensures s != [] ==> r[0] == UpperChar(s[0]) && r[1..] == Lower(s[1..])
  {
    if s == [] then [] else [UpperChar(s[0])] + Lower(s[1..])
  }
}
