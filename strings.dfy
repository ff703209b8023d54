/**
 * The handful of Python `str` operations the hierarchy parser relies on, over `seq<char>`:
 * `isspace`, `strip()`, `replace(old, "")`, the `in` substring test and `splitlines()`.
 */
module Strings {

  /** Python's whitespace (`str.isspace`, and `\s` in a `str` regular expression). */
  predicate IsSpace(c: char) {
    ('\t' <= c <= '\r') || ('\U{1C}' <= c <= ' ') || c == '\U{85}' || c == '\U{A0}'
    || c == '\U{1680}' || ('\U{2000}' <= c <= '\U{200A}') || c == '\U{2028}' || c == '\U{2029}'
    || c == '\U{202F}' || c == '\U{205F}' || c == '\U{3000}'
  }

  /** The characters at which `str.splitlines` ends a line (`\r\n` counts as one break). */
  predicate IsLineBreak(c: char) {
    c == '\n' || c == '\r' || c == '\U{0B}' || c == '\U{0C}' || c == '\U{1C}' || c == '\U{1D}'
    || c == '\U{1E}' || c == '\U{85}' || c == '\U{2028}' || c == '\U{2029}'
  }

  /** `p in s`: `p` occurs in `s` as a contiguous piece. */
  predicate Contains(s: string, p: string)
    decreases |s|
  {
    p <= s || (s != [] && Contains(s[1..], p))
  }

  /** A piece that occurs in `s` shows each of its characters in `s`. */
  lemma {:induction false} ContainsShowsChars(s: string, p: string, k: nat)
    requires Contains(s, p) && k < |p|
    ensures p[k] in s
    decreases |s|
  {
    if p <= s {
      assert s[k] == p[k];
    } else {
      ContainsShowsChars(s[1..], p, k);
    }
  }

  /** A piece whose first character is missing from `s` does not occur in it. */
  lemma {:induction false} MissingHeadNotContained(s: string, p: string)
    requires p != [] && p[0] !in s
    ensures !Contains(s, p)
    decreases |s|
  {
    if s != [] {
      assert s[0] != p[0];
      MissingHeadNotContained(s[1..], p);
    }
  }

  /** A piece occurs in any text that has an occurrence of it after some prefix. */
  lemma {:induction false} ContainsAfterPrefix(x: string, s: string, p: string)
    requires Contains(s, p)
    ensures Contains(x + s, p)
    decreases |x|
  {
    if x != [] {
      assert (x + s)[1..] == x[1..] + s;
      ContainsAfterPrefix(x[1..], s, p);
      assert Contains((x + s)[1..], p);
    } else {
      assert x + s == s;
    }
  }

  /** `s.replace(p, "")`: every non-overlapping occurrence of `p`, leftmost first, removed. */
  function RemoveAll(s: string, p: string): (r: string)
    requires |p| > 0
    ensures |r| <= |s|
    ensures !Contains(s, p) ==> r == s
    ensures |p| == 1 ==> p[0] !in r
    ensures forall c :: c in r ==> c in s
    decreases |s|
  {
    if s == [] then []
    else if p <= s then RemoveAll(s[|p|..], p)
    else [s[0]] + RemoveAll(s[1..], p)
  }

  /** Characters that cannot start `p` are kept, in order, by the removal. */
  lemma {:induction false} RemoveAllKeepsPrefix(x: string, s: string, p: string)
    requires |p| > 0 && forall i :: 0 <= i < |x| ==> x[i] != p[0]
    ensures RemoveAll(x + s, p) == x + RemoveAll(s, p)
    decreases |x|
  {
    if x == [] {
      assert x + s == s;
    } else {
      var y := x[1..];
      var tail := RemoveAll(s, p);
      calc {
        RemoveAll(x + s, p);
        { assert x + s == [x[0]] + (y + s); }
        RemoveAll([x[0]] + (y + s), p);
        { RemoveAllKeepsHead(x[0], y + s, p); }
        [x[0]] + RemoveAll(y + s, p);
        { RemoveAllKeepsPrefix(y, s, p); }
        [x[0]] + (y + tail);
        { assert [x[0]] + y == x; }
        x + tail;
      }
    }
  }

  /** A first character that cannot start `p` is kept. */
  lemma RemoveAllKeepsHead(c: char, s: string, p: string)
    requires |p| > 0 && c != p[0]
    ensures RemoveAll([c] + s, p) == [c] + RemoveAll(s, p)
  {
    var t := [c] + s;
    assert t[0] == c && t[1..] == s;
    assert !(p <= t);
  }

  /** An occurrence of `p` at the front is removed. */
  lemma RemoveAllDropsHead(p: string, s: string)
    requires |p| > 0
    ensures RemoveAll(p + s, p) == RemoveAll(s, p)
  {
    assert p <= p + s && (p + s)[|p|..] == s;
  }

  /** Nothing is removed from a text where `p` cannot start. */
  lemma RemoveAllAbsent(s: string, p: string)
    requires |p| > 0 && p[0] !in s
    ensures RemoveAll(s, p) == s
  {
    MissingHeadNotContained(s, p);
  }

  /** `lstrip` drops leading whitespace and keeps a text that starts with a non-space. */
  lemma {:induction false} TrimStartAfterSpaces(x: string, s: string)
    requires forall i :: 0 <= i < |x| ==> IsSpace(x[i])
    requires s != [] && !IsSpace(s[0])
    ensures TrimStart(x + s) == s
    decreases |x|
  {
    if x != [] {
      assert (x + s)[0] == x[0] && (x + s)[1..] == x[1..] + s;
      TrimStartAfterSpaces(x[1..], s);
    } else {
      assert x + s == s;
    }
  }

  /** `strip` drops leading whitespace from a text whose remainder neither starts nor ends with whitespace. */
  lemma StripAfterSpaces(x: string, s: string)
    requires forall i :: 0 <= i < |x| ==> IsSpace(x[i])
    requires s != [] && !IsSpace(s[0]) && !IsSpace(s[|s| - 1])
    ensures Strip(x + s) == s
  {
    TrimStartAfterSpaces(x, s);
  }

  /** `s.lstrip()`. */
  function TrimStart(s: string): (r: string)
    ensures |r| <= |s| && r == s[|s| - |r|..]
    ensures forall i :: 0 <= i < |s| - |r| ==> IsSpace(s[i])
    ensures r == [] || !IsSpace(r[0])
  {
    if s != [] && IsSpace(s[0]) then TrimStart(s[1..]) else s
  }

  /** `s.rstrip()`. */
  function TrimEnd(s: string): (r: string)
    ensures |r| <= |s| && r == s[..|r|]
    ensures forall i :: |r| <= i < |s| ==> IsSpace(s[i])
    ensures r == [] || !IsSpace(r[|r| - 1])
  {
    if s != [] && IsSpace(s[|s| - 1]) then TrimEnd(s[..|s| - 1]) else s
  }

  /** `s.strip()`: a contiguous piece of `s` that neither starts nor ends with whitespace. */
  function Strip(s: string): (r: string)
    ensures r == [] || (!IsSpace(r[0]) && !IsSpace(r[|r| - 1]))
    ensures forall c :: c in r ==> c in s
  {
    TrimEnd(TrimStart(s))
  }

  /** `s.strip()` is empty exactly when `s` is all whitespace. */
  lemma StripEmptyIffBlank(s: string)
    ensures Strip(s) == [] <==> forall i :: 0 <= i < |s| ==> IsSpace(s[i])
  {
    var t := TrimStart(s);
    if t != [] {
      assert t[0] == s[|s| - |t|];
    }
  }

  /** Stripping a stripped string changes nothing. */
  lemma StripIdempotent(s: string)
    ensures Strip(Strip(s)) == Strip(s)
  {
    var r := Strip(s);
    assert TrimStart(r) == r;
  }

  /** Index of the first line break in `s`, or `|s|` when there is none. */
  function FirstBreak(s: string): (k: nat)
    ensures k <= |s|
    ensures forall j :: 0 <= j < k ==> !IsLineBreak(s[j])
    ensures k < |s| ==> IsLineBreak(s[k])
  {
    if s == [] || IsLineBreak(s[0]) then 0 else 1 + FirstBreak(s[1..])
  }

  /**
   * `s.splitlines()`: the lines of `s` without their terminators; a final terminator
   * opens no further line and `\r\n` ends a single line.
   */
  function SplitLines(s: string): (lines: seq<string>)
    ensures forall i, j :: 0 <= i < |lines| && 0 <= j < |lines[i]| ==> !IsLineBreak(lines[i][j])
    ensures s == [] <==> lines == []
    decreases |s|
  {
    if s == [] then []
    else
      var k := FirstBreak(s);
      if k == |s| then [s]
      else
        var next := if s[k] == '\r' && k + 1 < |s| && s[k + 1] == '\n' then k + 2 else k + 1;
        [s[..k]] + SplitLines(s[next..])
  }
}
