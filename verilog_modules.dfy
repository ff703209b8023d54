/**
 * The Verilog module extractor of src/utils/extract_module.py: the regular expression
 * `module\s+NAME\b.*?endmodule` (with `.` matching newlines) searched for one named module,
 * and its variant `module\s+(\w+)\b.*?endmodule` iterated over the whole text.
 *
 * The regex engine is modelled as a scanner. At a start position the keyword must occur;
 * `\s+` takes the whole whitespace run, since the name that follows starts with a word
 * character and so no shorter run lets the rest match; `\b` asks that no word character
 * follow the name; and the lazy `.*?` stops at the first `endmodule` after the name.
 * A search takes the leftmost start position at which this succeeds.
 */
module VerilogModules {
  import opened Wrappers
  import Seqs
  import Strings

  const Keyword: string := "module"
  const Terminator: string := "endmodule"

  /** `\w`, on ASCII. */
  predicate IsWordChar(c: char) {
    'a' <= c <= 'z' || 'A' <= c <= 'Z' || '0' <= c <= '9' || c == '_'
  }

  /** A module name that stands for itself inside the pattern. */
  predicate IsIdentifier(name: string) {
    |name| > 0 && forall i {:trigger IsWordChar(name[i])} :: 0 <= i < |name| ==> IsWordChar(name[i])
  }

  /** `p` occurs in `s` at position `k`. */
  predicate At(s: string, k: nat, p: string) {
    k + |p| <= |s| && s[k..k + |p|] == p
  }

  /** A piece cut out of `s` occurs where it was cut from. */
  lemma AtOwnSlice(s: string, a: nat, b: nat)
    requires a <= b <= |s|
    ensures At(s, a, s[a..b])
  {
  }

  /** The length of the run of `\s` characters (those of `str.isspace`) that starts at `k`. */
  function SpaceRun(s: string, k: nat): (n: nat)
    requires k <= |s|
    ensures k + n <= |s|
    ensures forall t {:trigger Strings.IsSpace(s[t])} :: k <= t < k + n ==> Strings.IsSpace(s[t])
    ensures k + n == |s| || !Strings.IsSpace(s[k + n])
    decreases |s| - k
  {
    if k < |s| && Strings.IsSpace(s[k]) then 1 + SpaceRun(s, k + 1) else 0
  }

  /** The length of the run of `\w` characters that starts at `k`. */
  function WordRun(s: string, k: nat): (n: nat)
    requires k <= |s|
    ensures k + n <= |s|
    ensures forall t {:trigger IsWordChar(s[t])} :: k <= t < k + n ==> IsWordChar(s[t])
    ensures k + n == |s| || !IsWordChar(s[k + n])
    decreases |s| - k
  {
    if k < |s| && IsWordChar(s[k]) then 1 + WordRun(s, k + 1) else 0
  }

  /** The first position at or after `k` where `p` occurs. */
  function FindFrom(s: string, p: string, k: nat): (r: Option<nat>)
    requires k <= |s|
    ensures r.Some? ==> k <= r.value && At(s, r.value, p)
    ensures r.Some? ==> forall q :: k <= q < r.value ==> !At(s, q, p)
    ensures r.None? ==> forall q :: k <= q <= |s| ==> !At(s, q, p)
    decreases |s| - k
  {
    if At(s, k, p) then Some(k)
    else if k == |s| then None
    else FindFrom(s, p, k + 1)
  }

  /** The end of the match of `module\s+NAME\b.*?endmodule` that starts at `i`, if there is one. */
  function MatchAt(s: string, name: string, i: nat): (r: Option<nat>)
    ensures r.Some? ==> i + |Keyword| + 1 + |name| + |Terminator| <= r.value <= |s|
  {
    if !At(s, i, Keyword) then None
    else
      var j := i + |Keyword| + SpaceRun(s, i + |Keyword|);
      var p := j + |name|;
      if j == i + |Keyword| || !At(s, j, name) || (p < |s| && IsWordChar(s[p])) then None
      else
        match FindFrom(s, Terminator, p)
        case None => None
        case Some(q) => Some(q + |Terminator|)
  }

  /**
   * The regular expression's own reading: the keyword at `i`, `r` whitespace characters,
   * the name, a word boundary, and the text up to and including the first `endmodule`.
   */
  ghost predicate MatchesWith(s: string, name: string, i: nat, r: nat, e: nat) {
    var j := i + |Keyword| + r;
    var p := j + |name|;
    && At(s, i, Keyword)
    && 1 <= r && p <= |s|
    && (forall t {:trigger Strings.IsSpace(s[t])} :: i + |Keyword| <= t < j ==> Strings.IsSpace(s[t]))
    && At(s, j, name)
    && (p == |s| || !IsWordChar(s[p]))
    && p + |Terminator| <= e <= |s|
    && At(s, e - |Terminator|, Terminator)
    && (forall q :: p <= q < e - |Terminator| ==> !At(s, q, Terminator))
  }

  /** `s[i..e]` is a match of the pattern for `name`. */
  ghost predicate Matches(s: string, name: string, i: nat, e: nat) {
    exists r: nat :: MatchesWith(s, name, i, r, e)
  }

  /** Every match the scanner reports is a match of the pattern. */
  lemma MatchAtSound(s: string, name: string, i: nat)
    requires i <= |s| && MatchAt(s, name, i).Some?
    ensures Matches(s, name, i, MatchAt(s, name, i).value)
  {
    assert MatchesWith(s, name, i, SpaceRun(s, i + |Keyword|), MatchAt(s, name, i).value);
  }

  /** A whitespace run that ends before a non-whitespace character is the whole run. */
  lemma SpaceRunExact(s: string, k: nat, r: nat)
    requires k + r < |s|
    requires forall t {:trigger Strings.IsSpace(s[t])} :: k <= t < k + r ==> Strings.IsSpace(s[t])
    requires !Strings.IsSpace(s[k + r])
    ensures SpaceRun(s, k) == r
  {
    var n := SpaceRun(s, k);
  }

  /** An occurrence with none before it, from `k` on, is the one `FindFrom` reports. */
  lemma FindFromExact(s: string, p: string, k: nat, x: nat)
    requires k <= x && At(s, x, p)
    requires forall q :: k <= q < x ==> !At(s, q, p)
    ensures FindFrom(s, p, k) == Some(x)
  {
  }

  /** For an identifier, every match of the pattern is the one the scanner reports. */
  lemma MatchAtComplete(s: string, name: string, i: nat, e: nat)
    requires IsIdentifier(name)
    requires Matches(s, name, i, e)
    ensures i <= |s| && MatchAt(s, name, i) == Some(e)
  {
    var r: nat :| MatchesWith(s, name, i, r, e);
    MatchesWithScan(s, name, i, r, e);
  }

  /** The scanner follows the regular expression's reading when the whitespace run has length `r`. */
  lemma MatchesWithScan(s: string, name: string, i: nat, r: nat, e: nat)
    requires IsIdentifier(name) && MatchesWith(s, name, i, r, e)
    ensures MatchAt(s, name, i) == Some(e)
  {
    MatchesWithParts(s, name, i, r, e);
    PartsMatch(s, name, i, r, e - |Terminator|);
  }

  /** Proof step, unfolding `MatchAt`: the scanner's conditions, met one by one, give its result. */
  lemma MatchAtFrom(s: string, name: string, i: nat, r: nat, q: nat)
    requires At(s, i, Keyword) && 1 <= r && SpaceRun(s, i + |Keyword|) == r
    requires At(s, i + |Keyword| + r, name)
    requires i + |Keyword| + r + |name| == |s| || !IsWordChar(s[i + |Keyword| + r + |name|])
    requires FindFrom(s, Terminator, i + |Keyword| + r + |name|) == Some(q)
    ensures MatchAt(s, name, i) == Some(q + |Terminator|)
  {
  }

  /** A match starts with the keyword and a whitespace character and ends with the terminator. */
  lemma MatchAtShape(s: string, name: string, i: nat)
    requires i <= |s| && MatchAt(s, name, i).Some?
    ensures var e := MatchAt(s, name, i).value;
      At(s, i, Keyword) && Strings.IsSpace(s[i + |Keyword|]) && At(s, e - |Terminator|, Terminator)
  {
  }

  /** The search loop of `re.search`: the first position from `i` to `n` at which `f` matches, with what it reports. */
  function Search<T>(f: nat -> Option<T>, i: nat, n: nat): (r: Option<(nat, T)>)
    requires i <= n
    ensures r.Some? ==> i <= r.value.0 <= n && f(r.value.0) == Some(r.value.1)
    decreases n - i
  {
    match f(i)
    case Some(x) => Some((i, x))
    case None => if i == n then None else Search(f, i + 1, n)
  }

  /** The search reports the leftmost position that matches, and `None` only when none does. */
  lemma {:induction false} SearchLeftmost<T>(f: nat -> Option<T>, i: nat, n: nat)
    requires i <= n
    ensures Search(f, i, n).Some? ==> forall k :: i <= k < Search(f, i, n).value.0 ==> f(k).None?
    ensures Search(f, i, n).None? ==> forall k :: i <= k <= n ==> f(k).None?
    decreases n - i
  {
    if f(i).None? && i < n {
      SearchLeftmost(f, i + 1, n);
    }
  }

  /** `re.search` with the pattern for `name`, from `i`: the leftmost start of a match and its end. */
  function FindModule(s: string, name: string, i: nat): (r: Option<(nat, nat)>)
    requires i <= |s|
    ensures r.Some? ==> i <= r.value.0 <= |s| && MatchAt(s, name, r.value.0) == Some(r.value.1)
  {
    Search(k => MatchAt(s, name, k), i, |s|)
  }

  /** The outline of a match: the keyword, a whitespace character, room for the name, and the terminator at the end. */
  predicate HasModuleShape(text: string, nameLength: nat) {
    && |Keyword| + 1 + nameLength + |Terminator| <= |text|
    && text[..|Keyword|] == Keyword && Strings.IsSpace(text[|Keyword|])
    && text[|text| - |Terminator|..] == Terminator
  }

  /** The text of a match has the outline of one. */
  lemma MatchTextShape(s: string, name: string, i: nat, e: nat)
    requires MatchAt(s, name, i) == Some(e)
    ensures i <= e <= |s| && HasModuleShape(s[i..e], |name|)
  {
    MatchAtShape(s, name, i);
    assert s[i..e][..|Keyword|] == s[i..i + |Keyword|];
    assert s[i..e][|Keyword|] == s[i + |Keyword|];
    assert s[i..e][e - i - |Terminator|..] == s[e - |Terminator|..e];
  }

  /** `get_module`: the text of the leftmost match, or `None`. */
  function GetModule(s: string, name: string): (r: Option<string>)
    requires IsIdentifier(name)
    ensures r.Some? ==> HasModuleShape(r.value, |name|)
  {
    match FindModule(s, name, 0)
    case None => None
    case Some((i, e)) =>
      MatchTextShape(s, name, i, e);
      Some(s[i..e])
  }

  /** A result is the text of a match of the pattern, and no match starts further left. */
  lemma GetModuleIsLeftmostMatch(s: string, name: string) returns (i: nat, e: nat)
    requires IsIdentifier(name) && GetModule(s, name).Some?
    ensures i <= e <= |s| && Matches(s, name, i, e) && GetModule(s, name).value == s[i..e]
    ensures forall k: nat, f: nat :: k < i ==> !Matches(s, name, k, f)
  {
    var search := k => MatchAt(s, name, k);
    var found := Search(search, 0, |s|).value;
    i, e := found.0, found.1;
    SearchLeftmost(search, 0, |s|);
    MatchAtSound(s, name, i);
    forall k: nat, f: nat | k < i
      ensures !Matches(s, name, k, f)
    {
      assert search(k) == MatchAt(s, name, k);
      if Matches(s, name, k, f) {
        MatchAtComplete(s, name, k, f);
      }
    }
  }

  /** `get_module` returns `None` exactly when the pattern matches nowhere. */
  lemma GetModuleNoneIffNoMatch(s: string, name: string)
    requires IsIdentifier(name)
    ensures GetModule(s, name).None? <==> forall i: nat, e: nat :: !Matches(s, name, i, e)
  {
    if GetModule(s, name).None? {
      var search := k => MatchAt(s, name, k);
      SearchLeftmost(search, 0, |s|);
      forall i: nat, e: nat
        ensures !Matches(s, name, i, e)
      {
        assert search(i) == MatchAt(s, name, i);
        if Matches(s, name, i, e) {
          MatchAtComplete(s, name, i, e);
        }
      }
    } else {
      var i, e := GetModuleIsLeftmostMatch(s, name);
    }
  }

  const DocumentedText: string := "module test(input a); endmodule"

  /** The documented example starts with the keyword. */
  lemma DocumentedTextKeyword()
    ensures At(DocumentedText, 0, Keyword)
  {
    var s := DocumentedText;
    assert s[0..6] == [s[0], s[1], s[2], s[3], s[4], s[5]];
  }

  /** The documented example declares `test` after one space. */
  lemma DocumentedTextName()
    ensures At(DocumentedText, 7, "test")
  {
    var s := DocumentedText;
    assert s[7..11] == [s[7], s[8], s[9], s[10]];
    assert s[7] == 't' && s[8] == 'e' && s[9] == 's' && s[10] == 't';
  }

  /** The documented example ends with the terminator. */
  lemma DocumentedTextEnd()
    ensures At(DocumentedText, 22, Terminator)
  {
    var s := DocumentedText;
    assert s[22..31] == [s[22], s[23], s[24], s[25], s[26], s[27], s[28], s[29], s[30]];
  }

  /** One space separates the keyword from the name, and the name is followed by `(`. */
  lemma DocumentedTextSeparators()
    ensures SpaceRun(DocumentedText, 6) == 1 && !IsWordChar(DocumentedText[11])
  {
    SpaceRunExact(DocumentedText, 6, 1);
  }

  /** In the documented example the first `endmodule` after the name is the one that ends the text. */
  lemma DocumentedTextTerminator()
    ensures FindFrom(DocumentedText, Terminator, 11) == Some(22)
  {
    var s := DocumentedText;
    DocumentedTextEnd();
    forall q | 11 <= q < 22
      ensures !At(s, q, Terminator)
    {
      assert s[q..q + 9][0] == s[q] != 'e';
    }
    FindFromExact(s, Terminator, 11, 22);
  }

  /** The example in `get_module`'s documentation: the whole input is the module. */
  lemma DocumentedExample()
    ensures GetModule(DocumentedText, "test") == Some(DocumentedText)
  {
    var s := DocumentedText;
    DocumentedTextKeyword();
    DocumentedTextName();
    DocumentedTextSeparators();
    DocumentedTextTerminator();
    MatchAtFrom(s, "test", 0, 1, 22);
    assert FindModule(s, "test", 0) == Some((0, 31));
    assert s[0..31] == s;
  }

  const BoundaryText: string := "module foobar; endmodule"

  /** Where the keyword occurs in `BoundaryText`: at its start and inside the terminator. */
  lemma BoundaryTextKeywords(i: nat)
    requires 1 <= i <= |BoundaryText| && i != 18
    ensures !At(BoundaryText, i, Keyword)
  {
    var s := BoundaryText;
    if i + 6 <= |s| {
      assert s[i..i + 6][0] == s[i] && s[i..i + 6][1] == s[i + 1];
    }
  }

  /** The name must end at a word boundary: `foo` is not found in a text that only declares `foobar`. */
  lemma WordBoundaryExample()
    ensures GetModule(BoundaryText, "foo") == None
  {
    var s := BoundaryText;
    BoundaryTextStart();
    BoundaryTextTerminator();
    forall i | 1 <= i <= |s|
      ensures MatchAt(s, "foo", i).None?
    {
      if i != 18 {
        BoundaryTextKeywords(i);
      }
    }
  }

  /** Proof step of `WordBoundaryExample`: at the start, `foo` is followed by the word character `b`. */
  lemma BoundaryTextStart()
    ensures MatchAt(BoundaryText, "foo", 0).None?
  {
    var s := BoundaryText;
    assert At(s, 0, Keyword) && At(s, 7, "foo") by {
      assert forall t :: 0 <= t < 6 ==> s[0..6][t] == s[t];
      assert forall t :: 0 <= t < 3 ==> s[7..10][t] == s[7 + t];
    }
    SpaceRunExact(s, 6, 1);
    assert IsWordChar(s[10]);
  }

  /** Proof step of `WordBoundaryExample`: the keyword inside the terminator is followed by no whitespace. */
  lemma BoundaryTextTerminator()
    ensures MatchAt(BoundaryText, "foo", 18).None?
  {
    assert SpaceRun(BoundaryText, 24) == 0;
  }

  /** A declaration found by the `\w+` pattern: its name and where its text starts and ends. */
  datatype Decl = Decl(name: string, start: nat, end: nat)

  /** The match of `module\s+(\w+)\b.*?endmodule` that starts at `i`, if there is one. */
  function DeclAt(s: string, i: nat): (r: Option<Decl>)
    ensures r.Some? ==> r.value.start == i && IsIdentifier(r.value.name)
    ensures r.Some? ==> i + |Keyword| + 1 + |r.value.name| + |Terminator| <= r.value.end <= |s|
  {
    if !At(s, i, Keyword) then None
    else
      var j := i + |Keyword| + SpaceRun(s, i + |Keyword|);
      var w := WordRun(s, j);
      if j == i + |Keyword| || w == 0 then None
      else
        match FindFrom(s, Terminator, j + w)
        case None => None
        case Some(q) => Some(Decl(s[j..j + w], i, q + |Terminator|))
  }

  /** At `i`: the keyword, a whitespace run of length `r`, a word run of length `w`, and the terminator first found at `q` after it. */
  predicate DeclParts(s: string, i: nat, r: nat, w: nat, q: nat) {
    && At(s, i, Keyword) && 1 <= r && SpaceRun(s, i + |Keyword|) == r
    && 1 <= w && WordRun(s, i + |Keyword| + r) == w
    && FindFrom(s, Terminator, i + |Keyword| + r + w) == Some(q)
  }

  /** The word run after the keyword and its whitespace, used as the name, gives the same match. */
  lemma WordRunMatch(s: string, i: nat, r: nat, w: nat, q: nat)
    requires DeclParts(s, i, r, w, q)
    ensures MatchAt(s, s[i + |Keyword| + r..i + |Keyword| + r + w], i) == Some(q + |Terminator|)
  {
    var j := i + |Keyword| + r;
    var name := s[j..j + w];
    WordRunEnd(s, j, w);
    AtOwnSlice(s, j, j + w);
    MatchAtFrom(s, name, i, r, q);
  }

  /** Proof step: a word run of length `w` ends at a non-word character or at the end of the text. */
  lemma WordRunEnd(s: string, j: nat, w: nat)
    requires j <= |s| && WordRun(s, j) == w
    ensures j + w <= |s| && (j + w == |s| || !IsWordChar(s[j + w]))
  {
  }

  /** Proof step of `MatchesWithScan`: parts whose word run spells `name` give the match for `name`. */
  lemma PartsMatch(s: string, name: string, i: nat, r: nat, q: nat)
    requires DeclParts(s, i, r, |name|, q)
    requires s[i + |Keyword| + r..i + |Keyword| + r + |name|] == name
    ensures MatchAt(s, name, i) == Some(q + |Terminator|)
  {
    WordRunMatch(s, i, r, |name|, q);
  }

  /** What a declaration is made of: the keyword, a whitespace run of length `r`, a word run of length `w` that is its name, and the terminator found from there. */
  lemma DeclAtParts(s: string, i: nat, d: Decl) returns (r: nat, w: nat, q: nat)
    requires DeclAt(s, i) == Some(d)
    ensures DeclParts(s, i, r, w, q)
    ensures d.name == s[i + |Keyword| + r..i + |Keyword| + r + w] && d.end == q + |Terminator|
  {
    r := SpaceRun(s, i + |Keyword|);
    w := WordRun(s, i + |Keyword| + r);
    q := FindFrom(s, Terminator, i + |Keyword| + r + w).value;
  }

  /** A declaration is the match of `get_module`'s pattern for its own name at its position. */
  lemma DeclAtIsMatch(s: string, i: nat, d: Decl)
    requires DeclAt(s, i) == Some(d)
    ensures MatchAt(s, d.name, i) == Some(d.end)
  {
    var r, w, q := DeclAtParts(s, i, d);
    WordRunMatch(s, i, r, w, q);
  }

  /** A run of `\w` characters of length `n` that ends at a non-word character or at the end is the whole run. */
  lemma WordRunExact(s: string, k: nat, n: nat)
    requires k + n <= |s|
    requires forall t {:trigger IsWordChar(s[t])} :: k <= t < k + n ==> IsWordChar(s[t])
    requires k + n == |s| || !IsWordChar(s[k + n])
    ensures WordRun(s, k) == n
    decreases n
  {
    if n > 0 {
      WordRunExact(s, k + 1, n - 1);
    }
  }

  /** An identifier that occurs at `j` and ends at a word boundary is the whole word run there. */
  lemma IdentifierWordRun(s: string, j: nat, name: string)
    requires IsIdentifier(name) && At(s, j, name)
    requires j + |name| == |s| || !IsWordChar(s[j + |name|])
    ensures WordRun(s, j) == |name| && IsWordChar(s[j])
  {
    forall t | j <= t < j + |name|
      ensures IsWordChar(s[t])
    {
      assert s[t] == s[j..j + |name|][t - j] == name[t - j];
    }
    WordRunExact(s, j, |name|);
  }

  /** A match of the pattern for an identifier, with a whitespace run of length `r`, is made of a declaration's parts. */
  lemma MatchesWithParts(s: string, name: string, i: nat, r: nat, e: nat)
    requires IsIdentifier(name) && MatchesWith(s, name, i, r, e)
    ensures DeclParts(s, i, r, |name|, e - |Terminator|)
    ensures s[i + |Keyword| + r..i + |Keyword| + r + |name|] == name
  {
    var j := i + |Keyword| + r;
    assert At(s, i, Keyword) && At(s, j, name);
    IdentifierWordRun(s, j, name);
    assert !Strings.IsSpace(s[j]);
    SpaceRunExact(s, i + |Keyword|, r);
    FindFromExact(s, Terminator, j + |name|, e - |Terminator|);
  }

  /** A match of the pattern for an identifier is made of a declaration's parts, with a whitespace run of some length `r`. */
  lemma MatchParts(s: string, name: string, i: nat, e: nat) returns (r: nat)
    requires IsIdentifier(name) && Matches(s, name, i, e)
    ensures DeclParts(s, i, r, |name|, e - |Terminator|)
    ensures s[i + |Keyword| + r..i + |Keyword| + r + |name|] == name
  {
    r :| MatchesWith(s, name, i, r, e);
    MatchesWithParts(s, name, i, r, e);
  }

  /** Every match of the pattern for an identifier is the declaration found at its start. */
  lemma DeclAtComplete(s: string, name: string, i: nat, e: nat)
    requires IsIdentifier(name) && Matches(s, name, i, e)
    ensures DeclAt(s, i) == Some(Decl(name, i, e))
  {
    var r := MatchParts(s, name, i, e);
    DeclAtFrom(s, i, r, |name|, e - |Terminator|);
    var d := DeclAt(s, i).value;
    assert d.name == name && d.start == i && d.end == e;
  }

  /** Proof step, unfolding `DeclAt`: the parts of a declaration, met one by one, give the declaration. */
  lemma DeclAtFrom(s: string, i: nat, r: nat, w: nat, q: nat)
    requires DeclParts(s, i, r, w, q)
    ensures DeclAt(s, i).Some? && DeclAt(s, i).value.start == i && DeclAt(s, i).value.end == q + |Terminator|
    ensures DeclAt(s, i).value.name == s[i + |Keyword| + r..i + |Keyword| + r + w]
  {
    var j := i + |Keyword| + r;
    assert j == i + |Keyword| + SpaceRun(s, i + |Keyword|) && j != i + |Keyword|;
  }

  /** `re.search` with the `\w+` pattern, from `i`: the leftmost declaration. */
  function NextDecl(s: string, i: nat): (r: Option<(nat, Decl)>)
    requires i <= |s|
    ensures r.Some? ==> i <= r.value.0 <= |s| && DeclAt(s, r.value.0) == Some(r.value.1)
  {
    Search(k => DeclAt(s, k), i, |s|)
  }

  /** The search with the `\w+` pattern reports a match of the pattern for the name it found, no match for any identifier starts
      between `i` and it, and it reports `None` only when no match starts at or after `i`. */
  lemma NextDeclIsLeftmost(s: string, i: nat)
    requires i <= |s|
    ensures NextDecl(s, i).Some? ==>
      var (k, d) := NextDecl(s, i).value;
      && Matches(s, d.name, k, d.end)
      && forall m: nat, name: string, e: nat :: i <= m < k && IsIdentifier(name) ==> !Matches(s, name, m, e)
    ensures NextDecl(s, i).None? ==>
      forall m: nat, name: string, e: nat :: i <= m && IsIdentifier(name) ==> !Matches(s, name, m, e)
  {
    var f := k => DeclAt(s, k);
    SearchLeftmost(f, i, |s|);
    forall m: nat, name: string, e: nat | i <= m && IsIdentifier(name) && Matches(s, name, m, e)
      ensures m <= |s| && f(m).Some?
    {
      DeclAtComplete(s, name, m, e);
    }
    if NextDecl(s, i).Some? {
      var (k, d) := NextDecl(s, i).value;
      DeclAtIsMatch(s, k, d);
      MatchAtSound(s, d.name, k);
    }
  }

  /** `finditer` from `i`: each search resumes where the previous match ended. */
  function AllDecls(s: string, i: nat): (r: seq<Decl>)
    requires i <= |s|
    ensures forall d :: d in r ==> i <= d.start < d.end <= |s|
    decreases |s| - i
  {
    match NextDecl(s, i)
    case None => []
    case Some((_, d)) => [d] + AllDecls(s, d.end)
  }

  /** Every element `finditer` yields is a declaration at its own start position. */
  lemma {:induction false} AllDeclsAreDecls(s: string, i: nat)
    requires i <= |s|
    ensures forall d :: d in AllDecls(s, i) ==> DeclAt(s, d.start) == Some(d)
    decreases |s| - i
  {
    match NextDecl(s, i)
    case None =>
    case Some((_, d)) =>
      AllDeclsAreDecls(s, d.end);
      assert AllDecls(s, i) == [d] + AllDecls(s, d.end);
  }

  /** Each declaration ends no later than the next one starts. */
  predicate Ordered(ds: seq<Decl>) {
    forall k :: 0 <= k < |ds| - 1 ==> ds[k].end <= ds[k + 1].start
  }

  /** A declaration that ends before an ordered list starts can be put in front of it. */
  lemma OrderedCons(d: Decl, ds: seq<Decl>)
    requires Ordered(ds) && (ds != [] ==> d.end <= ds[0].start)
    ensures Ordered([d] + ds)
  {
    var r := [d] + ds;
    forall k | 0 <= k < |r| - 1
      ensures r[k].end <= r[k + 1].start
    {
      if k > 0 {
        assert r[k] == ds[k - 1] && r[k + 1] == ds[k];
      }
    }
  }

  /** Matches do not overlap: each search resumes where the previous match ended. */
  lemma {:induction false} AllDeclsOrdered(s: string, i: nat)
    requires i <= |s|
    ensures Ordered(AllDecls(s, i))
    decreases |s| - i
  {
    match NextDecl(s, i)
    case None =>
    case Some((_, d)) =>
      var rest := AllDecls(s, d.end);
      AllDeclsOrdered(s, d.end);
      if rest != [] {
        assert rest[0] in rest;
      }
      OrderedCons(d, rest);
      assert AllDecls(s, i) == [d] + rest;
  }

  /** The text of a declaration. */
  function Text(s: string, d: Decl): string
    requires d.start <= d.end <= |s|
  {
    s[d.start..d.end]
  }

  /** Declarations that lie inside `s`. */
  predicate InText(s: string, ds: seq<Decl>) {
    forall d :: d in ds ==> d.start <= d.end <= |s|
  }

  /** A Python dict from module names to their text: the keys in insertion order, and the entry of each key. */
  datatype ModuleDict = ModuleDict(keys: seq<string>, code: map<string, string>) {
    /** Each key is listed once, and the listed keys are those with an entry. */
    predicate Valid() {
      && Seqs.Distinct(keys)
      && (forall k :: k in keys ==> k in code)
      && (forall k :: k in code ==> k in keys)
    }
  }

  /** The empty dict `{}`. */
  const EmptyDict := ModuleDict([], map[])

  /** `dict[k] = v`: a new key goes after the others; a key already present keeps its place and takes the new value. */
  function Put(dict: ModuleDict, k: string, v: string): (r: ModuleDict)
    ensures dict.Valid() ==> r.Valid()
    ensures dict.keys <= r.keys && k in r.keys
    ensures k in r.code && r.code[k] == v
    ensures forall x :: x != k ==> (x in r.code <==> x in dict.code)
    ensures forall x :: x != k && x in dict.code ==> r.code[x] == dict.code[x]
  {
    ModuleDict(if k in dict.keys then dict.keys else dict.keys + [k], dict.code[k := v])
  }

  /** `modules[name] = code` for each declaration in turn, into `acc`. */
  function Store(s: string, ds: seq<Decl>, acc: ModuleDict): (r: ModuleDict)
    requires InText(s, ds)
    ensures acc.Valid() ==> r.Valid()
    ensures acc.keys <= r.keys
    ensures forall k :: k in acc.code ==> k in r.code
    ensures forall d :: d in ds ==> d.name in r.code
  {
    if ds == [] then acc
    else Store(s, ds[1..], Put(acc, ds[0].name, Text(s, ds[0])))
  }

  /** The names of the declarations, in order. */
  function Names(ds: seq<Decl>): (r: seq<string>)
    ensures |r| == |ds| && forall t :: 0 <= t < |ds| ==> r[t] == ds[t].name
  {
    seq(|ds|, t requires 0 <= t < |ds| => ds[t].name)
  }

  /** The keys follow the first declaration of each name: those given first, then each new name once, first-seen. */
  lemma {:induction false} StoreKeyOrder(s: string, ds: seq<Decl>, acc: ModuleDict)
    requires InText(s, ds)
    ensures Store(s, ds, acc).keys == Seqs.AppendNew(acc.keys, Names(ds))
    decreases |ds|
  {
    if ds != [] {
      var names := Names(ds);
      assert names[0] == ds[0].name && names[1..] == Names(ds[1..]);
      StoreKeyOrder(s, ds[1..], Put(acc, ds[0].name, Text(s, ds[0])));
    }
  }

  /** The first declaration of a name puts its key right after the keys of the declarations before it. */
  lemma FirstDeclarationPlacesKey(s: string, n: nat)
    requires n < |AllDecls(s, 0)|
    requires forall u :: 0 <= u < n ==> AllDecls(s, 0)[u].name != AllDecls(s, 0)[n].name
    ensures InText(s, AllDecls(s, 0))
    ensures var keys := Store(s, AllDecls(s, 0), EmptyDict).keys;
      var before := Seqs.AppendNew([], Names(AllDecls(s, 0)[..n]));
      before <= keys && |before| < |keys| && keys[|before|] == AllDecls(s, 0)[n].name
  {
    AllDeclsInText(s, 0);
    FirstPlacement(s, AllDecls(s, 0), n);
  }

  /** Proof step of `FirstDeclarationPlacesKey`, for any list of declarations inside the text. */
  lemma FirstPlacement(s: string, ds: seq<Decl>, n: nat)
    requires InText(s, ds) && n < |ds|
    requires forall u :: 0 <= u < n ==> ds[u].name != ds[n].name
    ensures var keys := Store(s, ds, EmptyDict).keys;
      var before := Seqs.AppendNew([], Names(ds[..n]));
      before <= keys && |before| < |keys| && keys[|before|] == ds[n].name
  {
    StoreKeyOrder(s, ds, EmptyDict);
    var names := Names(ds);
    assert names[..n] == Names(ds[..n]);
    assert names[n] !in names[..n] by {
      forall u | 0 <= u < n
        ensures names[..n][u] != names[n]
      {
        assert names[..n][u] == ds[u].name;
      }
    }
    Seqs.AppendNewFirstSeen([], names, n);
  }

  /** Found declarations lie inside the text. */
  lemma AllDeclsInText(s: string, i: nat)
    requires i <= |s|
    ensures InText(s, AllDecls(s, i))
  {
  }

  /** `extract_all_modules`: the loop over the matches, filling the dict. */
  method ExtractAllModules(s: string) returns (modules: ModuleDict)
    ensures InText(s, AllDecls(s, 0)) && modules == Store(s, AllDecls(s, 0), EmptyDict)
    ensures modules.Valid() && modules.keys == Seqs.AppendNew([], Names(AllDecls(s, 0)))
  {
    modules := EmptyDict;
    var pos := 0;
    while true
      invariant pos <= |s| && InText(s, AllDecls(s, pos))
      invariant Store(s, AllDecls(s, pos), modules) == Store(s, AllDecls(s, 0), EmptyDict)
      decreases |s| - pos
    {
      match NextDecl(s, pos)
      case None =>
        StoreKeyOrder(s, AllDecls(s, 0), EmptyDict);
        return;
      case Some((_, d)) =>
        modules := Put(modules, d.name, s[d.start..d.end]);
        pos := d.end;
    }
  }

  /** The stored entry for a name is the text of its last declaration; earlier ones are overwritten. */
  lemma {:induction false} LastDefinitionWins(s: string, ds: seq<Decl>, acc: ModuleDict, t: nat)
    requires InText(s, ds) && t < |ds|
    requires forall u :: t < u < |ds| ==> ds[u].name != ds[t].name
    ensures ds[t].name in Store(s, ds, acc).code && Store(s, ds, acc).code[ds[t].name] == Text(s, ds[t])
    decreases |ds|
  {
    var next := Put(acc, ds[0].name, Text(s, ds[0]));
    if t == 0 {
      StoreKeepsAbsent(s, ds[1..], next, ds[0].name);
    } else {
      LastDefinitionWins(s, ds[1..], next, t - 1);
    }
  }

  /** A name no later declaration uses keeps its entry. */
  lemma {:induction false} StoreKeepsAbsent(s: string, ds: seq<Decl>, acc: ModuleDict, k: string)
    requires InText(s, ds) && k in acc.code
    requires forall u :: 0 <= u < |ds| ==> ds[u].name != k
    ensures k in Store(s, ds, acc).code && Store(s, ds, acc).code[k] == acc.code[k]
    decreases |ds|
  {
    if ds != [] {
      StoreKeepsAbsent(s, ds[1..], Put(acc, ds[0].name, Text(s, ds[0])), k);
    }
  }

  /** The keys are the names in the entries given plus the declared names. */
  lemma {:induction false} StoreKeys(s: string, ds: seq<Decl>, acc: ModuleDict)
    requires InText(s, ds)
    ensures forall k :: k in Store(s, ds, acc).code <==> k in acc.code || exists d :: d in ds && d.name == k
    decreases |ds|
  {
    if ds != [] {
      StoreKeys(s, ds[1..], Put(acc, ds[0].name, Text(s, ds[0])));
      assert forall d :: d in ds <==> d == ds[0] || d in ds[1..];
    }
  }

  /** The position of the last declaration named `k`. */
  lemma {:induction false} LastNamed(ds: seq<Decl>, k: string) returns (t: nat)
    requires exists d :: d in ds && d.name == k
    ensures t < |ds| && ds[t].name == k
    ensures forall u :: t < u < |ds| ==> ds[u].name != k
  {
    var n := |ds| - 1;
    if ds[n].name == k {
      t := n;
    } else {
      var d :| d in ds && d.name == k;
      assert d in ds[..n] by {
        var j :| 0 <= j < |ds| && ds[j] == d;
        assert ds[..n][j] == d;
      }
      t := LastNamed(ds[..n], k);
    }
  }

  /**
   * Every entry of `extract_all_modules` is keyed by a declared identifier, and its value is
   * the match of `get_module`'s pattern for that name at the declaration's position.
   */
  lemma ExtractedEntriesAreMatches(s: string, k: string)
    requires k in Store(s, AllDecls(s, 0), EmptyDict).code
    ensures IsIdentifier(k)
    ensures exists d :: (d in AllDecls(s, 0) && d.name == k && MatchAt(s, k, d.start) == Some(d.end)
      && Store(s, AllDecls(s, 0), EmptyDict).code[k] == s[d.start..d.end])
  {
    var ds := AllDecls(s, 0);
    StoreKeys(s, ds, EmptyDict);
    var t := LastNamed(ds, k);
    LastDefinitionWins(s, ds, EmptyDict, t);
    AllDeclsAreDecls(s, 0);
    var d := ds[t];
    assert d in ds;
    DeclAtIsMatch(s, d.start, d);
  }
}
