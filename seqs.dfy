/** Facts about sequences used as Python lists: distinctness and first-seen deduplication. */
module Seqs {

  /** No element occurs twice. */
  predicate Distinct<T(==)>(s: seq<T>) {
    forall i, j :: 0 <= i < j < |s| ==> s[i] != s[j]
  }

  /**
   * Appends to `acc`, in order, every element of `s` that is not already present:
   * the loop `for x in s: if x not in acc: acc.append(x)`.
   * With an empty `acc` this is first-seen deduplication of `s`.
   */
  function AppendNew<T(==, !new)>(acc: seq<T>, s: seq<T>): (r: seq<T>)
    ensures |acc| <= |r| && r[..|acc|] == acc
    ensures forall x :: x in r <==> x in acc || x in s
    ensures Distinct(acc) ==> Distinct(r)
    ensures forall i :: |acc| <= i < |r| ==> r[i] in s && r[i] !in acc
    decreases |s|
  {
    if s == [] then acc
    else AppendNew(if s[0] in acc then acc else acc + [s[0]], s[1..])
  }

  /** AppendNew over a concatenation is AppendNew over each part in turn. */
  lemma {:induction false} AppendNewConcat<T(!new)>(acc: seq<T>, s: seq<T>, t: seq<T>)
    ensures AppendNew(acc, s + t) == AppendNew(AppendNew(acc, s), t)
    decreases |s|
  {
    if s == [] {
      assert s + t == t;
    } else {
      assert (s + t)[1..] == s[1..] + t;
      AppendNewConcat(if s[0] in acc then acc else acc + [s[0]], s[1..], t);
    }
  }

  /** An element seen for the first time at position `n` goes right after what the elements before it added. */
  lemma AppendNewFirstSeen<T(!new)>(acc: seq<T>, s: seq<T>, n: nat)
    requires n < |s| && s[n] !in acc && s[n] !in s[..n]
    ensures var before := AppendNew(acc, s[..n]);
      var all := AppendNew(acc, s);
      before <= all && |before| < |all| && all[|before|] == s[n]
  {
    var before := AppendNew(acc, s[..n]);
    var rest := s[n..];
    assert s[..n] + rest == s;
    AppendNewConcat(acc, s[..n], rest);
    assert rest[0] == s[n] && s[n] !in before;
    AppendNewFresh(before, rest);
  }

  /** A first element not yet in `acc` is added right after it. */
  lemma AppendNewFresh<T(!new)>(acc: seq<T>, s: seq<T>)
    requires s != [] && s[0] !in acc
    ensures acc + [s[0]] <= AppendNew(acc, s)
  {
    assert AppendNew(acc, s) == AppendNew(acc + [s[0]], s[1..]);
  }

  /** AppendNew over one more element: the loop body `if x not in acc: acc.append(x)`. */
  lemma AppendNewSnoc<T(!new)>(acc: seq<T>, s: seq<T>, x: T)
    ensures var prior := AppendNew(acc, s);
      AppendNew(acc, s + [x]) == if x in prior then prior else prior + [x]
  {
    AppendNewConcat(acc, s, [x]);
  }

  /** AppendNew keeps every element when nothing repeats. */
  lemma {:induction false} AppendNewDistinct<T(!new)>(acc: seq<T>, s: seq<T>)
    requires Distinct(acc + s)
    ensures AppendNew(acc, s) == acc + s
    decreases |s|
  {
    if s == [] {
      assert acc + s == acc;
    } else {
      var next := acc + [s[0]];
      assert (acc + s)[|acc|] == s[0];
      assert s[0] !in acc by {
        forall i | 0 <= i < |acc|
          ensures acc[i] != s[0]
        {
          assert (acc + s)[i] == acc[i];
        }
      }
      assert next + s[1..] == acc + s;
      AppendNewDistinct(next, s[1..]);
    }
  }

  /** AppendNew adds nothing when every element of `s` is already present. */
  lemma {:induction false} AppendNewCovered<T(!new)>(acc: seq<T>, s: seq<T>)
    requires forall x :: x in s ==> x in acc
    ensures AppendNew(acc, s) == acc
    decreases |s|
  {
    if s != [] {
      AppendNewCovered(acc, s[1..]);
    }
  }

  /** The elements of `s` different from `x`, in order (Python's `[y for y in s if y != x]`). */
  function Without<T(==, !new)>(s: seq<T>, x: T): (r: seq<T>)
    ensures x !in r
    ensures forall y :: y in r <==> y in s && y != x
    ensures |r| <= |s|
    ensures x in s ==> |r| < |s|
  {
    if s == [] then []
    else (if s[0] == x then [] else [s[0]]) + Without(s[1..], x)
  }

  /** Pigeonhole: a sequence without repeats that draws its elements from `r` is no longer than `r`. */
  lemma {:induction false} DistinctFits<T(!new)>(s: seq<T>, r: seq<T>)
    requires Distinct(s)
    requires forall x :: x in s ==> x in r
    ensures |s| <= |r|
    decreases |s|
  {
    if s != [] {
      var rest := Without(r, s[0]);
      forall x | x in s[1..]
        ensures x in rest
      {
        var k :| 0 <= k < |s[1..]| && s[1..][k] == x;
        assert s[k + 1] == x;
      }
      DistinctFits(s[1..], rest);
    }
  }

  /** `s` ends with `t`. */
  predicate EndsWith<T(==)>(s: seq<T>, t: seq<T>) {
    |t| <= |s| && s[|s| - |t|..] == t
  }

  /** Ending with a sequence that ends with `c` means ending with `c`. */
  lemma EndsWithTrans<T>(a: seq<T>, b: seq<T>, c: seq<T>)
    requires EndsWith(a, b) && EndsWith(b, c)
    ensures EndsWith(a, c)
  {
    assert a[|a| - |c|..] == a[|a| - |b|..][|b| - |c|..];
  }

  /** The elements of a tail are elements of the whole. */
  lemma EndsWithKeeps<T>(s: seq<T>, t: seq<T>, x: T)
    requires EndsWith(s, t) && x in t
    ensures x in s
  {
    var i :| 0 <= i < |t| && t[i] == x;
    assert s[|s| - |t|..][i] == x;
  }

  /** The head and tail of a concatenation whose first part is not empty. */
  lemma TailOfAppend<T>(a: seq<T>, b: seq<T>)
    requires a != []
    ensures (a + b)[0] == a[0] && (a + b)[1..] == a[1..] + b
  {
  }

  /** The prefix up to `i + 1` is the prefix up to `i` followed by `s[i]`. */
  lemma TakeSnoc<T>(s: seq<T>, i: nat)
    requires i < |s|
    ensures s[..i + 1] == s[..i] + [s[i]]
  {
  }

  /** A sequence is what comes before `s[i]`, then `s[i]`, then what comes after. */
  lemma SplitAround<T>(s: seq<T>, i: nat)
    requires i < |s|
    ensures s == s[..i] + ([s[i]] + s[i + 1..])
  {
  }

  /** Concatenation is associative. */
  lemma AppendAssoc<T>(a: seq<T>, b: seq<T>, c: seq<T>)
    ensures a + (b + c) == (a + b) + c
  {
  }

  /** The suffix from `i` starts with `s[i]` and continues with the suffix from `i + 1`. */
  lemma SuffixStep<T>(s: seq<T>, i: nat)
    requires i < |s|
    ensures s[i..][0] == s[i] && s[i..][1..] == s[i + 1..]
  {
  }
}
