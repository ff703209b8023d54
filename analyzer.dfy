/**
 * The pure pieces of `HardwareIFTAnalyzer` in src/core/analyzer.py: the walk that lists a
 * module's ancestors through the adjacency dict (`get_module_ancestors`), the assembly of
 * the ancestor context handed to the per-module prompt, and the choice of the `{`...`}`
 * slice that `extract_json_result` gives to the JSON parser.
 *
 * The adjacency dict is the ordered `Dependencies.Adjacency`: the walk visits its keys in
 * insertion order. The source recurses without bound on a cycle through the parent
 * relation, so the walk takes a ghost rank that strictly grows from parent to child.
 */
module Analyzer {
  import opened Wrappers
  import opened Seqs
  import Dependencies

  type Adjacency = Dependencies.Adjacency

  /** `p` lists `c` among its children. */
  ghost predicate IsParent(adj: Adjacency, p: string, c: string) {
    p in adj.children && c in adj.children[p]
  }

  /** Every parent ranks strictly below each of its children, so parent chains cannot loop. */
  ghost predicate Ranked(adj: Adjacency, rank: map<string, nat>) {
    forall p, c :: IsParent(adj, p, c) ==> p in rank && c in rank && rank[p] < rank[c]
  }

  function RankOf(rank: map<string, nat>, m: string): nat {
    if m in rank then rank[m] else 0
  }

  /** `get_module_ancestors(m, adj, path)`: put `m` in front of `path`, then let every parent extend it. */
  function Ancestors(adj: Adjacency, ghost rank: map<string, nat>, m: string, path: seq<string>): (r: seq<string>)
    requires adj.Valid() && Ranked(adj, rank)
    ensures |r| > |path|
    decreases RankOf(rank, m), 1, 0
  {
    VisitParents(adj, rank, m, 0, [m] + path)
  }

  /** The loop over the dict's keys from the `k`-th on; each parent of `m` prepends its own ancestors to `path`. */
  function VisitParents(adj: Adjacency, ghost rank: map<string, nat>, m: string, k: nat, path: seq<string>): (r: seq<string>)
    requires adj.Valid() && Ranked(adj, rank) && k <= |adj.keys|
    ensures |r| >= |path|
    decreases RankOf(rank, m), 0, |adj.keys| - k
  {
    if k == |adj.keys| then path
    else
      var p := adj.keys[k];
      var next := if m in adj.children[p] then Ancestors(adj, rank, p, path) else path;
      VisitParents(adj, rank, m, k + 1, next)
  }

  /** The walk only ever prepends: its result ends with `[m] + path`. */
  lemma {:induction false} AncestorsEndWithPath(adj: Adjacency, rank: map<string, nat>, m: string, path: seq<string>)
    requires adj.Valid() && Ranked(adj, rank)
    ensures EndsWith(Ancestors(adj, rank, m, path), [m] + path)
    decreases RankOf(rank, m), 1, 0
  {
    VisitParentsEndWithPath(adj, rank, m, 0, [m] + path);
  }

  lemma {:induction false} VisitParentsEndWithPath(adj: Adjacency, rank: map<string, nat>, m: string, k: nat, path: seq<string>)
    requires adj.Valid() && Ranked(adj, rank) && k <= |adj.keys|
    ensures EndsWith(VisitParents(adj, rank, m, k, path), path)
    decreases RankOf(rank, m), 0, |adj.keys| - k
  {
    if k < |adj.keys| {
      var p := adj.keys[k];
      var next := path;
      if m in adj.children[p] {
        next := Ancestors(adj, rank, p, path);
        AncestorsEndWithPath(adj, rank, p, path);
        EndsWithTrans(next, [p] + path, path);
      }
      VisitParentsEndWithPath(adj, rank, m, k + 1, next);
      EndsWithTrans(VisitParents(adj, rank, m, k + 1, next), next, path);
    }
  }

  /** Called with no path, the walk ends with the module itself. */
  lemma AncestorsEndWithModule(adj: Adjacency, rank: map<string, nat>, m: string)
    requires adj.Valid() && Ranked(adj, rank)
    ensures var r := Ancestors(adj, rank, m, []); |r| >= 1 && r[|r| - 1] == m
  {
    AncestorsEndWithPath(adj, rank, m, []);
    var r := Ancestors(adj, rank, m, []);
    assert r[|r| - 1..][0] == m;
  }

  /** A module that is nobody's child gets `[m] + path` back unchanged. */
  lemma AncestorsOfRoot(adj: Adjacency, rank: map<string, nat>, m: string, path: seq<string>)
    requires adj.Valid() && Ranked(adj, rank)
    requires forall p :: p in adj.children ==> m !in adj.children[p]
    ensures Ancestors(adj, rank, m, path) == [m] + path
  {
    VisitParentsOfRoot(adj, rank, m, 0, [m] + path);
  }

  lemma {:induction false} VisitParentsOfRoot(adj: Adjacency, rank: map<string, nat>, m: string, k: nat, path: seq<string>)
    requires adj.Valid() && Ranked(adj, rank) && k <= |adj.keys|
    requires forall p :: p in adj.children ==> m !in adj.children[p]
    ensures VisitParents(adj, rank, m, k, path) == path
    decreases |adj.keys| - k
  {
    if k < |adj.keys| {
      assert adj.keys[k] in adj.children;
      VisitParentsOfRoot(adj, rank, m, k + 1, path);
    }
  }

  /** A chain of modules, each a parent of the next. */
  ghost predicate IsChain(adj: Adjacency, c: seq<string>) {
    |c| >= 1 && forall i :: 0 <= i < |c| - 1 ==> IsParent(adj, c[i], c[i + 1])
  }

  /** `a` is `m` itself or reaches `m` through child lists. */
  ghost predicate IsAncestorOrSelf(adj: Adjacency, a: string, m: string) {
    exists c :: IsChain(adj, c) && c[0] == a && c[|c| - 1] == m
  }

  lemma ChainExtend(adj: Adjacency, a: string, p: string, m: string)
    requires IsAncestorOrSelf(adj, a, p) && IsParent(adj, p, m)
    ensures IsAncestorOrSelf(adj, a, m)
  {
    var c :| IsChain(adj, c) && c[0] == a && c[|c| - 1] == p;
    var d := c + [m];
    assert forall i :: 0 <= i < |c| ==> d[i] == c[i];
    assert IsChain(adj, d);
  }

  /** Everything the walk adds to `path` is `m` or one of its ancestors. */
  lemma {:induction false} AncestorsSound(adj: Adjacency, rank: map<string, nat>, m: string, path: seq<string>)
    requires adj.Valid() && Ranked(adj, rank)
    ensures forall x :: x in Ancestors(adj, rank, m, path) ==> x in path || IsAncestorOrSelf(adj, x, m)
    decreases RankOf(rank, m), 1, 0
  {
    assert IsChain(adj, [m]);
    VisitParentsSound(adj, rank, m, 0, [m] + path);
  }

  lemma {:induction false} VisitParentsSound(adj: Adjacency, rank: map<string, nat>, m: string, k: nat, path: seq<string>)
    requires adj.Valid() && Ranked(adj, rank) && k <= |adj.keys|
    ensures forall x :: x in VisitParents(adj, rank, m, k, path) ==> x in path || IsAncestorOrSelf(adj, x, m)
    decreases RankOf(rank, m), 0, |adj.keys| - k
  {
    if k < |adj.keys| {
      var p := adj.keys[k];
      var next := path;
      if m in adj.children[p] {
        next := Ancestors(adj, rank, p, path);
        AncestorsSound(adj, rank, p, path);
        forall x | x in next && x !in path
          ensures IsAncestorOrSelf(adj, x, m)
        {
          ChainExtend(adj, x, p, m);
        }
      }
      VisitParentsSound(adj, rank, m, k + 1, next);
    }
  }

  /** The walk over the keys from `j` on reaches the `k`-th key when it is a parent of `m`. */
  lemma {:induction false} VisitParentsReaches(adj: Adjacency, rank: map<string, nat>, m: string, j: nat, path: seq<string>, k: nat)
    returns (q: seq<string>)
    requires adj.Valid() && Ranked(adj, rank) && j <= k < |adj.keys|
    requires m in adj.children[adj.keys[k]]
    ensures EndsWith(VisitParents(adj, rank, m, j, path), Ancestors(adj, rank, adj.keys[k], q))
    decreases k - j
  {
    var p := adj.keys[j];
    var next := if m in adj.children[p] then Ancestors(adj, rank, p, path) else path;
    if j == k {
      q := path;
      VisitParentsEndWithPath(adj, rank, m, k + 1, next);
    } else {
      q := VisitParentsReaches(adj, rank, m, j + 1, next, k);
    }
  }

  /** Every ancestor of `m`, however far up, is in the walk's result. */
  lemma {:induction false} AncestorsComplete(adj: Adjacency, rank: map<string, nat>, m: string, path: seq<string>, c: seq<string>)
    requires adj.Valid() && Ranked(adj, rank)
    requires IsChain(adj, c) && c[|c| - 1] == m
    ensures c[0] in Ancestors(adj, rank, m, path)
    decreases |c|
  {
    var r := Ancestors(adj, rank, m, path);
    if |c| == 1 {
      AncestorsEndWithPath(adj, rank, m, path);
      EndsWithKeeps(r, [m] + path, m);
    } else {
      var p := c[|c| - 2];
      assert IsParent(adj, p, m);
      var k :| 0 <= k < |adj.keys| && adj.keys[k] == p;
      var q := VisitParentsReaches(adj, rank, m, 0, [m] + path, k);
      var up := c[..|c| - 1];
      assert forall i :: 0 <= i < |up| ==> up[i] == c[i];
      AncestorsComplete(adj, rank, p, q, up);
      EndsWithKeeps(r, Ancestors(adj, rank, p, q), c[0]);
    }
  }

  /** Started with no path, the walk lists exactly the module and its ancestors. */
  lemma AncestorsExactly(adj: Adjacency, rank: map<string, nat>, m: string)
    requires adj.Valid() && Ranked(adj, rank)
    ensures forall x :: x in Ancestors(adj, rank, m, []) <==> IsAncestorOrSelf(adj, x, m)
  {
    AncestorsSound(adj, rank, m, []);
    forall x | IsAncestorOrSelf(adj, x, m)
      ensures x in Ancestors(adj, rank, m, [])
    {
      var c :| IsChain(adj, c) && c[0] == x && c[|c| - 1] == m;
      AncestorsComplete(adj, rank, m, [], c);
    }
  }

  /** Lines 127-128 of src/core/analyzer.py: the walk's result with every occurrence of the module itself removed. */
  function AncestorPath(adj: Adjacency, ghost rank: map<string, nat>, m: string): (r: seq<string>)
    requires adj.Valid() && Ranked(adj, rank)
    ensures m !in r
    ensures forall x :: x in r <==> x != m && IsAncestorOrSelf(adj, x, m)
  {
    AncestorsExactly(adj, rank, m);
    Without(Ancestors(adj, rank, m, []), m)
  }

  /** A ranked graph has no cycle, so a module's ancestor path never leads back to it. */
  lemma {:induction false} ChainRises(adj: Adjacency, rank: map<string, nat>, c: seq<string>)
    requires Ranked(adj, rank) && IsChain(adj, c) && |c| >= 2
    ensures c[0] in rank && c[|c| - 1] in rank && rank[c[0]] < rank[c[|c| - 1]]
  {
    assert IsParent(adj, c[0], c[1]);
    if |c| > 2 {
      var rest := c[1..];
      assert forall i :: 0 <= i < |rest| ==> rest[i] == c[i + 1];
      ChainRises(adj, rank, rest);
    }
  }

  /** What line 132 of src/core/analyzer.py looks up for one ancestor: its stored context, or `""`. */
  function ContextOf(db: map<string, string>, a: string): (r: string)
    ensures r != "" ==> a in db && db[a] == r
  {
    if a in db then db[a] else ""
  }

  /** `"".join(context_db.get(a, "") for a in ancestors)`. */
  function JoinContexts(db: map<string, string>, ancestors: seq<string>): (r: string)
    ensures forall x :: x in ancestors ==> |ContextOf(db, x)| <= |r|
  {
    if ancestors == [] then "" else ContextOf(db, ancestors[0]) + JoinContexts(db, ancestors[1..])
  }

  /** Joining two lists of ancestors concatenates their joins. */
  lemma {:induction false} JoinConcat(db: map<string, string>, a: seq<string>, b: seq<string>)
    ensures JoinContexts(db, a + b) == JoinContexts(db, a) + JoinContexts(db, b)
  {
    if a != [] {
      assert (a + b)[0] == a[0] && (a + b)[1..] == a[1..] + b;
      JoinConcat(db, a[1..], b);
    } else {
      assert a + b == b;
    }
  }

  /** Each ancestor's context appears in the join, in place, between those of the ancestors around it. */
  lemma JoinSplit(db: map<string, string>, a: seq<string>, i: nat)
    requires i < |a|
    ensures JoinContexts(db, a) == JoinContexts(db, a[..i]) + ContextOf(db, a[i]) + JoinContexts(db, a[i + 1..])
  {
    var pre, rest := a[..i], a[i + 1..];
    SplitAround(a, i);
    JoinConcat(db, pre, [a[i]] + rest);
    TailOfAppend([a[i]], rest);
    AppendAssoc(JoinContexts(db, pre), ContextOf(db, a[i]), JoinContexts(db, rest));
  }

  /** The join is empty exactly when no ancestor has a non-empty stored context. */
  lemma {:induction false} JoinEmptyIff(db: map<string, string>, a: seq<string>)
    ensures JoinContexts(db, a) == "" <==> forall x :: x in a ==> ContextOf(db, x) == ""
  {
    if a != [] {
      JoinEmptyIff(db, a[1..]);
      assert forall x :: x in a ==> x == a[0] || x in a[1..];
    }
  }

  const NoParentsNote: string := "This module has no parent modules.\n"

  /** Lines 131-135 of src/core/analyzer.py: the join of the ancestors' contexts, or the fixed note when that join is empty. */
  function AncestorContext(db: map<string, string>, ancestors: seq<string>): (r: string)
    ensures r != ""
    ensures (forall x :: x in ancestors ==> ContextOf(db, x) == "") ==> r == NoParentsNote
    ensures (exists x :: x in ancestors && ContextOf(db, x) != "") ==> r == JoinContexts(db, ancestors)
  {
    JoinEmptyIff(db, ancestors);
    var joined := JoinContexts(db, ancestors);
    if joined == "" then NoParentsNote else joined
  }

  /** Lines 127-135 of src/core/analyzer.py for one module: a module that is nobody's child is told it has no parents. */
  lemma RootGetsNote(adj: Adjacency, rank: map<string, nat>, db: map<string, string>, m: string)
    requires adj.Valid() && Ranked(adj, rank)
    requires forall p :: p in adj.children ==> m !in adj.children[p]
    ensures AncestorPath(adj, rank, m) == []
    ensures AncestorContext(db, AncestorPath(adj, rank, m)) == NoParentsNote
  {
    AncestorsOfRoot(adj, rank, m, []);
    assert Ancestors(adj, rank, m, []) == [m];
    assert Without([m], m) == [] by {
      assert [m][1..] == [];
    }
  }

  /** The walk on the parent-first example: a module reached through two parents sees the shared one twice. */
  const ExampleAdj: Adjacency := Dependencies.Adjacency(
    ["top", "sub1", "sub2"],
    map["top" := ["sub1", "sub2"], "sub1" := [], "sub2" := ["sub1"]])

  const ExampleRank: map<string, nat> := map["top" := 0, "sub2" := 1, "sub1" := 2]

  lemma ExampleIsRanked()
    ensures ExampleAdj.Valid() && Ranked(ExampleAdj, ExampleRank)
  {
  }

  /** The inner call of the example: `sub2`, reached from `sub1` with `top` already on the path. */
  lemma ExampleSub2Ancestors()
    ensures ExampleAdj.Valid() && Ranked(ExampleAdj, ExampleRank)
    ensures Ancestors(ExampleAdj, ExampleRank, "sub2", ["top", "sub1"]) == ["top", "sub2", "top", "sub1"]
  {
    ExampleIsRanked();
    var adj, rank := ExampleAdj, ExampleRank;
    AncestorsOfRoot(adj, rank, "top", ["sub2", "top", "sub1"]);
    assert VisitParents(adj, rank, "sub2", 1, ["top", "sub2", "top", "sub1"]) == ["top", "sub2", "top", "sub1"];
  }

  /** The loop of the walk from `sub1` at key `sub2`, the key that prepends `sub2`'s own walk. */
  lemma ExampleVisitSub2()
    ensures ExampleAdj.Valid() && Ranked(ExampleAdj, ExampleRank)
    ensures VisitParents(ExampleAdj, ExampleRank, "sub1", 2, ["top", "sub1"]) == ["top", "sub2", "top", "sub1"]
  {
    ExampleSub2Ancestors();
    var walk := ["top", "sub2", "top", "sub1"];
    assert VisitParents(ExampleAdj, ExampleRank, "sub1", 3, walk) == walk;
  }

  /** The loop of the walk from `sub1` at key `sub1`, which is not its own parent. */
  lemma ExampleVisitSub1()
    ensures ExampleAdj.Valid() && Ranked(ExampleAdj, ExampleRank)
    ensures VisitParents(ExampleAdj, ExampleRank, "sub1", 1, ["top", "sub1"]) == ["top", "sub2", "top", "sub1"]
  {
    ExampleVisitSub2();
    assert "sub1" !in ExampleAdj.children[ExampleAdj.keys[1]];
  }

  /** `top`, a module in no child list, prepends only itself. */
  lemma ExampleTopAncestors()
    ensures ExampleAdj.Valid() && Ranked(ExampleAdj, ExampleRank)
    ensures Ancestors(ExampleAdj, ExampleRank, "top", ["sub1"]) == ["top", "sub1"]
  {
    ExampleIsRanked();
    AncestorsOfRoot(ExampleAdj, ExampleRank, "top", ["sub1"]);
  }

  /** The loop of the walk from `sub1` at key `top`, its first parent. */
  lemma ExampleVisitTop()
    ensures ExampleAdj.Valid() && Ranked(ExampleAdj, ExampleRank)
    ensures VisitParents(ExampleAdj, ExampleRank, "sub1", 0, ["sub1"]) == ["top", "sub2", "top", "sub1"]
  {
    ExampleVisitSub1();
    ExampleTopAncestors();
    assert "sub1" in ExampleAdj.children[ExampleAdj.keys[0]];
  }

  /** The walk from `sub1`: `top` through `sub1`'s first parent, then `sub2` and, through it, `top` again. */
  lemma ExampleAncestors()
    ensures ExampleAdj.Valid() && Ranked(ExampleAdj, ExampleRank)
    ensures Ancestors(ExampleAdj, ExampleRank, "sub1", []) == ["top", "sub2", "top", "sub1"]
  {
    ExampleVisitTop();
    assert ["sub1"] + [] == ["sub1"];
  }

  /** Removing `sub1` from the example's walk. */
  lemma ExampleWithout()
    ensures Without(["top", "sub2", "top", "sub1"], "sub1") == ["top", "sub2", "top"]
  {
    var walk: seq<string> := ["top", "sub2", "top", "sub1"];
    assert Without(walk[3..], "sub1") == [];
    assert Without(walk[2..], "sub1") == ["top"];
    assert Without(walk[1..], "sub1") == ["sub2", "top"];
  }

  /** Lines 127-128 of src/core/analyzer.py on the example: the path handed on keeps the repeated `top` and drops `sub1`. */
  lemma ExampleAncestorPath()
    ensures ExampleAdj.Valid() && Ranked(ExampleAdj, ExampleRank)
    ensures AncestorPath(ExampleAdj, ExampleRank, "sub1") == ["top", "sub2", "top"]
  {
    ExampleAncestors();
    ExampleWithout();
  }

  /** `response.find(c)`: the first index holding `c`, or -1. */
  function Find(s: string, c: char): (r: int)
    ensures r == -1 <==> c !in s
    ensures r != -1 ==> 0 <= r < |s| && s[r] == c && c !in s[..r]
  {
    FindCharFrom(s, c, 0)
  }

  function FindCharFrom(s: string, c: char, i: nat): (r: int)
    requires i <= |s|
    ensures r == -1 <==> forall j :: i <= j < |s| ==> s[j] != c
    ensures r != -1 ==> i <= r < |s| && s[r] == c && forall j :: i <= j < r ==> s[j] != c
    decreases |s| - i
  {
    if i == |s| then -1 else if s[i] == c then i else FindCharFrom(s, c, i + 1)
  }

  /** `response.rfind(c)`: the last index holding `c`, or -1. */
  function RFind(s: string, c: char): (r: int)
    ensures r == -1 <==> c !in s
    ensures r != -1 ==> 0 <= r < |s| && s[r] == c && c !in s[r + 1..]
  {
    RFindBefore(s, c, |s|)
  }

  function RFindBefore(s: string, c: char, n: nat): (r: int)
    requires n <= |s|
    ensures r == -1 <==> forall j :: 0 <= j < n ==> s[j] != c
    ensures r != -1 ==> 0 <= r < n && s[r] == c && forall j :: r < j < n ==> s[j] != c
  {
    if n == 0 then -1 else if s[n - 1] == c then n - 1 else RFindBefore(s, c, n - 1)
  }

  /** Python's `s[i:j]` for in-range bounds: empty when `j` is before `i`. */
  function Slice(s: string, i: nat, j: nat): (r: string)
    requires i <= |s| && j <= |s|
    ensures |r| == if i <= j then j - i else 0
    ensures forall t :: 0 <= t < |r| ==> r[t] == s[i + t]
  {
    if i <= j then s[i..j] else ""
  }

  /** Lines 179-190 of src/core/analyzer.py up to the JSON parser: the text from the first `{` to the last `}`, if both exist. */
  function JsonCandidate(response: string): (r: Option<string>)
    ensures r.None? <==> '{' !in response || '}' !in response
  {
    var start := Find(response, '{');
    var end := RFind(response, '}');
    if start != -1 && end != -1 then Some(Slice(response, start, end + 1)) else None
  }

  /**
   * When both braces occur the candidate runs from the first `{` through the last `}`;
   * it is empty when that `}` comes before that `{`.
   */
  lemma JsonCandidateSpan(response: string) returns (i: nat, j: nat)
    requires '{' in response && '}' in response
    ensures i < |response| && response[i] == '{' && '{' !in response[..i]
    ensures j < |response| && response[j] == '}' && '}' !in response[j + 1..]
    ensures JsonCandidate(response) == Some(if i <= j then response[i..j + 1] else "")
  {
    i, j := Find(response, '{'), RFind(response, '}');
  }

  /** A non-empty candidate is braced on both sides. */
  lemma JsonCandidateBraced(response: string)
    requires JsonCandidate(response).Some? && JsonCandidate(response).value != ""
    ensures var v := JsonCandidate(response).value; v[0] == '{' && v[|v| - 1] == '}'
  {
    var i, j := JsonCandidateSpan(response);
    assert response[i..j + 1][j - i] == response[j];
  }
}
