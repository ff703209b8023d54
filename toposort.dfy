/**
 * The contract of `topological_sort` in src/utils/extract_graph.py, which hands the
 * (parent, child) edges to networkx: no order when the graph has a directed cycle, and
 * otherwise every node exactly once with each parent before each of its children.
 *
 * The graph's nodes are the edge endpoints in first-seen order. Kahn's algorithm, which
 * repeatedly takes the first remaining node that no remaining node points to, witnesses
 * the contract; which of the valid orders networkx itself picks is not modelled.
 */
module TopoSort {
  import opened Wrappers
  import opened Seqs
  import Hierarchy

  type Edge = Hierarchy.Edge

  /** Both endpoints of every edge, edge by edge. */
  function Endpoints(edges: seq<Edge>): (r: seq<string>)
    ensures forall e :: e in edges ==> e.parent in r && e.child in r
    ensures forall v :: v in r ==> exists e :: e in edges && (v == e.parent || v == e.child)
  {
    if edges == [] then []
    else [edges[0].parent, edges[0].child] + Endpoints(edges[1..])
  }

  /** The nodes of the graph built from the edge list, in insertion order. */
  function Vertices(edges: seq<Edge>): (r: seq<string>)
    ensures Distinct(r)
    ensures forall e :: e in edges ==> e.parent in r && e.child in r
    ensures forall v :: v in r ==> exists e :: e in edges && (v == e.parent || v == e.child)
  {
    AppendNew([], Endpoints(edges))
  }

  /** Each edge's parent comes before its child. */
  ghost predicate RespectsEdges(edges: seq<Edge>, order: seq<string>) {
    forall i, j :: 0 <= i < |order| && 0 <= j < |order| && Hierarchy.Edge(order[i], order[j]) in edges ==> i < j
  }

  /** Every node exactly once, parents first. */
  ghost predicate IsTopologicalOrder(edges: seq<Edge>, order: seq<string>) {
    && Distinct(order)
    && (forall v :: v in order <==> v in Vertices(edges))
    && RespectsEdges(edges, order)
  }

  /** A closed walk along the edges that uses at least one edge; a self-loop is one. */
  ghost predicate IsCycle(edges: seq<Edge>, c: seq<string>) {
    && |c| >= 2
    && c[0] == c[|c| - 1]
    && forall k :: 0 <= k < |c| - 1 ==> Hierarchy.Edge(c[k], c[k + 1]) in edges
  }

  ghost predicate HasCycle(edges: seq<Edge>) {
    exists c :: IsCycle(edges, c)
  }

  /** No node of `remaining` points to `v`. */
  predicate IsSource(edges: seq<Edge>, remaining: seq<string>, v: string) {
    forall u :: u in remaining ==> Hierarchy.Edge(u, v) !in edges
  }

  /** The first node of `remaining[k..]` that is a source among `remaining`. */
  function FirstSource(edges: seq<Edge>, remaining: seq<string>, k: nat): (r: Option<string>)
    requires k <= |remaining|
    ensures r.Some? ==> r.value in remaining && IsSource(edges, remaining, r.value)
    ensures r.None? ==> forall i :: k <= i < |remaining| ==> !IsSource(edges, remaining, remaining[i])
    decreases |remaining| - k
  {
    if k == |remaining| then None
    else if IsSource(edges, remaining, remaining[k]) then Some(remaining[k])
    else FirstSource(edges, remaining, k + 1)
  }

  /** Kahn's algorithm: move sources from `remaining` to `done` until none is left or none is a source. */
  function Kahn(edges: seq<Edge>, remaining: seq<string>, done: seq<string>): (r: Option<seq<string>>)
    ensures r.Some? ==> done <= r.value
    ensures r.Some? ==> forall v :: v in r.value ==> v in done || v in remaining
    decreases |remaining|
  {
    if remaining == [] then Some(done)
    else
      match FirstSource(edges, remaining, 0)
      case None => None
      case Some(v) => Kahn(edges, Without(remaining, v), done + [v])
  }

  /** `topological_sort`: `None` exactly when there is a cycle, else a topological order of the nodes. */
  function TopologicalSort(edges: seq<Edge>): (r: Option<seq<string>>)
    ensures r.Some? ==> IsTopologicalOrder(edges, r.value)
    ensures r.None? <==> HasCycle(edges)
  {
    KahnCorrect(edges, Vertices(edges), []);
    var r := Kahn(edges, Vertices(edges), []);
    if r.Some? then OrderRulesOutCycles(edges, r.value); r else r
  }

  /** What holds between the steps of Kahn's algorithm. */
  ghost predicate KahnInv(edges: seq<Edge>, remaining: seq<string>, done: seq<string>) {
    && (forall v :: v in done || v in remaining <==> v in Vertices(edges))
    && (forall v :: v in done ==> v !in remaining)
    && Distinct(done)
    && RespectsEdges(edges, done)
    && (forall e :: e in edges && e.child in done ==> e.parent in done)
  }

  /** Appending a node that points to nothing already placed, and not to itself, keeps the order. */
  lemma RespectsEdgesAppend(edges: seq<Edge>, done: seq<string>, v: string)
    requires RespectsEdges(edges, done)
    requires Hierarchy.Edge(v, v) !in edges
    requires forall j :: 0 <= j < |done| ==> Hierarchy.Edge(v, done[j]) !in edges
    ensures RespectsEdges(edges, done + [v])
  {
    var d := done + [v];
    forall i, j | 0 <= i < |d| && 0 <= j < |d| && Hierarchy.Edge(d[i], d[j]) in edges
      ensures i < j
    {
      if i < |done| && j < |done| {
        assert d[i] == done[i] && d[j] == done[j];
      }
    }
  }

  /** One step of Kahn's algorithm keeps the invariant. */
  lemma KahnStep(edges: seq<Edge>, remaining: seq<string>, done: seq<string>, v: string)
    requires KahnInv(edges, remaining, done)
    requires v in remaining && IsSource(edges, remaining, v)
    ensures KahnInv(edges, Without(remaining, v), done + [v])
  {
    var rest, d := Without(remaining, v), done + [v];
    RespectsEdgesAppend(edges, done, v);
    forall e | e in edges && e.child in d
      ensures e.parent in d
    {
      if e.child == v {
        assert e.parent in Vertices(edges);
        assert e == Hierarchy.Edge(e.parent, v);
      }
    }
    assert Distinct(d) by {
      forall i, j | 0 <= i < j < |d|
        ensures d[i] != d[j]
      {
        if j == |done| {
          assert d[i] in done;
        }
      }
    }
  }

  /** With no source left, walking back along edges for `n` steps stays inside `remaining`. */
  lemma {:induction false} BackWalk(edges: seq<Edge>, remaining: seq<string>, v: string, n: nat) returns (w: seq<string>)
    requires v in remaining
    requires forall x :: x in remaining ==> !IsSource(edges, remaining, x)
    ensures |w| == n + 1 && w[0] == v
    ensures forall k :: 0 <= k < |w| ==> w[k] in remaining
    ensures forall k :: 0 <= k < n ==> Hierarchy.Edge(w[k + 1], w[k]) in edges
  {
    if n == 0 {
      w := [v];
    } else {
      var prior := BackWalk(edges, remaining, v, n - 1);
      var last := prior[n - 1];
      assert !IsSource(edges, remaining, last);
      var u :| u in remaining && Hierarchy.Edge(u, last) in edges;
      w := prior + [u];
      assert forall k :: 0 <= k < n ==> w[k] == prior[k];
    }
  }

  /** A backward walk that revisits a node, read forwards between the two visits, is a cycle. */
  lemma RepeatGivesCycle(edges: seq<Edge>, w: seq<string>, i: nat, j: nat)
    requires i < j < |w| && w[i] == w[j]
    requires forall k :: 0 <= k < |w| - 1 ==> Hierarchy.Edge(w[k + 1], w[k]) in edges
    ensures HasCycle(edges)
  {
    var c := seq(j - i + 1, t requires 0 <= t <= j - i => w[j - t]);
    forall k | 0 <= k < |c| - 1
      ensures Hierarchy.Edge(c[k], c[k + 1]) in edges
    {
      assert c[k] == w[(j - k - 1) + 1] && c[k + 1] == w[j - k - 1];
    }
    assert IsCycle(edges, c);
  }

  /** When every remaining node has a remaining predecessor, the graph has a cycle. */
  lemma NoSourceHasCycle(edges: seq<Edge>, remaining: seq<string>)
    requires remaining != []
    requires forall x :: x in remaining ==> !IsSource(edges, remaining, x)
    ensures HasCycle(edges)
  {
    var w := BackWalk(edges, remaining, remaining[0], |remaining|);
    if Distinct(w) {
      DistinctFits(w, remaining);
      assert false;
    }
    var i, j :| 0 <= i < j < |w| && w[i] == w[j];
    RepeatGivesCycle(edges, w, i, j);
  }

  /** Kahn's algorithm from an invariant state returns a topological order, or fails only on a cycle. */
  lemma {:induction false} KahnCorrect(edges: seq<Edge>, remaining: seq<string>, done: seq<string>)
    requires KahnInv(edges, remaining, done)
    ensures Kahn(edges, remaining, done).Some? ==> IsTopologicalOrder(edges, Kahn(edges, remaining, done).value)
    ensures Kahn(edges, remaining, done).None? ==> HasCycle(edges)
    decreases |remaining|
  {
    if remaining != [] {
      match FirstSource(edges, remaining, 0)
      case None =>
        forall x | x in remaining
          ensures !IsSource(edges, remaining, x)
        {
          var k :| 0 <= k < |remaining| && remaining[k] == x;
        }
        NoSourceHasCycle(edges, remaining);
      case Some(v) =>
        KahnStep(edges, remaining, done, v);
        KahnCorrect(edges, Without(remaining, v), done + [v]);
    }
  }

  /** The position of a node in an order. */
  function IndexOf(order: seq<string>, x: string): (i: nat)
    requires x in order
    ensures i < |order| && order[i] == x
  {
    if order[0] == x then 0 else 1 + IndexOf(order[1..], x)
  }

  /** A graph with a topological order has no cycle. */
  lemma OrderRulesOutCycles(edges: seq<Edge>, order: seq<string>)
    requires IsTopologicalOrder(edges, order)
    ensures !HasCycle(edges)
  {
    forall c | IsCycle(edges, c)
      ensures false
    {
      assert Hierarchy.Edge(c[0], c[1]) in edges;
      var first := IndexOf(order, c[0]);
      var k := 1;
      while k < |c| - 1
        invariant 1 <= k <= |c| - 1
        invariant c[k] in order && first < IndexOf(order, c[k])
      {
        assert Hierarchy.Edge(c[k], c[k + 1]) in edges;
        k := k + 1;
      }
    }
  }

  /** Each node occurs once in an order, so the order is as long as the node list. */
  lemma {:induction false} OrderCoversVertices(edges: seq<Edge>, order: seq<string>)
    requires IsTopologicalOrder(edges, order)
    ensures |order| == |Vertices(edges)|
  {
    DistinctFits(order, Vertices(edges));
    DistinctFits(Vertices(edges), order);
  }
}
