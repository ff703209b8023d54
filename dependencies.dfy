/**
 * The part of `get_modules_and_dependencies` (src/utils/extract_graph.py) that follows the
 * Yosys call: the dependency dict built from the parsed report, and the final module order,
 * which is the topological order followed by every module it misses, or else the module
 * list as parsed.
 */
module Dependencies {
  import opened Wrappers
  import opened Seqs
  import Hierarchy
  import TopoSort
  import Strings

  type Edge = Hierarchy.Edge

  /** `dependency_dict`: a dict kept as its keys in insertion order and the map behind them. */
  datatype Adjacency = Adjacency(keys: seq<string>, children: map<string, seq<string>>) {
    ghost predicate Valid() {
      Distinct(keys) && forall k :: k in children <==> k in keys
    }
  }

  /** The parents of the edges, edge by edge. */
  function Parents(edges: seq<Edge>): seq<string> {
    seq(|edges|, i requires 0 <= i < |edges| => edges[i].parent)
  }

  /** The dict's keys: the modules first, then the parents not among them, each once, first-seen. */
  function DictKeys(edges: seq<Edge>, modules: seq<string>): (r: seq<string>)
    ensures Distinct(r)
    ensures forall m :: m in modules ==> m in r
    ensures forall e :: e in edges ==> e.parent in r
    ensures forall k :: k in r ==> k in modules || exists e :: e in edges && e.parent == k
  {
    ParentsMembers(edges);
    AppendNew(AppendNew([], modules), Parents(edges))
  }

  /** The parents listed are exactly the parents of the edges. */
  lemma ParentsMembers(edges: seq<Edge>)
    ensures forall e :: e in edges ==> e.parent in Parents(edges)
    ensures forall p :: p in Parents(edges) ==> exists e :: e in edges && e.parent == p
  {
    forall e | e in edges
      ensures e.parent in Parents(edges)
    {
      var i :| 0 <= i < |edges| && edges[i] == e;
      assert Parents(edges)[i] == e.parent;
    }
    forall p | p in Parents(edges)
      ensures exists e :: e in edges && e.parent == p
    {
      var i :| 0 <= i < |edges| && Parents(edges)[i] == p;
      assert edges[i] in edges;
    }
  }

  /** The children `p` lists, in edge order, a child repeated for each edge that repeats it. */
  function ChildrenOf(edges: seq<Edge>, p: string): (r: seq<string>)
    ensures |r| <= |edges|
  {
    if edges == [] then []
    else
      var last := edges[|edges| - 1];
      ChildrenOf(edges[..|edges| - 1], p) + (if last.parent == p then [last.child] else [])
  }

  /** `p`'s list holds exactly the children of the edges from `p`. */
  lemma {:induction false} ChildrenOfMembers(edges: seq<Edge>, p: string)
    ensures forall c :: c in ChildrenOf(edges, p) <==> Hierarchy.Edge(p, c) in edges
  {
    if edges != [] {
      var init := edges[..|edges| - 1];
      assert edges == init + [edges[|edges| - 1]];
      ChildrenOfMembers(init, p);
    }
  }

  /** The dict loop adds no duplicate child itself, but distinct edges, as the parser returns them, give distinct lists. */
  lemma {:induction false} ChildrenOfDistinct(edges: seq<Edge>, p: string)
    requires Distinct(edges)
    ensures Distinct(ChildrenOf(edges, p))
  {
    if edges != [] {
      var n := |edges| - 1;
      var init, last := edges[..n], edges[n];
      ChildrenOfDistinct(init, p);
      if last.parent == p {
        ChildrenOfMembers(init, p);
        assert last !in init by {
          forall j | 0 <= j < n ensures init[j] != last {
            assert init[j] == edges[j];
          }
        }
        assert last == Hierarchy.Edge(p, last.child);
        var prior := ChildrenOf(init, p);
        assert last.child !in prior;
        assert ChildrenOf(edges, p) == prior + [last.child];
      }
    }
  }

  /** A name that is no edge's parent has an empty list. */
  lemma {:induction false} ChildrenOfNonParent(edges: seq<Edge>, p: string)
    requires p !in Parents(edges)
    ensures ChildrenOf(edges, p) == []
  {
    if edges != [] {
      var n := |edges| - 1;
      assert Parents(edges)[n] == edges[n].parent;
      assert Parents(edges[..n]) == Parents(edges)[..n];
      ChildrenOfNonParent(edges[..n], p);
    }
  }

  /** Every list holds exactly the children of the edges from its key. */
  lemma AllChildrenOfMembers(edges: seq<Edge>)
    ensures forall p, c :: c in ChildrenOf(edges, p) <==> Hierarchy.Edge(p, c) in edges
  {
    forall p {
      ChildrenOfMembers(edges, p);
    }
  }

  /** The dict the two loops build. */
  function DependencyDict(edges: seq<Edge>, modules: seq<string>): (d: Adjacency)
    ensures d.Valid()
    ensures forall m :: m in modules ==> m in d.children
    ensures forall e :: e in edges ==> e.parent in d.children && e.child in d.children[e.parent]
    ensures forall k, c :: k in d.children && c in d.children[k] ==> Hierarchy.Edge(k, c) in edges
  {
    var keys := DictKeys(edges, modules);
    AllChildrenOfMembers(edges);
    Adjacency(keys, map k | k in keys :: ChildrenOf(edges, k))
  }

  /** The parents after one more edge. */
  lemma ParentsSnoc(edges: seq<Edge>, j: nat)
    requires j < |edges|
    ensures Parents(edges[..j + 1]) == Parents(edges[..j]) + [edges[j].parent]
  {
  }

  /** The list of `p` after one more edge. */
  lemma ChildrenOfSnoc(edges: seq<Edge>, j: nat, p: string)
    requires j < |edges|
    ensures ChildrenOf(edges[..j + 1], p)
         == ChildrenOf(edges[..j], p) + (if edges[j].parent == p then [edges[j].child] else [])
  {
    assert edges[..j + 1][..j] == edges[..j];
  }

  /** Lines 171-174 of src/utils/extract_graph.py: a key with an empty list for each module, in first-seen order. */
  method AddModules(modules: seq<string>) returns (keys: seq<string>, children: map<string, seq<string>>)
    ensures keys == AppendNew([], modules)
    ensures forall k :: k in children <==> k in keys
    ensures forall k :: k in children ==> children[k] == []
  {
    keys, children := [], map[];
    for i := 0 to |modules|
      invariant keys == AppendNew([], modules[..i])
      invariant forall k :: k in children <==> k in keys
      invariant forall k :: k in children ==> children[k] == []
    {
      var m := modules[i];
      TakeSnoc(modules, i);
      AppendNewSnoc([], modules[..i], m);
      if m !in children {
        keys := keys + [m];
        children := children[m := []];
      }
    }
    assert modules[..|modules|] == modules;
  }

  /** Lines 176-180 of src/utils/extract_graph.py: each edge's child appended to its parent's list, the parent added as a key first when missing. */
  method AddEdges(edges: seq<Edge>, base: seq<string>, init: map<string, seq<string>>)
    returns (keys: seq<string>, children: map<string, seq<string>>)
    requires forall k :: k in init <==> k in base
    requires forall k :: k in init ==> init[k] == []
    ensures keys == AppendNew(base, Parents(edges))
    ensures forall k :: k in children <==> k in keys
    ensures forall k :: k in children ==> children[k] == ChildrenOf(edges, k)
  {
    keys, children := base, init;
    for j := 0 to |edges|
      invariant keys == AppendNew(base, Parents(edges[..j]))
      invariant forall k :: k in children <==> k in keys
      invariant forall k :: k in children ==> children[k] == ChildrenOf(edges[..j], k)
    {
      var src, dst := edges[j].parent, edges[j].child;
      ParentsSnoc(edges, j);
      AppendNewSnoc(base, Parents(edges[..j]), src);
      ghost var prior := children;
      var list: seq<string>;
      if src in children {
        list := children[src];
      } else {
        ChildrenOfNonParent(edges[..j], src);
        keys := keys + [src];
        list := [];
      }
      assert list == ChildrenOf(edges[..j], src);
      ChildrenOfSnoc(edges, j, src);
      children := children[src := list + [dst]];
      forall k | k in children && k != src
        ensures children[k] == ChildrenOf(edges[..j + 1], k)
      {
        ChildrenOfSnoc(edges, j, k);
        assert children[k] == prior[k];
      }
    }
    assert edges[..|edges|] == edges;
  }

  /** Lines 171-180 of src/utils/extract_graph.py: fill the dict with every module, then append each edge's child to its parent's list. */
  method BuildDependencyDict(edges: seq<Edge>, modules: seq<string>) returns (d: Adjacency)
    ensures d == DependencyDict(edges, modules)
  {
    var keys, children := AddModules(modules);
    keys, children := AddEdges(edges, keys, children);
    d := Adjacency(keys, children);
    assert children == DependencyDict(edges, modules).children;
  }

  /** The final order: the non-empty sort result followed by the modules it misses, or the module list itself. */
  function OrderOf(sorted: Option<seq<string>>, modules: seq<string>): (r: seq<string>)
    ensures forall m :: m in modules ==> m in r
    ensures sorted.Some? ==> sorted.value <= r
    ensures forall m :: m in r ==> m in modules || (sorted.Some? && m in sorted.value)
  {
    if sorted.Some? && sorted.value != [] then AppendNew(sorted.value, modules) else modules
  }

  /** Lines 186-191 of src/utils/extract_graph.py: append every module the sort result misses, or fall back to the module list. */
  method FinalOrder(sorted: Option<seq<string>>, modules: seq<string>) returns (order: seq<string>)
    ensures order == OrderOf(sorted, modules)
  {
    if sorted.Some? && sorted.value != [] {
      order := sorted.value;
      for i := 0 to |modules|
        invariant order == AppendNew(sorted.value, modules[..i])
      {
        TakeSnoc(modules, i);
        AppendNewSnoc(sorted.value, modules[..i], modules[i]);
        if modules[i] !in order {
          order := order + [modules[i]];
        }
      }
      assert modules[..|modules|] == modules;
    } else {
      order := modules;
    }
  }

  /** What `get_modules_and_dependencies` returns; a parse failure is the exception the parser raises. */
  datatype Outcome =
    | NoHierarchy
    | ParseFailed(error: Hierarchy.ParseError)
    | Analyzed(order: seq<string>, deps: Adjacency)

  /** The whole function, with the output of the Yosys run as its input (`None` when the run failed). */
  function Analyze(yosys: Option<string>): (r: Outcome)
    ensures r.Analyzed? ==> r.deps.Valid() && forall m :: m in r.order ==> m in r.deps.children
  {
    match yosys
    case None => NoHierarchy
    case Some(output) =>
      match Hierarchy.Parse(output)
      case Err(e) => ParseFailed(e)
      case Ok(rep) =>
        Hierarchy.ParsedReportIsClosed(Strings.SplitLines(output));
        OrderIsKeyed(rep.edges, rep.modules);
        Analyzed(OrderOf(TopoSort.TopologicalSort(rep.edges), rep.modules), DependencyDict(rep.edges, rep.modules))
  }

  /** When every edge joins two modules, each entry of the final order is a key of the dict. */
  lemma OrderIsKeyed(edges: seq<Edge>, modules: seq<string>)
    requires forall e :: e in edges ==> e.parent in modules && e.child in modules
    ensures forall m :: m in OrderOf(TopoSort.TopologicalSort(edges), modules) ==> m in DependencyDict(edges, modules).children
  {
    var sorted := TopoSort.TopologicalSort(edges);
    forall m | m in OrderOf(sorted, modules)
      ensures m in modules
    {
      if m !in modules {
        assert m in TopoSort.Vertices(edges);
        var e :| e in edges && (m == e.parent || m == e.child);
      }
    }
  }

  /** `get_modules_and_dependencies` after `run_yosys`. */
  method GetModulesAndDependencies(yosys: Option<string>) returns (r: Outcome)
    ensures r == Analyze(yosys)
  {
    if yosys.None? {
      return NoHierarchy;
    }
    var parsed := Hierarchy.ParseHierarchy(yosys.value);
    if parsed.Err? {
      return ParseFailed(parsed.error);
    }
    var edges, modules := parsed.value.edges, parsed.value.modules;
    var deps := BuildDependencyDict(edges, modules);
    var order := FinalOrder(TopoSort.TopologicalSort(edges), modules);
    r := Analyzed(order, deps);
  }

  /** When every parent is a module, the keys are the modules, each once, in first-seen order. */
  lemma KeysAreModulesWhenClosed(edges: seq<Edge>, modules: seq<string>)
    requires forall e :: e in edges ==> e.parent in modules
    ensures DependencyDict(edges, modules).keys == AppendNew([], modules)
  {
    var base := AppendNew([], modules);
    forall x | x in Parents(edges)
      ensures x in base
    {
      var i :| 0 <= i < |edges| && Parents(edges)[i] == x;
      assert edges[i] in edges;
    }
    AppendNewCovered(base, Parents(edges));
  }

  /** Names appended after an order that already holds every endpoint leave the edges respected. */
  lemma RespectsEdgesExtended(edges: seq<Edge>, sorted: seq<string>, more: seq<string>)
    requires TopoSort.RespectsEdges(edges, sorted)
    requires forall e :: e in edges ==> e.parent in sorted && e.child in sorted
    ensures TopoSort.RespectsEdges(edges, AppendNew(sorted, more))
  {
    var order := AppendNew(sorted, more);
    forall i, j | 0 <= i < |order| && 0 <= j < |order| && Hierarchy.Edge(order[i], order[j]) in edges
      ensures i < j
    {
      var e := Hierarchy.Edge(order[i], order[j]);
      assert e.parent in sorted && e.child in sorted;
      assert i < |sorted| && j < |sorted|;
      assert order[i] == sorted[i] && order[j] == sorted[j];
    }
  }

  /** `order` lists each module exactly once and nothing else, parents before children. */
  ghost predicate OrdersModules(edges: seq<Edge>, modules: seq<string>, order: seq<string>) {
    && Distinct(order)
    && (forall m :: m in order <==> m in modules)
    && TopoSort.RespectsEdges(edges, order)
  }

  /** A topological order of a graph whose endpoints are all modules, completed by the modules, lists each module once, parents first. */
  lemma CompletedOrder(edges: seq<Edge>, modules: seq<string>, sorted: seq<string>)
    requires TopoSort.IsTopologicalOrder(edges, sorted)
    requires forall e :: e in edges ==> e.parent in modules && e.child in modules
    ensures OrdersModules(edges, modules, AppendNew(sorted, modules))
  {
    forall m | m in sorted
      ensures m in modules
    {
      assert m in TopoSort.Vertices(edges);
      var e :| e in edges && (m == e.parent || m == e.child);
    }
    RespectsEdgesExtended(edges, sorted, modules);
  }

  /**
   * On an acyclic graph with at least one edge whose endpoints are all modules, the final
   * order lists every module once, parents before children.
   */
  lemma FinalOrderIsTopological(edges: seq<Edge>, modules: seq<string>)
    requires edges != [] && !TopoSort.HasCycle(edges)
    requires forall e :: e in edges ==> e.parent in modules && e.child in modules
    ensures OrdersModules(edges, modules, OrderOf(TopoSort.TopologicalSort(edges), modules))
  {
    var result := TopoSort.TopologicalSort(edges);
    var sorted := result.value;
    assert edges[0].parent in sorted;
    CompletedOrder(edges, modules, sorted);
  }

  /** With a cycle, or with no edge at all, the final order is the module list as parsed, duplicates kept. */
  lemma FallbackKeepsModules(edges: seq<Edge>, modules: seq<string>)
    requires edges == [] || TopoSort.HasCycle(edges)
    ensures OrderOf(TopoSort.TopologicalSort(edges), modules) == modules
  {
    if edges == [] {
      assert TopoSort.Vertices(edges) == [];
    }
  }

  /**
   * What the analysis of a report that parsed promises: every module is a key of the dict,
   * and every module is in the final order.
   */
  lemma AnalysisCoversModules(output: string)
    requires Hierarchy.Parse(output).Ok?
    ensures var rep := Hierarchy.Parse(output).value;
      && Analyze(Some(output)).Analyzed?
      && Analyze(Some(output)).deps.keys == AppendNew([], rep.modules)
      && forall m :: m in rep.modules ==> m in Analyze(Some(output)).order
  {
    Hierarchy.ParsedReportIsClosed(Strings.SplitLines(output));
    var rep := Hierarchy.Parse(output).value;
    KeysAreModulesWhenClosed(rep.edges, rep.modules);
  }
}
