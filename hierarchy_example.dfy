/**
 * Worked scenarios for the hierarchy parser: a top module with two children, the second of
 * which uses the first, written both as generic lines and as lines in the report's own
 * layout (`parse_hierarchy` in src/utils/extract_graph.py).
 */
module HierarchyExample {
  import opened Wrappers
  import opened Seqs
  import opened Strings
  import opened Hierarchy

  /** A line holding the top-module marker is never blank. */
  lemma TopLineIsNotBlank(line: string)
    requires Contains(line, TopMarker)
    ensures !IsBlank(line)
  {
    ContainsShowsChars(line, TopMarker, 0);
    StripEmptyIffBlank(line);
  }

  /** The top line opens the hierarchy with its own entry alone on the stack, and the run goes on with the rest of the lines. */
  lemma RunPastTopLine(t: string, rest: seq<string>) returns (w: Walk)
    requires Contains(t, TopMarker)
    ensures Run(Start, [t] + rest) == Run(w, rest)
    ensures w.started && |w.stack| == 1 && Strip(w.stack[0]) == ModuleName(t)
    ensures w.edges == [] && w.modules == [ModuleName(t)] && w.lastSpaces == Depth(t)
  {
    TopLineIsNotBlank(t);
    assert MarkerOf(t) == TopMarker;
    w := OpenTop(Start, t);
    assert StepLine(Start, t) == Ok(w);
    assert ([t] + rest)[0] == t && ([t] + rest)[1..] == rest;
  }

  /**
   * A top module `t` that uses `a` and `b`, where `b` in turn uses `c`: `a` and `b` are
   * indented alike below `t`, and `c` deeper below `b`. The parse records the edges
   * (t, a), (t, b) and (b, c) in that order, and the four names.
   */
  lemma NestedUseScenario(t: string, a: string, b: string, c: string)
    requires Contains(t, TopMarker)
    requires !Contains(a, TopMarker) && Contains(a, UsedProbe)
    requires !Contains(b, TopMarker) && Contains(b, UsedProbe)
    requires !Contains(c, TopMarker) && Contains(c, UsedProbe)
    requires Depth(t) < Depth(a) == Depth(b) < Depth(c)
    ensures Run(Start, [t, a, b, c]).Ok?
    ensures var w := Run(Start, [t, a, b, c]).value;
      && w.edges == [Edge(ModuleName(t), ModuleName(a)), Edge(ModuleName(t), ModuleName(b)), Edge(ModuleName(b), ModuleName(c))]
      && w.modules == [ModuleName(t), ModuleName(a), ModuleName(b), ModuleName(c)]
  {
    PrependToThree(t, a, b, c);
    PrependToThree(ModuleName(t), ModuleName(a), ModuleName(b), ModuleName(c));
    var w0 := RunPastTopLine(t, [a, b, c]);
    UsedBelowTop(w0, a, b, c);
  }

  /** One element put before three. */
  lemma PrependToThree<T>(t: T, a: T, b: T, c: T)
    ensures [t] + [a, b, c] == [t, a, b, c]
  {
  }

  /** Below a lone top entry: `a` deeper, `b` beside it, `c` deeper below `b`. */
  lemma UsedBelowTop(w0: Walk, a: string, b: string, c: string)
    requires w0.started && |w0.stack| == 1 && w0.edges == [] && |w0.modules| == 1
    requires !Contains(a, TopMarker) && Contains(a, UsedProbe)
    requires !Contains(b, TopMarker) && Contains(b, UsedProbe)
    requires !Contains(c, TopMarker) && Contains(c, UsedProbe)
    requires w0.lastSpaces < Depth(a) == Depth(b) < Depth(c)
    ensures Run(w0, [a, b, c]).Ok?
    ensures var w := Run(w0, [a, b, c]).value;
      && w.edges == [Edge(Strip(w0.stack[0]), ModuleName(a)), Edge(Strip(w0.stack[0]), ModuleName(b)), Edge(ModuleName(b), ModuleName(c))]
      && w.modules == w0.modules + [ModuleName(a), ModuleName(b), ModuleName(c)]
  {
    var w1 := FirstChildStep(w0, a);
    var w2 := SecondChildStep(w1, b);
    var w3 := GrandchildStep(w2, c);
    var top := Strip(w0.stack[0]);
    AppendThree(w0.edges, w1.edges, w2.edges, w3.edges,
      Edge(top, ModuleName(a)), Edge(top, ModuleName(b)), Edge(ModuleName(b), ModuleName(c)));
    AppendThree(w0.modules, w1.modules, w2.modules, w3.modules, ModuleName(a), ModuleName(b), ModuleName(c));
    ThreeLineTails(a, b, c);
    RunPastUsedLine(w0, [a, b, c]);
    RunPastUsedLine(w1, [b, c]);
    RunPastUsedLine(w2, [c]);
    assert Run(w0, [a, b, c]) == Ok(w3);
  }

  /** A deeper used line below a lone top entry: the stack now holds two entries. */
  lemma FirstChildStep(w0: Walk, a: string) returns (w1: Walk)
    requires w0.started && |w0.stack| == 1 && w0.edges == []
    requires !Contains(a, TopMarker) && Contains(a, UsedProbe) && w0.lastSpaces < Depth(a)
    ensures StepLine(w0, a) == Ok(w1) && w1.started && w1.lastSpaces == Depth(a)
    ensures |w1.stack| == 2 && w1.stack[0] == w0.stack[0]
    ensures w1.edges == [Edge(Strip(w0.stack[0]), ModuleName(a))] && w1.modules == w0.modules + [ModuleName(a)]
  {
    DeeperStep(w0, a);
    w1 := StepLine(w0, a).value;
  }

  /** A used line beside the first child: its edge comes from the top entry, and its stripped name is pushed. */
  lemma SecondChildStep(w1: Walk, b: string) returns (w2: Walk)
    requires w1.started && |w1.stack| == 2 && |w1.edges| == 1
    requires !Contains(b, TopMarker) && Contains(b, UsedProbe) && w1.lastSpaces == Depth(b)
    ensures StepLine(w1, b) == Ok(w2) && w2.started && w2.lastSpaces == Depth(b)
    ensures w2.stack != [] && w2.stack[|w2.stack| - 1] == ModuleName(b) && Strip(ModuleName(b)) == ModuleName(b)
    ensures w2.edges == w1.edges + [Edge(Strip(w1.stack[0]), ModuleName(b))] && w2.modules == w1.modules + [ModuleName(b)]
  {
    SiblingNameIsFlat(w1, b);
    SiblingStep(w1, b);
    w2 := StepLine(w1, b).value;
  }

  /** A used line deeper than a stripped name on the stack top hangs below that name. */
  lemma GrandchildStep(w2: Walk, c: string) returns (w3: Walk)
    requires w2.started && w2.stack != [] && Strip(w2.stack[|w2.stack| - 1]) == w2.stack[|w2.stack| - 1]
    requires !Contains(c, TopMarker) && Contains(c, UsedProbe) && w2.lastSpaces < Depth(c)
    ensures StepLine(w2, c) == Ok(w3)
    ensures w3.edges == w2.edges + [Edge(w2.stack[|w2.stack| - 1], ModuleName(c))] && w3.modules == w2.modules + [ModuleName(c)]
  {
    DeeperStep(w2, c);
    w3 := StepLine(w2, c).value;
  }

  /** A module name as the report prints it: no whitespace, no backslash, and neither marker's first letter. */
  predicate PlainName(name: string) {
    name != [] && forall i :: 0 <= i < |name| ==> !IsSpace(name[i]) && name[i] != '\\' && name[i] != 'T' && name[i] != 'U'
  }

  /** `n` spaces. */
  function Spaces(n: nat): (r: string)
    ensures |r| == n && forall i :: 0 <= i < n ==> r[i] == ' '
  {
    seq(n, _ => ' ')
  }

  /** A report line as Yosys prints it: `indent` spaces, the marker, a space, a backslash and the name. */
  function ReportLine(indent: nat, marker: string, name: string): string {
    Spaces(indent) + (marker + (" \\" + name))
  }

  /** The clean-up removes the marker and the backslash, leaving the indentation, one space and the name. */
  lemma CleanedReportLine(indent: nat, marker: string, name: string)
    requires (marker == TopMarker || marker == UsedMarker) && PlainName(name)
    ensures Cleaned(ReportLine(indent, marker, name), marker) == Spaces(indent) + " " + name
  {
    MarkerRemoved(indent, marker, name);
    BackslashRemoved(indent, name);
  }

  /** Removing the marker from a report line leaves the indentation, the space, the backslash and the name. */
  lemma MarkerRemoved(indent: nat, marker: string, name: string)
    requires (marker == TopMarker || marker == UsedMarker) && PlainName(name)
    ensures RemoveAll(ReportLine(indent, marker, name), marker) == Spaces(indent) + (" \\" + name)
  {
    var rest := " \\" + name;
    assert marker[0] == 'T' || marker[0] == 'U';
    assert marker[0] !in rest by {
      assert forall i :: 0 <= i < |rest| ==> rest[i] == (if i < 2 then " \\"[i] else name[i - 2]);
    }
    calc {
      RemoveAll(ReportLine(indent, marker, name), marker);
      { RemoveAllKeepsPrefix(Spaces(indent), marker + rest, marker); }
      Spaces(indent) + RemoveAll(marker + rest, marker);
      { RemoveAllDropsHead(marker, rest); }
      Spaces(indent) + RemoveAll(rest, marker);
      { RemoveAllAbsent(rest, marker); }
      Spaces(indent) + rest;
    }
  }

  /** Removing the backslash leaves the indentation, the space and the name. */
  lemma BackslashRemoved(indent: nat, name: string)
    requires PlainName(name)
    ensures RemoveAll(Spaces(indent) + (" \\" + name), "\\") == Spaces(indent) + " " + name
  {
    var pre := Spaces(indent) + " ";
    assert '\\' !in name;
    calc {
      RemoveAll(Spaces(indent) + (" \\" + name), "\\");
      { assert Spaces(indent) + (" \\" + name) == pre + ("\\" + name); }
      RemoveAll(pre + ("\\" + name), "\\");
      { RemoveAllKeepsPrefix(pre, "\\" + name, "\\"); }
      pre + RemoveAll("\\" + name, "\\");
      { RemoveAllDropsHead("\\", name); }
      pre + RemoveAll(name, "\\");
      { RemoveAllAbsent(name, "\\"); }
      pre + name;
    }
  }

  /** A used-module report line holds the used probe and not the top marker; a top line holds the top marker. */
  lemma ReportLineMarkers(indent: nat, marker: string, name: string)
    requires (marker == TopMarker || marker == UsedMarker) && PlainName(name)
    ensures Contains(ReportLine(indent, marker, name), marker)
    ensures marker == UsedMarker ==>
      !Contains(ReportLine(indent, marker, name), TopMarker) && Contains(ReportLine(indent, marker, name), UsedProbe)
  {
    var line := ReportLine(indent, marker, name);
    var tail := marker + (" \\" + name);
    assert marker <= tail;
    ContainsAfterPrefix(Spaces(indent), tail, marker);
    if marker == UsedMarker {
      assert UsedProbe <= tail;
      ContainsAfterPrefix(Spaces(indent), tail, UsedProbe);
      assert 'T' !in line by {
        forall i | 0 <= i < |line|
          ensures line[i] != 'T'
        {
          if i >= indent + |UsedMarker| + 2 {
            assert line[i] == name[i - indent - |UsedMarker| - 2];
          }
        }
      }
      MissingHeadNotContained(line, TopMarker);
    }
  }

  /** What the parser reads from a report line: its marker, the module's name, and a depth one more than its indentation. */
  lemma ReportLineFields(indent: nat, marker: string, name: string)
    requires (marker == TopMarker || marker == UsedMarker) && PlainName(name)
    ensures var line := ReportLine(indent, marker, name);
      && MarkerOf(line) == marker && ModuleName(line) == name && Depth(line) == indent + 1
      && (marker == TopMarker ==> Contains(line, TopMarker))
      && (marker == UsedMarker ==> !Contains(line, TopMarker) && Contains(line, UsedProbe))
  {
    var line := ReportLine(indent, marker, name);
    ReportLineMarkers(indent, marker, name);
    CleanedReportLine(indent, marker, name);
    var cleaned := Spaces(indent) + " " + name;
    var pre := Spaces(indent) + " ";
    assert cleaned == pre + name;
    StripAfterSpaces(pre, name);
    LeadingSpacesBefore(pre, name);
  }

  /** Leading spaces followed by a non-space are counted exactly. */
  lemma {:induction false} LeadingSpacesBefore(x: string, s: string)
    requires forall i :: 0 <= i < |x| ==> x[i] == ' '
    requires s != [] && s[0] != ' '
    ensures LeadingSpaces(x + s) == |x|
    decreases |x|
  {
    if x == [] {
      assert x + s == s;
    } else {
      assert (x + s)[1..] == x[1..] + s;
      LeadingSpacesBefore(x[1..], s);
    }
  }

  /**
   * The report of a top module `top` that uses `sub1` and `sub2`, where `sub2` uses `sub1` again:
   *
   *     Top module: \top
   *       Used module: \sub1
   *       Used module: \sub2
   *         Used module: \sub1
   *
   * It parses to the edges (top, sub1), (top, sub2) and (sub2, sub1), and the names
   * top, sub1, sub2 and sub1, the repeated name kept.
   */
  lemma ExampleReport()
    ensures ParseLines([ReportLine(0, TopMarker, "top"), ReportLine(2, UsedMarker, "sub1"),
                        ReportLine(2, UsedMarker, "sub2"), ReportLine(4, UsedMarker, "sub1")])
      == Ok(Report([Edge("top", "sub1"), Edge("top", "sub2"), Edge("sub2", "sub1")], ["top", "sub1", "sub2", "sub1"]))
  {
    var t, a := ReportLine(0, TopMarker, "top"), ReportLine(2, UsedMarker, "sub1");
    var b, c := ReportLine(2, UsedMarker, "sub2"), ReportLine(4, UsedMarker, "sub1");
    ExampleNames();
    ReportLineFields(0, TopMarker, "top");
    ReportLineFields(2, UsedMarker, "sub1");
    ReportLineFields(2, UsedMarker, "sub2");
    ReportLineFields(4, UsedMarker, "sub1");
    NestedUseScenario(t, a, b, c);
    ThreeEdgesKept("top", "sub1", "sub2");
  }

  /** The example's names are plain. */
  lemma ExampleNames()
    ensures PlainName("top") && PlainName("sub1") && PlainName("sub2")
  {
  }

  /** The example's three edges are distinct, so `list(set(...))` keeps them all. */
  lemma ThreeEdgesKept(p: string, q: string, r: string)
    requires q != r && p != r
    ensures var edges := [Edge(p, q), Edge(p, r), Edge(r, q)];
      AppendNew([], edges) == edges
  {
    var edges := [Edge(p, q), Edge(p, r), Edge(r, q)];
    assert [] + edges == edges;
    assert Distinct(edges) by {
      assert edges[0] != edges[1] && edges[0] != edges[2] && edges[1] != edges[2];
    }
    AppendNewDistinct([], edges);
  }
}
