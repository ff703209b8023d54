/**
 * The parser of the indented hierarchy report that Yosys's `hierarchy` pass prints
 * (`parse_hierarchy` and `number_of_spaces` in src/utils/extract_graph.py).
 *
 * The report's lines are read one at a time by a stack machine. A "Top module:" line
 * opens the hierarchy; a "Used module" line is pushed below the current stack top when it
 * is indented deeper than the previous module line, replaces the top when indented
 * equally, and first pops every entry at least as deep when indented less. The first
 * whitespace-only line after the hierarchy opened ends the parse.
 *
 * The stack holds strings, and depth is re-measured from them: a deeper line pushes its
 * text with the indentation still on it, while the other two cases push the stripped
 * name, whose depth then reads as zero.
 */
module Hierarchy {
  import opened Wrappers
  import opened Seqs
  import opened Strings

  const TopMarker: string := "Top module:"
  /** The test for a used-module line omits the colon that the clean-up removes. */
  const UsedProbe: string := "Used module"
  const UsedMarker: string := "Used module:"

  /** `parent` instantiates `child`. */
  datatype Edge = Edge(parent: string, child: string)

  /** The IndexError raised by `hierarchy_stack[-1]` or `pop()` on an empty stack. */
  datatype ParseError = StackUnderflow

  /** The pair returned by the parser: deduplicated edges and every module name seen, duplicates kept. */
  datatype Report = Report(edges: seq<Edge>, modules: seq<string>)

  /** The local state of the parsing loop; `lastSpaces` is also the value of `current_spaces` between lines. */
  datatype Walk = Walk(stack: seq<string>, edges: seq<Edge>, modules: seq<string>, started: bool, lastSpaces: nat)

  const Start: Walk := Walk([], [], [], false, 0)

  /** The number of leading `' '` characters: tabs and other whitespace end the run. */
  function LeadingSpaces(line: string): (n: nat)
    ensures n <= |line|
    ensures forall i :: 0 <= i < n ==> line[i] == ' '
    ensures n == |line| || line[n] != ' '
  {
    if line != [] && line[0] == ' ' then 1 + LeadingSpaces(line[1..]) else 0
  }

  /** `number_of_spaces`: counts spaces until the first other character. */
  method NumberOfSpaces(line: string) returns (count: nat)
    ensures count == LeadingSpaces(line)
  {
    count := 0;
    while count < |line|
      invariant count <= |line|
      invariant forall i :: 0 <= i < count ==> line[i] == ' '
    {
      if line[count] != ' ' {
        break;
      }
      count := count + 1;
    }
  }

  /** `current_line`: the report line with its marker and every backslash removed. */
  function Cleaned(line: string, marker: string): (r: string)
    requires |marker| > 0
    ensures '\\' !in r
  {
    RemoveAll(RemoveAll(line, marker), "\\")
  }

  /** Whether the loop body treats `line` as a module line in state `w`. */
  predicate IsModuleLine(w: Walk, line: string) {
    Contains(line, TopMarker) || (w.started && Contains(line, UsedProbe))
  }

  /** The marker removed from a module line. */
  function MarkerOf(line: string): string {
    if Contains(line, TopMarker) then TopMarker else UsedMarker
  }

  /** `current_module`: the cleaned line, stripped. */
  function ModuleName(line: string): string {
    Strip(Cleaned(line, MarkerOf(line)))
  }

  /** The indentation of a module line, measured after the clean-up. */
  function Depth(line: string): nat {
    LeadingSpaces(Cleaned(line, MarkerOf(line)))
  }

  /** `while number_of_spaces(hierarchy_stack[-1]) >= current_spaces: pop()`; None when it would index an empty stack. */
  function PopDeeper(stack: seq<string>, n: nat): (r: Option<seq<string>>)
    ensures r.Some? ==> 0 < |r.value| <= |stack| && r.value == stack[..|r.value|]
    ensures r.Some? ==> LeadingSpaces(r.value[|r.value| - 1]) < n
    ensures r.Some? ==> forall i :: |r.value| <= i < |stack| ==> LeadingSpaces(stack[i]) >= n
    ensures r.None? <==> forall i :: 0 <= i < |stack| ==> LeadingSpaces(stack[i]) >= n
    decreases |stack|
  {
    if stack == [] then None
    else if LeadingSpaces(stack[|stack| - 1]) >= n then PopDeeper(stack[..|stack| - 1], n)
    else Some(stack)
  }

  /** A "Top module:" line: the cleaned line is pushed as it is and its depth recorded. */
  function OpenTop(w: Walk, line: string): (r: Walk)
    ensures r.started && r.edges == w.edges && w.modules <= r.modules && |r.modules| == |w.modules| + 1
    ensures r.stack != [] && Strip(r.stack[|r.stack| - 1]) == r.modules[|r.modules| - 1]
    ensures r.lastSpaces == LeadingSpaces(r.stack[|r.stack| - 1])
  {
    var current := Cleaned(line, TopMarker);
    Walk(w.stack + [current], w.edges, w.modules + [Strip(current)], true, LeadingSpaces(current))
  }

  /** A "Used module" line, given its cleaned text `current`, placed by comparing depths. */
  function PlaceUsed(w: Walk, current: string): (r: Result<Walk, ParseError>)
    ensures r.Ok? ==> r.value.started && r.value.modules == w.modules + [Strip(current)]
    ensures r.Ok? ==> r.value.lastSpaces == LeadingSpaces(current)
    ensures r.Ok? ==> |w.edges| <= |r.value.edges| <= |w.edges| + 1 && r.value.edges[..|w.edges|] == w.edges
    ensures r.Ok? && |r.value.edges| > |w.edges| ==> r.value.edges[|w.edges|].child == Strip(current)
  {
    var name := Strip(current);
    var n := LeadingSpaces(current);
    var modules := w.modules + [name];
    if n > w.lastSpaces then
      if w.stack == [] then Err(StackUnderflow)
      else Ok(Walk(w.stack + [current], w.edges + [Edge(Strip(w.stack[|w.stack| - 1]), name)], modules, true, n))
    else if n == w.lastSpaces then
      if w.stack == [] then Err(StackUnderflow)
      else
        var rest := w.stack[..|w.stack| - 1];
        var edges := if rest != [] then w.edges + [Edge(Strip(rest[|rest| - 1]), name)] else w.edges;
        Ok(Walk(rest + [name], edges, modules, true, n))
    else
      match PopDeeper(w.stack, n)
      case None => Err(StackUnderflow)
      case Some(kept) => Ok(Walk(kept + [name], w.edges + [Edge(Strip(kept[|kept| - 1]), name)], modules, true, n))
  }

  /** One pass of the loop body before the blank-line test. */
  function StepLine(w: Walk, line: string): (r: Result<Walk, ParseError>)
    ensures r.Ok? ==> r.value.started == (w.started || Contains(line, TopMarker))
    ensures r.Ok? && !IsModuleLine(w, line) ==> r.value == w
    ensures r.Ok? && IsModuleLine(w, line) ==> r.value.modules == w.modules + [ModuleName(line)]
    ensures r.Ok? && IsModuleLine(w, line) ==> r.value.lastSpaces == Depth(line)
    ensures r.Ok? ==> |w.edges| <= |r.value.edges| <= |w.edges| + 1 && r.value.edges[..|w.edges|] == w.edges
    ensures r.Ok? && |r.value.edges| > |w.edges| ==>
              !Contains(line, TopMarker) && r.value.edges[|w.edges|].child == ModuleName(line)
    ensures r.Err? ==> w.started && !Contains(line, TopMarker) && Contains(line, UsedProbe)
  {
    if Contains(line, TopMarker) then Ok(OpenTop(w, line))
    else if w.started && Contains(line, UsedProbe) then PlaceUsed(w, Cleaned(line, UsedMarker))
    else Ok(w)
  }

  /** `len(line.strip()) == 0`. */
  predicate IsBlank(line: string) {
    Strip(line) == []
  }

  /** The loop over the lines, including the stop at the first blank line once the hierarchy opened. */
  function Run(w: Walk, lines: seq<string>): (r: Result<Walk, ParseError>)
    ensures r.Ok? ==> w.modules <= r.value.modules && |r.value.modules| <= |w.modules| + |lines|
    ensures r.Ok? ==> w.edges <= r.value.edges && |r.value.edges| <= |w.edges| + |lines|
    decreases |lines|
  {
    if lines == [] then Ok(w)
    else
      match StepLine(w, lines[0])
      case Err(e) => Err(e)
      case Ok(next) =>
        if next.started && IsBlank(lines[0]) then
          if next.stack == [] then Err(StackUnderflow)
          else Ok(next.(stack := next.stack[..|next.stack| - 1], started := false))
        else Run(next, lines[1..])
  }

  /** `parse_hierarchy` on a list of lines: `list(set(edges))` is taken in first-seen order. */
  function ParseLines(lines: seq<string>): (r: Result<Report, ParseError>)
    ensures r.Ok? ==> Distinct(r.value.edges) && |r.value.modules| <= |lines|
  {
    match Run(Start, lines)
    case Err(e) => Err(e)
    case Ok(w) => Ok(Report(AppendNew([], w.edges), w.modules))
  }

  /** `parse_hierarchy(output)`. */
  function Parse(output: string): (r: Result<Report, ParseError>)
    ensures r.Ok? ==> Distinct(r.value.edges) && |r.value.modules| <= |SplitLines(output)|
  {
    ParseLines(SplitLines(output))
  }

  /** Lines 110-111 of src/utils/extract_graph.py: pop while the top is at least `n` deep; `None` where `hierarchy_stack[-1]` would raise. */
  method PopWhileDeeper(stack: seq<string>, n: nat) returns (r: Option<seq<string>>)
    ensures r == PopDeeper(stack, n)
  {
    var rest := stack;
    while true
      invariant PopDeeper(stack, n) == PopDeeper(rest, n)
      decreases |rest|
    {
      if rest == [] {
        return None;
      }
      var depth := NumberOfSpaces(rest[|rest| - 1]);
      if depth < n {
        return Some(rest);
      }
      rest := rest[..|rest| - 1];
    }
  }

  /** Lines 96-113 of src/utils/extract_graph.py: a used-module line, given its cleaned text, placed on the stack. */
  method PlaceUsedLine(w: Walk, currentLine: string) returns (r: Result<Walk, ParseError>)
    requires w.started
    ensures r == PlaceUsed(w, currentLine)
  {
    var stack, edges, modules := w.stack, w.edges, w.modules;
    var currentModule := Strip(currentLine);
    modules := modules + [currentModule];
    var currentSpaces := NumberOfSpaces(currentLine);
    if currentSpaces > w.lastSpaces {
      if stack == [] {
        return Err(StackUnderflow);
      }
      edges := edges + [Edge(Strip(stack[|stack| - 1]), currentModule)];
      stack := stack + [currentLine];
    } else if currentSpaces == w.lastSpaces {
      if stack == [] {
        return Err(StackUnderflow);
      }
      stack := stack[..|stack| - 1];
      if |stack| > 0 {
        edges := edges + [Edge(Strip(stack[|stack| - 1]), currentModule)];
      }
      stack := stack + [currentModule];
    } else {
      var kept := PopWhileDeeper(stack, currentSpaces);
      if kept.None? {
        return Err(StackUnderflow);
      }
      stack := kept.value;
      edges := edges + [Edge(Strip(stack[|stack| - 1]), currentModule)];
      stack := stack + [currentModule];
    }
    return Ok(Walk(stack, edges, modules, true, currentSpaces));
  }

  /** Lines 85-115 of src/utils/extract_graph.py: one pass of the loop body up to the blank-line test. */
  method ProcessLine(w: Walk, line: string) returns (r: Result<Walk, ParseError>)
    ensures r == StepLine(w, line)
  {
    if Contains(line, TopMarker) {
      var currentLine := Cleaned(line, TopMarker);
      var currentModule := Strip(currentLine);
      var currentSpaces := NumberOfSpaces(currentLine);
      r := Ok(Walk(w.stack + [currentLine], w.edges, w.modules + [currentModule], true, currentSpaces));
    } else if w.started && Contains(line, UsedProbe) {
      var currentLine := Cleaned(line, UsedMarker);
      r := PlaceUsedLine(w, currentLine);
    } else {
      r := Ok(w);
    }
  }

  /** Proof step, unfolding `Run` once: a pass that neither fails nor stops leaves the rest of the lines to the loop. */
  lemma RunContinues(w: Walk, lines: seq<string>, next: Walk)
    requires lines != [] && StepLine(w, lines[0]) == Ok(next)
    requires !(next.started && IsBlank(lines[0]))
    ensures Run(w, lines) == Run(next, lines[1..])
  {
  }

  /** Proof step, unfolding `Run` once: a pass that reaches a blank line with the hierarchy open pops the stack and ends the loop. */
  lemma RunStops(w: Walk, lines: seq<string>, next: Walk)
    requires lines != [] && StepLine(w, lines[0]) == Ok(next)
    requires next.started && IsBlank(lines[0])
    ensures Run(w, lines) == if next.stack == [] then Err(StackUnderflow)
                             else Ok(next.(stack := next.stack[..|next.stack| - 1], started := false))
  {
  }

  /** Proof step, unfolding `Run` once: a pass that fails ends the loop with its error. */
  lemma RunFails(w: Walk, lines: seq<string>, e: ParseError)
    requires lines != [] && StepLine(w, lines[0]) == Err(e)
    ensures Run(w, lines) == Err(e)
  {
  }

  /** `parse_hierarchy`: the loop over the lines, with its stop at the first blank line. */
  method ParseHierarchy(output: string) returns (r: Result<Report, ParseError>)
    ensures r == Parse(output)
  {
    var lines := SplitLines(output);
    var w := Start;
    var i := 0;
    while i < |lines|
      invariant i <= |lines|
      invariant Run(Start, lines) == Run(w, lines[i..])
    {
      var line := lines[i];
      SuffixStep(lines, i);
      var stepped := ProcessLine(w, line);
      if stepped.Err? {
        RunFails(w, lines[i..], stepped.error);
        return Err(stepped.error);
      }
      var next := stepped.value;
      if next.started && |Strip(line)| == 0 {
        RunStops(w, lines[i..], next);
        if next.stack == [] {
          return Err(StackUnderflow);
        }
        return Ok(Report(AppendNew([], next.edges), next.modules));
      }
      RunContinues(w, lines[i..], next);
      w := next;
      i := i + 1;
    }
    assert lines[i..] == [];
    return Ok(Report(AppendNew([], w.edges), w.modules));
  }

  // ---------------------------------------------------------------------------
  // Properties of the parser

  /**
   * The invariant every state reachable from `Start` keeps: each stack entry, stripped,
   * and both ends of each edge are recorded module names, and an opened hierarchy has a
   * non-empty stack.
   */
  ghost predicate Consistent(w: Walk) {
    && (forall i :: 0 <= i < |w.stack| ==> Strip(w.stack[i]) in w.modules)
    && (forall e :: e in w.edges ==> e.parent in w.modules && e.child in w.modules)
    && (w.started ==> w.stack != [])
  }

  /** Every name is stripped and free of backslashes. */
  ghost predicate CleanNames(modules: seq<string>) {
    forall m :: m in modules ==> '\\' !in m && Strip(m) == m
  }

  /** Pushing `entry`, whose stripped form is the new `name`, onto a prefix of the stack keeps the invariant. */
  lemma PushKeepsConsistent(w: Walk, kept: seq<string>, entry: string, name: string, edges: seq<Edge>, n: nat)
    requires Consistent(w)
    requires |kept| <= |w.stack| && kept == w.stack[..|kept|]
    requires Strip(entry) == name
    requires edges == w.edges || (exists p :: p in w.modules && edges == w.edges + [Edge(p, name)])
    ensures Consistent(Walk(kept + [entry], edges, w.modules + [name], true, n))
  {
    PushKeepsStackNamed(w.stack, w.modules, kept, entry, name);
    PushKeepsEdgesClosed(w.edges, w.modules, edges, name);
  }

  lemma PushKeepsStackNamed(stack: seq<string>, modules: seq<string>, kept: seq<string>, entry: string, name: string)
    requires forall i :: 0 <= i < |stack| ==> Strip(stack[i]) in modules
    requires |kept| <= |stack| && kept == stack[..|kept|]
    requires Strip(entry) == name
    ensures forall i :: 0 <= i < |kept| + 1 ==> Strip((kept + [entry])[i]) in modules + [name]
  {
    forall i | 0 <= i < |kept| + 1 ensures Strip((kept + [entry])[i]) in modules + [name] {
      if i < |kept| {
        assert (kept + [entry])[i] == stack[i];
      }
    }
  }

  lemma PushKeepsEdgesClosed(prior: seq<Edge>, modules: seq<string>, edges: seq<Edge>, name: string)
    requires forall e :: e in prior ==> e.parent in modules && e.child in modules
    requires edges == prior || (exists p :: p in modules && edges == prior + [Edge(p, name)])
    ensures forall e :: e in edges ==> e.parent in modules + [name] && e.child in modules + [name]
  {
  }

  /** A deeper line keeps the invariant: its edge comes from the stripped stack top, a recorded module. */
  lemma DeeperKeepsConsistent(w: Walk, current: string)
    requires Consistent(w) && w.stack != [] && LeadingSpaces(current) > w.lastSpaces
    ensures PlaceUsed(w, current).Ok? && Consistent(PlaceUsed(w, current).value)
  {
    var name := Strip(current);
    var p := Strip(w.stack[|w.stack| - 1]);
    assert p in w.modules;
    assert PlaceUsed(w, current).value
      == Walk(w.stack + [current], w.edges + [Edge(p, name)], w.modules + [name], true, LeadingSpaces(current));
    PushKeepsConsistent(w, w.stack, current, name, w.edges + [Edge(p, name)], LeadingSpaces(current));
  }

  /** An equally indented line keeps the invariant, with or without an edge. */
  lemma SiblingKeepsConsistent(w: Walk, current: string)
    requires Consistent(w) && w.stack != [] && LeadingSpaces(current) == w.lastSpaces
    ensures PlaceUsed(w, current).Ok? && Consistent(PlaceUsed(w, current).value)
  {
    var name := Strip(current);
    var n := LeadingSpaces(current);
    var rest := w.stack[..|w.stack| - 1];
    StripIdempotent(current);
    if rest != [] {
      var p := Strip(rest[|rest| - 1]);
      assert rest[|rest| - 1] == w.stack[|rest| - 1];
      assert p in w.modules;
      assert PlaceUsed(w, current).value == Walk(rest + [name], w.edges + [Edge(p, name)], w.modules + [name], true, n);
      PushKeepsConsistent(w, rest, name, name, w.edges + [Edge(p, name)], n);
    } else {
      assert PlaceUsed(w, current).value == Walk(rest + [name], w.edges, w.modules + [name], true, n);
      PushKeepsConsistent(w, rest, name, name, w.edges, n);
    }
  }

  /** A shallower line that finds an entry to hang below keeps the invariant. */
  lemma DedentKeepsConsistent(w: Walk, current: string, kept: seq<string>)
    requires Consistent(w) && LeadingSpaces(current) < w.lastSpaces
    requires PopDeeper(w.stack, LeadingSpaces(current)) == Some(kept)
    ensures PlaceUsed(w, current).Ok? && Consistent(PlaceUsed(w, current).value)
  {
    var name := Strip(current);
    var n := LeadingSpaces(current);
    var p := Strip(kept[|kept| - 1]);
    StripIdempotent(current);
    assert kept[|kept| - 1] == w.stack[|kept| - 1];
    assert p in w.modules;
    assert PlaceUsed(w, current).value == Walk(kept + [name], w.edges + [Edge(p, name)], w.modules + [name], true, n);
    PushKeepsConsistent(w, kept, name, name, w.edges + [Edge(p, name)], n);
  }

  /** Placing a used-module line keeps the invariant. */
  lemma PlaceUsedKeepsConsistent(w: Walk, current: string)
    requires Consistent(w)
    ensures PlaceUsed(w, current).Ok? ==> Consistent(PlaceUsed(w, current).value)
  {
    var n := LeadingSpaces(current);
    if w.stack != [] && n > w.lastSpaces {
      DeeperKeepsConsistent(w, current);
    } else if w.stack != [] && n == w.lastSpaces {
      SiblingKeepsConsistent(w, current);
    } else if n < w.lastSpaces && PopDeeper(w.stack, n).Some? {
      DedentKeepsConsistent(w, current, PopDeeper(w.stack, n).value);
    }
  }

  lemma StepLineKeepsConsistent(w: Walk, line: string)
    requires Consistent(w)
    ensures StepLine(w, line).Ok? ==> Consistent(StepLine(w, line).value)
  {
    if Contains(line, TopMarker) {
      var current := Cleaned(line, TopMarker);
      PushKeepsConsistent(w, w.stack, current, Strip(current), w.edges, LeadingSpaces(current));
    } else if w.started && Contains(line, UsedProbe) {
      PlaceUsedKeepsConsistent(w, Cleaned(line, UsedMarker));
    }
  }

  /** Every module name the parser records is stripped and free of backslashes. */
  lemma StepLineKeepsCleanNames(w: Walk, line: string)
    requires CleanNames(w.modules)
    ensures StepLine(w, line).Ok? ==> CleanNames(StepLine(w, line).value.modules)
  {
    if StepLine(w, line).Ok? && IsModuleLine(w, line) {
      var current := Cleaned(line, MarkerOf(line));
      StripIdempotent(current);
      assert '\\' !in ModuleName(line);
    }
  }

  /** A parse that fails does so in a dedent that pops every entry off the stack. */
  lemma StepLineFailsOnlyInDedent(w: Walk, line: string)
    requires Consistent(w)
    requires StepLine(w, line).Err?
    ensures Depth(line) < w.lastSpaces
    ensures forall i :: 0 <= i < |w.stack| ==> LeadingSpaces(w.stack[i]) >= Depth(line)
  {
    assert w.started && !Contains(line, TopMarker) && Contains(line, UsedProbe);
    assert MarkerOf(line) == UsedMarker;
    var current := Cleaned(line, UsedMarker);
    assert StepLine(w, line) == PlaceUsed(w, current);
    assert PopDeeper(w.stack, LeadingSpaces(current)).None?;
  }

  /** Dedenting a used-module line to column zero always empties the stack and fails. */
  lemma DedentToColumnZeroFails(w: Walk, line: string)
    requires w.started && !Contains(line, TopMarker) && Contains(line, UsedProbe)
    requires Depth(line) == 0 < w.lastSpaces
    ensures StepLine(w, line) == Err(StackUnderflow)
  {
  }

  lemma {:induction false} RunKeepsConsistent(w: Walk, lines: seq<string>)
    requires Consistent(w) && CleanNames(w.modules)
    ensures Run(w, lines).Ok? ==> Consistent(Run(w, lines).value) && CleanNames(Run(w, lines).value.modules)
    decreases |lines|
  {
    if lines != [] {
      StepLineKeepsConsistent(w, lines[0]);
      StepLineKeepsCleanNames(w, lines[0]);
      if StepLine(w, lines[0]).Ok? {
        var next := StepLine(w, lines[0]).value;
        if next.started && IsBlank(lines[0]) {
          if next.stack != [] {
            var stopped := next.(stack := next.stack[..|next.stack| - 1], started := false);
            forall i | 0 <= i < |stopped.stack| ensures Strip(stopped.stack[i]) in stopped.modules {
              assert stopped.stack[i] == next.stack[i];
            }
          }
        } else {
          RunKeepsConsistent(next, lines[1..]);
        }
      }
    }
  }

  /**
   * The parser's report is closed: its edges are distinct, both ends of every edge are
   * module names of the report, and every name is stripped and free of backslashes.
   */
  lemma ParsedReportIsClosed(lines: seq<string>)
    ensures ParseLines(lines).Ok? ==>
      var rep := ParseLines(lines).value;
      && Distinct(rep.edges)
      && (forall e :: e in rep.edges ==> e.parent in rep.modules && e.child in rep.modules)
      && (forall m :: m in rep.modules ==> '\\' !in m && Strip(m) == m)
  {
    RunKeepsConsistent(Start, lines);
  }

  /** Before the first "Top module:" line nothing changes the state. */
  lemma {:induction false} RunSkipsLinesBeforeTop(w: Walk, pre: seq<string>, post: seq<string>)
    requires !w.started
    requires forall i :: 0 <= i < |pre| ==> !Contains(pre[i], TopMarker)
    ensures Run(w, pre + post) == Run(w, post)
    decreases |pre|
  {
    if pre != [] {
      var all := pre + post;
      assert all[0] == pre[0] && all[1..] == pre[1..] + post;
      assert !Contains(pre[0], TopMarker);
      assert StepLine(w, all[0]) == Ok(w);
      calc {
        Run(w, all);
        Run(w, all[1..]);
        { RunSkipsLinesBeforeTop(w, pre[1..], post); }
        Run(w, post);
      }
    } else {
      assert pre + post == post;
    }
  }

  /** Lines before the first line holding "Top module:" contribute nothing to the report. */
  lemma LinesBeforeTopIgnored(pre: seq<string>, post: seq<string>)
    requires forall i :: 0 <= i < |pre| ==> !Contains(pre[i], TopMarker)
    ensures ParseLines(pre + post) == ParseLines(post)
  {
    RunSkipsLinesBeforeTop(Start, pre, post);
  }

  /** A report without a "Top module:" line parses to no edges and no modules. */
  lemma NoTopLineYieldsEmptyReport(lines: seq<string>)
    requires forall i :: 0 <= i < |lines| ==> !Contains(lines[i], TopMarker)
    ensures ParseLines(lines) == Ok(Report([], []))
  {
    RunSkipsLinesBeforeTop(Start, lines, []);
    assert lines + [] == lines;
  }

  /** Once the hierarchy has opened, everything after a blank line is ignored. */
  lemma {:induction false} RunStopsAtBlank(w: Walk, pre: seq<string>, blank: string, post: seq<string>)
    requires w.started || exists i :: 0 <= i < |pre| && Contains(pre[i], TopMarker)
    requires IsBlank(blank)
    ensures Run(w, pre + [blank] + post) == Run(w, pre + [blank])
    decreases |pre|
  {
    var all := pre + [blank] + post;
    var cut := pre + [blank];
    TailOfAppend(cut, post);
    if pre == [] {
      assert cut[1..] == [];
    } else {
      TailOfAppend(pre, [blank]);
      assert all[0] == pre[0] && cut[0] == pre[0];
      var step := StepLine(w, pre[0]);
      if step.Ok? {
        var next := step.value;
        if !(next.started && IsBlank(pre[0])) {
          if !next.started {
            var i :| 0 <= i < |pre| && Contains(pre[i], TopMarker);
            assert 0 <= i - 1 < |pre[1..]| && pre[1..][i - 1] == pre[i];
          }
          RunStopsAtBlank(next, pre[1..], blank, post);
        }
      }
    }
  }

  /** Parsing stops at the first whitespace-only line that follows a "Top module:" line. */
  lemma LinesAfterBlankIgnored(pre: seq<string>, blank: string, post: seq<string>)
    requires exists i :: 0 <= i < |pre| && Contains(pre[i], TopMarker)
    requires IsBlank(blank)
    ensures ParseLines(pre + [blank] + post) == ParseLines(pre + [blank])
  {
    RunStopsAtBlank(Start, pre, blank, post);
  }

  /** A line holding a used-module marker is never blank. */
  lemma UsedLineIsNotBlank(line: string)
    requires Contains(line, UsedProbe)
    ensures !IsBlank(line)
  {
    ContainsShowsChars(line, UsedProbe, 0);
    StripEmptyIffBlank(line);
  }

  /** A used line at the recorded depth replaces the stack top by its name. */
  lemma SiblingStep(w: Walk, a: string)
    requires w.started && w.stack != []
    requires !Contains(a, TopMarker) && Contains(a, UsedProbe) && Depth(a) == w.lastSpaces
    ensures StepLine(w, a).Ok?
    ensures StepLine(w, a).value.stack == w.stack[..|w.stack| - 1] + [ModuleName(a)]
    ensures StepLine(w, a).value.lastSpaces == w.lastSpaces && StepLine(w, a).value.started
    ensures StepLine(w, a).value.edges
      == w.edges + (if |w.stack| > 1 then [Edge(Strip(w.stack[|w.stack| - 2]), ModuleName(a))] else [])
  {
    var rest := w.stack[..|w.stack| - 1];
    assert MarkerOf(a) == UsedMarker;
    assert StepLine(w, a) == PlaceUsed(w, Cleaned(a, UsedMarker));
    if |w.stack| > 1 {
      assert rest[|rest| - 1] == w.stack[|w.stack| - 2];
    }
  }

  /** After a sibling line the stack top is the sibling's stripped name, which reads as depth zero. */
  lemma SiblingNameIsFlat(w: Walk, a: string)
    requires w.started && w.stack != []
    requires !Contains(a, TopMarker) && Contains(a, UsedProbe) && Depth(a) == w.lastSpaces
    ensures StepLine(w, a).Ok?
    ensures var w1 := StepLine(w, a).value;
      w1.started && w1.lastSpaces == w.lastSpaces && w1.stack != [] && w1.stack[|w1.stack| - 1] == ModuleName(a)
    ensures Strip(ModuleName(a)) == ModuleName(a) && LeadingSpaces(ModuleName(a)) == 0
  {
    var nameA := ModuleName(a);
    assert MarkerOf(a) == UsedMarker;
    StripIdempotent(Cleaned(a, UsedMarker));
    assert LeadingSpaces(nameA) == 0 by {
      assert nameA == [] || !IsSpace(nameA[0]);
    }
    SiblingStep(w, a);
  }

  /** A used line deeper than the recorded depth is pushed below the stack top. */
  lemma DeeperStep(w: Walk, b: string)
    requires w.started && w.stack != []
    requires !Contains(b, TopMarker) && Contains(b, UsedProbe) && Depth(b) > w.lastSpaces
    ensures StepLine(w, b).Ok?
    ensures StepLine(w, b).value.stack == w.stack + [Cleaned(b, UsedMarker)]
    ensures StepLine(w, b).value.edges == w.edges + [Edge(Strip(w.stack[|w.stack| - 1]), ModuleName(b))]
    ensures StepLine(w, b).value.lastSpaces == Depth(b) && StepLine(w, b).value.started
  {
    assert MarkerOf(b) == UsedMarker;
    assert StepLine(w, b) == PlaceUsed(w, Cleaned(b, UsedMarker));
  }

  /** A used line shallower than the recorded depth hangs below the entry the pops stop at. */
  lemma DedentStep(w: Walk, c: string, kept: seq<string>)
    requires w.started
    requires !Contains(c, TopMarker) && Contains(c, UsedProbe) && Depth(c) < w.lastSpaces
    requires PopDeeper(w.stack, Depth(c)) == Some(kept)
    ensures StepLine(w, c).Ok?
    ensures StepLine(w, c).value.edges == w.edges + [Edge(Strip(kept[|kept| - 1]), ModuleName(c))]
    ensures StepLine(w, c).value.stack == kept + [ModuleName(c)] && StepLine(w, c).value.lastSpaces == Depth(c)
  {
    assert MarkerOf(c) == UsedMarker;
    assert StepLine(w, c) == PlaceUsed(w, Cleaned(c, UsedMarker));
  }

  /** A used-module line never ends the run, so the run goes on with the state it produced. */
  lemma RunPastUsedLine(w: Walk, lines: seq<string>)
    requires lines != [] && !Contains(lines[0], TopMarker) && Contains(lines[0], UsedProbe)
    requires StepLine(w, lines[0]).Ok?
    ensures Run(w, lines) == Run(StepLine(w, lines[0]).value, lines[1..])
  {
    UsedLineIsNotBlank(lines[0]);
  }

  /** Two single appends end in the pair. */
  lemma AppendTwo<T>(s: seq<T>, t: seq<T>, r: seq<T>, x: T, y: T)
    requires t == s + [x] && r == t + [y]
    ensures EndsWith(r, [x, y])
  {
  }

  /** Three single appends add the triple. */
  lemma AppendThree<T>(s0: seq<T>, s1: seq<T>, s2: seq<T>, s3: seq<T>, x: T, y: T, z: T)
    requires s1 == s0 + [x] && s2 == s1 + [y] && s3 == s2 + [z]
    ensures s3 == s0 + [x, y, z]
    ensures s0 == [] ==> s3 == [x, y, z]
  {
  }

  /** The tails of a three-line input. */
  lemma ThreeLineTails(a: string, b: string, c: string)
    ensures [a, b, c][0] == a && [a, b, c][1..] == [b, c]
    ensures [b, c][0] == b && [b, c][1..] == [c]
    ensures [c][0] == c && [c][1..] == []
  {
  }
  /**
   * The recorded depth of an entry pushed as a stripped name is zero, so a later dedent
   * stops there. After a sibling `a` at the recorded depth, a deeper child `b` and a line
   * `c` back at `a`'s depth, `c` is recorded as a child of `a`, not as its sibling.
   */
  lemma DedentStopsAtSiblingName(w: Walk, a: string, b: string, c: string)
    requires w.started && w.stack != [] && 0 < w.lastSpaces
    requires !Contains(a, TopMarker) && Contains(a, UsedProbe)
    requires !Contains(b, TopMarker) && Contains(b, UsedProbe)
    requires !Contains(c, TopMarker) && Contains(c, UsedProbe)
    requires Depth(a) == w.lastSpaces && Depth(b) > w.lastSpaces && Depth(c) == w.lastSpaces
    ensures Run(w, [a, b, c]).Ok?
    ensures EndsWith(Run(w, [a, b, c]).value.edges, [Edge(ModuleName(a), ModuleName(b)), Edge(ModuleName(a), ModuleName(c))])
  {
    var d := w.lastSpaces;
    var nameA := ModuleName(a);
    SiblingNameIsFlat(w, a);
    var w1 := StepLine(w, a).value;
    DeeperStep(w1, b);
    var w2 := StepLine(w1, b).value;
    assert PopDeeper(w2.stack, d) == Some(w1.stack) by {
      assert w2.stack[..|w2.stack| - 1] == w1.stack;
      assert PopDeeper(w1.stack, d) == Some(w1.stack);
    }
    DedentStep(w2, c, w1.stack);
    var w3 := StepLine(w2, c).value;
    AppendTwo(w1.edges, w2.edges, w3.edges, Edge(nameA, ModuleName(b)), Edge(nameA, ModuleName(c)));
    ThreeLineTails(a, b, c);
    RunPastUsedLine(w, [a, b, c]);
    RunPastUsedLine(w1, [b, c]);
    RunPastUsedLine(w2, [c]);
    assert Run(w, [a, b, c]) == Ok(w3);
  }
}
