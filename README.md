# Module hierarchy and extraction core of llm-ift, in Dafny

llm-ift analyses a Verilog design for information flow, one module at a time, by asking a
language model about each module. Before any prompt is sent, the deterministic core works
out which modules there are and in what order to visit them:

- **Hierarchy parsing** (`hierarchy.dfy`). The indented hierarchy report printed by Yosys is
  read line by line with a stack of module lines. The parser records every module name and
  a (parent, child) edge for each instantiation. `number_of_spaces` measures indentation.
- **Topological order** (`toposort.dfy`). The edges are handed to networkx, which returns
  no order when there is a cycle and otherwise a topological order of the graph. The model
  specifies this contract and witnesses it with Kahn's algorithm.
- **Dependency dict and final order** (`dependencies.dfy`). `get_modules_and_dependencies`
  builds an insertion-ordered dict from each module to the children it instantiates. It then
  extends the sorted order with the modules the sort did not list, or falls back to the
  module list when there is no order.
- **Module extraction** (`verilog_modules.dfy`). `get_module` searches the source for
  `module\s+NAME\b.*?endmodule` and returns the leftmost match. `extract_all_modules`
  iterates the `(\w+)` form of the same pattern and stores each match under its name. The
  dict is modelled as a Python dict is: keys in first-insertion order, so a redefinition
  replaces the entry's text and leaves the key where it was.
- **Analyzer helpers** (`analyzer.dfy`). The ancestor walk `get_module_ancestors` runs over
  the dependency dict. Each module's prompt is given its ancestor path, with the module
  itself filtered out, and the joined stored contexts of those ancestors, or a fixed note
  when there are none. `extract_json_result` picks the text from the first `{` to the last `}`.
- **Worked scenarios** (`hierarchy_example.dfy`). Lines of the report in Yosys's own layout,
  and the parse of a small hierarchy in which a top module uses two modules, one of which
  also uses the other.

`wrappers.dfy`, `seqs.dfy` and `strings.dfy` hold `Option`/`Result`, sequence helpers and
the few Python `str` operations the parser uses: `isspace`, `strip`, `replace(p, "")`,
`in` and `splitlines`. The "append if missing" loops are first-seen deduplication,
`Seqs.AppendNew`. The model also uses `AppendNew` for `list(set(...))`, whose order Python
leaves unspecified (see "Left out").

Two behaviours of the code are worth stating on their own:

- The final order puts parents before children. The edges point from parent to child, and
  networkx places the source of every edge before its target.
- The loop that builds the dependency dict does not deduplicate child lists. Its input
  edges are already distinct, because `parse_hierarchy` returns `list(set(edges))`, and
  distinct edges give child lists without repeats (`Dependencies.ChildrenOfDistinct`).

## Model

| member | source | states |
|---|---|---|
| Hierarchy.LeadingSpaces | src/utils/extract_graph.py:54-60 | the count is at most the line's length, every counted character is `' '`, and the next character, if any, is not `' '` (a tab ends the run) |
| Hierarchy.NumberOfSpaces | src/utils/extract_graph.py:54-60 | the counting loop returns exactly the length of the leading run of spaces |
| Hierarchy.Cleaned | src/utils/extract_graph.py:86 | the cleaned line contains no backslash |
| Hierarchy.PopDeeper | src/utils/extract_graph.py:110-111 | the pop loop keeps a non-empty prefix of the stack whose top is shallower than the new line and pops only entries at least as deep; it fails (IndexError) exactly when every entry is at least as deep |
| Hierarchy.OpenTop | src/utils/extract_graph.py:85-93 | a "Top module:" line opens the hierarchy, adds no edge, appends one module name, pushes an entry whose stripped text is that name, and records that entry's depth |
| Hierarchy.PlaceUsed | src/utils/extract_graph.py:96-113 | a used-module line appends its stripped name to the modules and records its depth; the edge list grows by at most one edge, and that edge's child is the new name |
| Hierarchy.StepLine | src/utils/extract_graph.py:85-115 | one loop pass: non-module lines change nothing; a module line appends exactly one name; at most one edge is added, whose child is that name; an error occurs only on a used line after the top line |
| Hierarchy.Run | src/utils/extract_graph.py:84-121 | the loop only appends: the modules and edges it started with are prefixes of its result, and each line adds at most one module and one edge |
| Hierarchy.ParseLines | src/utils/extract_graph.py:84-124 | a parsed report has distinct edges and at most one module per line |
| Hierarchy.Parse | src/utils/extract_graph.py:75-124 | `parse_hierarchy` returns distinct edges and at most one module per line of the output |
| Hierarchy.PopWhileDeeper | src/utils/extract_graph.py:110-111 | the pop-while loop computes `PopDeeper`: the kept prefix of the stack, or `None` where `hierarchy_stack[-1]` would raise |
| Hierarchy.PlaceUsedLine | src/utils/extract_graph.py:96-113 | the statement-by-statement placement, including the pop-while loop, computes `PlaceUsed` |
| Hierarchy.ProcessLine | src/utils/extract_graph.py:85-115 | the statements of one loop pass compute `StepLine` |
| Hierarchy.ParseHierarchy | src/utils/extract_graph.py:75-124 | the line loop with its break and the final dedup computes `Parse(output)` |
| Hierarchy.PushKeepsConsistent | src/utils/extract_graph.py:102-113 | pushing a stripped name onto a prefix of the stack, with an edge from an existing module, keeps the stack named by modules, the edges closed and distinct |
| Hierarchy.DeeperKeepsConsistent | src/utils/extract_graph.py:101-103 | a deeper line never fails on a non-empty stack and keeps the invariant: its edge comes from the stripped stack top, a recorded module |
| Hierarchy.SiblingKeepsConsistent | src/utils/extract_graph.py:104-108 | an equally indented line never fails on a non-empty stack and keeps the invariant, with or without an edge |
| Hierarchy.DedentKeepsConsistent | src/utils/extract_graph.py:109-113 | a shallower line whose pops leave an entry never fails and keeps the invariant |
| Hierarchy.PlaceUsedKeepsConsistent | src/utils/extract_graph.py:96-113 | placing a used line keeps that invariant |
| Hierarchy.StepLineKeepsConsistent | src/utils/extract_graph.py:84-115 | one loop pass keeps that invariant |
| Hierarchy.StepLineKeepsCleanNames | src/utils/extract_graph.py:86-88 | every recorded name is stripped and free of backslashes |
| Hierarchy.StepLineFailsOnlyInDedent | src/utils/extract_graph.py:109-112 | a failing pass is a dedent whose pop loop empties the stack |
| Hierarchy.DedentToColumnZeroFails | src/utils/extract_graph.py:109-112 | dedenting a used line to column zero always raises IndexError |
| Hierarchy.RunKeepsConsistent | src/utils/extract_graph.py:84-121 | the whole loop keeps the invariant and the clean names |
| Hierarchy.ParsedReportIsClosed | src/utils/extract_graph.py:84-124 | a successful parse returns distinct edges whose endpoints are recorded modules, and every name is stripped and backslash-free |
| Hierarchy.RunSkipsLinesBeforeTop | src/utils/extract_graph.py:85-95 | before the hierarchy opens, lines without "Top module:" leave the state alone |
| Hierarchy.LinesBeforeTopIgnored | src/utils/extract_graph.py:84-124 | lines before the first "Top module:" line do not change the result |
| Hierarchy.NoTopLineYieldsEmptyReport | src/utils/extract_graph.py:84-124 | without a "Top module:" line the result is no edges and no modules |
| Hierarchy.RunStopsAtBlank | src/utils/extract_graph.py:118-121 | once opened, the loop ignores everything after a whitespace-only line |
| Hierarchy.LinesAfterBlankIgnored | src/utils/extract_graph.py:118-124 | lines after the first blank line that follows a "Top module:" line do not change the result |
| Hierarchy.UsedLineIsNotBlank | src/utils/extract_graph.py:95-118 | a used-module line never ends the parse |
| Hierarchy.SiblingStep | src/utils/extract_graph.py:104-108 | an equally indented line replaces the stack top by its stripped name, and adds an edge from the entry below the popped top exactly when the stack had more than one entry |
| Hierarchy.SiblingNameIsFlat | src/utils/extract_graph.py:108-110 | after a sibling line the stack top is the bare name, whose measured depth is zero |
| Hierarchy.DeeperStep | src/utils/extract_graph.py:101-103 | a deeper line adds an edge from the stripped stack top and pushes the unstripped cleaned line |
| Hierarchy.DedentStep | src/utils/extract_graph.py:109-113 | a shallower line adds an edge from the entry where the pops stop, pushes its stripped name onto the kept prefix, and records its depth |
| Hierarchy.RunPastUsedLine | src/utils/extract_graph.py:95-121 | after a used-module line the loop continues with the state that line produced |
| Hierarchy.DedentStopsAtSiblingName | src/utils/extract_graph.py:104-113 | sibling a, deeper b, then c back at a's depth: the pops stop at a's bare name, so c becomes a's child rather than its sibling |
| HierarchyExample.RunPastTopLine | src/utils/extract_graph.py:85-93 | after the "Top module:" line the loop goes on from an opened state: one stack entry that strips to the top name, no edges, the top name as the only module, and that line's depth recorded |
| HierarchyExample.NestedUseScenario | src/utils/extract_graph.py:84-113 | a top line, two used lines at equal depth below it and a deeper third give the edges top→a, top→b and b→c, and the modules in line order |
| HierarchyExample.ReportLineFields | src/utils/extract_graph.py:54-60 | a line in the report's layout (indent, marker, space, backslash, name) reads back its marker and name, and its depth is the indent plus one |
| HierarchyExample.ExampleReport | src/utils/extract_graph.py:84-124 | the report for `top` using `sub1` and `sub2`, where `sub2` also uses `sub1`, parses to the edges top→sub1, top→sub2 and sub2→sub1 (listed first-seen; the set leaves the order open), with the modules `[top, sub1, sub2, sub1]` |
| TopoSort.Vertices | src/utils/extract_graph.py:137 | the graph's nodes are distinct and are exactly the edge endpoints |
| TopoSort.FirstSource | src/utils/extract_graph.py:145 | the chosen node has no remaining predecessor; when none is chosen, no node from that position on is a source |
| TopoSort.Kahn | src/utils/extract_graph.py:145 | the witness only appends to the nodes already placed, and places only nodes it was given |
| TopoSort.TopologicalSort | src/utils/extract_graph.py:137-145 | `None` exactly when the graph has a directed cycle; otherwise every node exactly once, each parent before each of its children |
| TopoSort.KahnStep | src/utils/extract_graph.py:145 | moving a source to the output keeps the partial order valid |
| TopoSort.BackWalk | src/utils/extract_graph.py:140 | when no remaining node is a source, a walk backwards along edges can go on for any number of steps inside the remaining nodes |
| TopoSort.RepeatGivesCycle | src/utils/extract_graph.py:140 | a backward walk that revisits a node contains a directed cycle |
| TopoSort.NoSourceHasCycle | src/utils/extract_graph.py:140-142 | when no remaining node is a source, the graph has a cycle |
| TopoSort.KahnCorrect | src/utils/extract_graph.py:140-145 | the witness yields a topological order, or fails only on a cyclic graph |
| TopoSort.OrderRulesOutCycles | src/utils/extract_graph.py:140-142 | a graph with a topological order has no cycle |
| TopoSort.OrderCoversVertices | src/utils/extract_graph.py:145 | a topological order is exactly as long as the node list |
| Dependencies.DictKeys | src/utils/extract_graph.py:171-179 | the dict's keys are distinct, include every module and every edge's parent, and include nothing else |
| Dependencies.ParentsMembers | src/utils/extract_graph.py:176-179 | the parents taken from the edges are exactly the edges' parents |
| Dependencies.ChildrenOfMembers | src/utils/extract_graph.py:176-180 | a key's list holds exactly the children of the edges from that key |
| Dependencies.ChildrenOfNonParent | src/utils/extract_graph.py:171-174 | a module that is no edge's parent keeps an empty list |
| Dependencies.ChildrenOfDistinct | src/utils/extract_graph.py:176-180 | with distinct edges, as `parse_hierarchy` returns them, no key's list repeats a child |
| Dependencies.DependencyDict | src/utils/extract_graph.py:171-180 | the dict covers every module; each edge's child is listed under its parent; every listed child comes from an edge |
| Dependencies.AddModules | src/utils/extract_graph.py:171-174 | the first loop adds each module once, in first-seen order, with an empty list |
| Dependencies.AddEdges | src/utils/extract_graph.py:176-180 | the second loop adds missing parents as keys and leaves each key's list equal to its children in edge order |
| Dependencies.BuildDependencyDict | src/utils/extract_graph.py:171-180 | the two loops build exactly `DependencyDict` |
| Dependencies.OrderOf | src/utils/extract_graph.py:186-191 | the final order contains every module and nothing but modules and sorted nodes, and starts with the sort result |
| Dependencies.FinalOrder | src/utils/extract_graph.py:186-191 | the completion loop yields the sort result followed by the missing modules, or the module list |
| Dependencies.OrderIsKeyed | src/utils/extract_graph.py:171-191 | when every edge joins two modules, every entry of the final order is a key of the dependency dict |
| Dependencies.Analyze | src/utils/extract_graph.py:162-193 | on success the dict is well formed and every module of the returned order is one of its keys |
| Dependencies.GetModulesAndDependencies | src/utils/extract_graph.py:162-193 | the function returns nothing when Yosys failed, raises when the parse fails, and otherwise returns the order and the dict |
| Dependencies.KeysAreModulesWhenClosed | src/utils/extract_graph.py:171-180 | when every parent is a module, the keys are the modules, deduplicated in first-seen order |
| Dependencies.CompletedOrder | src/utils/extract_graph.py:186-189 | a topological order of a graph whose endpoints are modules, completed by the missing modules, lists every module exactly once and nothing else, parents before children |
| Dependencies.FinalOrderIsTopological | src/utils/extract_graph.py:183-191 | for an acyclic graph with edges whose endpoints are modules, the final order lists every module exactly once and nothing else, parents before children |
| Dependencies.FallbackKeepsModules | src/utils/extract_graph.py:186-191 | with a cycle or no edges, the final order is the module list as parsed, duplicates included |
| Dependencies.AnalysisCoversModules | src/utils/extract_graph.py:167-193 | after a successful parse every module is a dict key and appears in the final order |
| VerilogModules.SpaceRun | src/utils/extract_module.py:31 | `\s+` takes the maximal run of whitespace |
| VerilogModules.FindFrom | src/utils/extract_module.py:31 | the first occurrence of `endmodule` from a position, or none at all |
| VerilogModules.MatchAtSound | src/utils/extract_module.py:31 | every match the scanner reports satisfies the pattern's own reading |
| VerilogModules.MatchAtComplete | src/utils/extract_module.py:31 | for an identifier, every match of the pattern at a position is the one the scanner reports there |
| VerilogModules.WordRun | src/utils/extract_module.py:55 | `\w+` takes the maximal run of word characters |
| VerilogModules.MatchAt | src/utils/extract_module.py:31 | a match at a position ends inside the text, after room for the keyword, a whitespace character, the name and `endmodule` |
| VerilogModules.MatchesWithScan | src/utils/extract_module.py:31 | a reading of the pattern with a whitespace run of any length is the one the scanner reports |
| VerilogModules.MatchAtShape | src/utils/extract_module.py:31 | a match starts with `module` and a whitespace character and ends with `endmodule` |
| VerilogModules.FindModule | src/utils/extract_module.py:36 | a search result is a position at or after the start where the pattern matches, with that match's end |
| VerilogModules.MatchTextShape | src/utils/extract_module.py:31 | the text of a match begins with `module` and a whitespace character, ends with `endmodule`, and has room for the name |
| VerilogModules.Search | src/utils/extract_module.py:36 | a search result is a position in range where the pattern matches, with what it reports |
| VerilogModules.SearchLeftmost | src/utils/extract_module.py:36 | the search reports the leftmost matching position, and nothing only when no position matches |
| VerilogModules.GetModule | src/utils/extract_module.py:13-41 | a result starts with `module` and whitespace, ends with `endmodule`, and is long enough to hold the name |
| VerilogModules.GetModuleIsLeftmostMatch | src/utils/extract_module.py:30-39 | a result is the text of a match, and no match starts further left |
| VerilogModules.GetModuleNoneIffNoMatch | src/utils/extract_module.py:38-41 | `None` exactly when the pattern matches nowhere |
| VerilogModules.DocumentedExample | src/utils/extract_module.py:24-27 | the documented example returns the whole input |
| VerilogModules.WordBoundaryExample | src/utils/extract_module.py:31 | `\b` keeps `foo` from matching a declaration of `foobar` |
| VerilogModules.DeclAt | src/utils/extract_module.py:55 | a declaration found at a position starts there, carries an identifier as its name, and ends inside the text after room for the keyword, a whitespace character, the name and `endmodule` |
| VerilogModules.WordRunMatch | src/utils/extract_module.py:55 | the maximal word run after the keyword and its whitespace, taken as the name, gives `get_module`'s pattern a match with the same end |
| VerilogModules.DeclAtParts | src/utils/extract_module.py:55 | a declaration is the keyword, a whitespace run, a maximal word run that is its name, and the first `endmodule` after that run |
| VerilogModules.DeclAtIsMatch | src/utils/extract_module.py:55 | a declaration is a match of `get_module`'s pattern for its own name, with the same end |
| VerilogModules.DeclAtComplete | src/utils/extract_module.py:55 | conversely, wherever `get_module`'s pattern matches an identifier, the declaration found there has that name and the same end |
| VerilogModules.NextDeclIsLeftmost | src/utils/extract_module.py:55-60 | the next match `finditer` yields is the leftmost position at or after the resume position where the pattern matches some identifier; none is yielded only when no such position exists |
| VerilogModules.NextDecl | src/utils/extract_module.py:60 | the next match `finditer` yields lies at or after the resume position and is a declaration there |
| VerilogModules.AllDecls | src/utils/extract_module.py:60 | every match `finditer` yields lies inside the text, at or after where the search began |
| VerilogModules.AllDeclsAreDecls | src/utils/extract_module.py:60 | every match `finditer` yields is a declaration at its own start position |
| VerilogModules.OrderedCons | src/utils/extract_module.py:60 | a match ending before a non-overlapping list starts keeps the list non-overlapping when put in front |
| VerilogModules.AllDeclsOrdered | src/utils/extract_module.py:60 | the matches come in text order and do not overlap |
| VerilogModules.Put | src/utils/extract_module.py:63 | dict assignment keeps the dict well formed; an existing key keeps its place and a new key goes last; the key maps to the new text and every other entry is unchanged |
| VerilogModules.Store | src/utils/extract_module.py:60-63 | storing the matches in turn keeps the dict well formed, keeps the keys already present as a prefix, and adds every declared name |
| VerilogModules.StoreKeyOrder | src/utils/extract_module.py:59-63 | the keys are those already present, then each newly declared name once, in the order of its first declaration |
| VerilogModules.FirstDeclarationPlacesKey | src/utils/extract_module.py:60-63 | the first declaration of a name puts its key right after the keys of all earlier declarations |
| VerilogModules.ExtractAllModules | src/utils/extract_module.py:54-65 | the loop fills the dict by storing each match in turn; the dict is well formed and its keys are the declared names, each once, in the order of first declaration |
| VerilogModules.LastDefinitionWins | src/utils/extract_module.py:61-63 | the entry for a name is the text of its last definition |
| VerilogModules.StoreKeepsAbsent | src/utils/extract_module.py:63 | names that no declaration uses keep their entries |
| VerilogModules.StoreKeys | src/utils/extract_module.py:59-63 | the keys are exactly the declared names |
| VerilogModules.ExtractedEntriesAreMatches | src/utils/extract_module.py:60-63 | every key is an identifier, and its entry is the text of a match of `get_module`'s pattern for that name |
| Analyzer.AncestorsEndWithPath | src/core/analyzer.py:78-88 | the walk only prepends: its result ends with `[m] + path` |
| Analyzer.Ancestors | src/core/analyzer.py:78-88 | the walk never drops anything: the result is longer than the path it was given |
| Analyzer.VisitParents | src/core/analyzer.py:83-86 | the loop over the keys never shortens the path |
| Analyzer.AncestorsEndWithModule | src/core/analyzer.py:78-88 | called without a path, the result ends with the module itself |
| Analyzer.AncestorsOfRoot | src/core/analyzer.py:81-88 | a module in no child list gets `[m] + path` back |
| Analyzer.AncestorsSound | src/core/analyzer.py:83-86 | everything added is the module or a transitive parent |
| Analyzer.VisitParentsReaches | src/core/analyzer.py:83-86 | the loop over the keys reaches every parent and keeps that parent's walk as a suffix |
| Analyzer.AncestorsComplete | src/core/analyzer.py:83-86 | every transitive parent, however far up, is in the result |
| Analyzer.AncestorsExactly | src/core/analyzer.py:78-88 | the result holds exactly the module and its transitive parents |
| Analyzer.ChainRises | src/core/analyzer.py:83-86 | under the rank precondition, parent chains cannot loop back |
| Analyzer.ExampleSub2Ancestors | src/core/analyzer.py:78-88 | in `{top: [sub1, sub2], sub1: [], sub2: [sub1]}`, the inner call for `sub2` with path `[top, sub1]` gives `[top, sub2, top, sub1]` |
| Analyzer.ExampleAncestors | src/core/analyzer.py:78-88 | in the same dict, the walk from `sub1` gives `[top, sub2, top, sub1]`: `top` is reached twice |
| Analyzer.ExampleWithout | src/core/analyzer.py:127-128 | filtering `sub1` out of that walk leaves `[top, sub2, top]` |
| Analyzer.ExampleAncestorPath | src/core/analyzer.py:127-128 | the path handed to the prompt for `sub1` is `[top, sub2, top]`, the repeated `top` kept |
| Analyzer.AncestorPath | src/core/analyzer.py:127-128 | the module itself is removed, and exactly its proper ancestors remain |
| Analyzer.ContextOf | src/core/analyzer.py:132 | a non-empty context for an ancestor is the one stored for it |
| Analyzer.JoinContexts | src/core/analyzer.py:131-133 | the join is at least as long as each ancestor's context |
| Analyzer.JoinConcat | src/core/analyzer.py:131-133 | joining concatenated ancestor lists concatenates the joins |
| Analyzer.JoinSplit | src/core/analyzer.py:131-133 | each ancestor's stored context, or `""`, appears in place between those of its neighbours |
| Analyzer.JoinEmptyIff | src/core/analyzer.py:131-134 | the join is empty exactly when no ancestor has a non-empty stored context |
| Analyzer.AncestorContext | src/core/analyzer.py:131-135 | never empty: the fixed note when no ancestor has a context, else the join |
| Analyzer.RootGetsNote | src/core/analyzer.py:127-135 | a module in no child list has an empty ancestor path and gets the fixed note |
| Analyzer.Find | src/core/analyzer.py:179 | `find` gives -1 exactly when the character is absent, else its first index |
| Analyzer.RFind | src/core/analyzer.py:180 | `rfind` gives -1 exactly when the character is absent, else its last index |
| Analyzer.Slice | src/core/analyzer.py:183 | Python slicing: `j - i` characters from `i`, or none when `j < i` |
| Analyzer.JsonCandidate | src/core/analyzer.py:179-190 | no candidate exactly when the response lacks a `{` or a `}` |
| Analyzer.JsonCandidateSpan | src/core/analyzer.py:179-183 | the candidate runs from the first `{` through the last `}`, and is empty when that `}` precedes that `{` |
| Analyzer.JsonCandidateBraced | src/core/analyzer.py:179-183 | a non-empty candidate starts with `{` and ends with `}` |

## Left out

- `run_yosys` (src/utils/extract_graph.py:15-41) runs a subprocess. Its output is the `Option<string>` input of `Dependencies.Analyze`; `None` stands for a failed run.
- The `print` calls are left out: the progress messages and the cycle and Yosys-failure messages.
- `TopoSort.TopologicalSort`: networkx's choice among the valid orders is not modelled. Only the contract is: an order exactly when acyclic, each parent first. Kahn's algorithm witnesses it.
- `list(set(dependency_edges))` has no defined order in Python. The model keeps the first-seen order, and every property of the downstream order holds whichever order the set yields.
- An `IndexError` from `hierarchy_stack[-1]` or `pop()` on an empty stack becomes `Err(StackUnderflow)`, which propagates like the exception.
- `json.loads` in `extract_json_result` is a foreign parser: only the choice of the candidate text is modelled, and its `JSONDecodeError` path is not.
- The language-model clients are not part of this model: `__init__`, `_initialize_llm`, the prompt templates, `analyze_design`'s calls to the model, and the writing of context files.
- `VerilogModules.GetModule`: only identifier names are modelled. The source interpolates the name into the pattern unescaped, so other names would act as regular-expression syntax.
- `\w` is taken as ASCII letters, digits and `_`, not Python's full Unicode word class. `\s` is Python's `str.isspace` set.
- `Analyzer.Ancestors`: the walk takes a ghost rank that strictly grows from parent to child, so its precondition `Ranked` excludes every dict with a cycle anywhere in the parent relation (`Analyzer.ChainRises`). On a cycle among a module's ancestors the source recurses until the interpreter's recursion limit. A cycle elsewhere does not stop the source, for example `{x: [x], m: []}` with module `m`, but the model does not cover those calls either.
- `context_db` in `analyze_design` is an input map to `Analyzer.AncestorContext`: the loop that fills it from model responses is not part of this model.
