# A verified model of `create_dep_graph.py`

`create_dep_graph.py` reads a plain-text task file and turns it into a directed
dependency graph.

Line kinds:
- A line `- a -> b` says that task `b` depends on task `a`.
- A line `- [complete] a` declares task `a` and may mark it complete.
- A quoted block on the lines right after a declaration is that task's comment.

Every task is classified:
- it is `next` when all its direct predecessors are complete and the last node in iteration order is not complete (the script tests a leftover flag; see ## Findings);
- a `next` task whose name starts with `await` is also `waiting`.

The script prints the graph in DOT, or one of three task lists.

The Dafny project models the parsing and classification core:

| file | module | models |
|---|---|---|
| `wrappers.dfy` | `Wrappers` | `Option` and `Result` |
| `text.dfy` | `Text` | the Python `str` operations the script uses (`strip`, `startswith`, `endswith`, `in`, `replace(c, "")`, `lower`, `join`), and `FindFrom`, the search for `->` behind `in` and `split("->")` |
| `lists.dfy` | `Lists` | `filter` and list comprehensions |
| `lines.dfy` | `LineKinds` | the line predicates and `get_node_name` |
| `parser.dfy` | `Parser` | `read_comment`, `extract_node_info` and `read_deps` |
| `graph.dfy` | `DepGraphs` | the graph as a class, and `graph_from_deps` |
| `classifier.dfy` | `Classifier` | `set_node_info` and `add_node_comments` |
| `selection.dfy` | `Selection` | the colour rule and the three task lists |

How the model is built:
- The loops of the script stay loops: `ReadComment`, `ExtractNodeInfo`, `GraphFromDeps`, `SetNodeInfo` and `AddNodeComments` are methods.
- Each loop method is proved against a reference function:
  - the recursive functions `Scan`, `ParseDeps` and `ApplyComments`;
  - `CommentAt` and `BuildNodes`, built on the recursive `CommentClose` and `InsertAll`;
  - the set comprehension `EdgeSet` and the map comprehension `Classified`.
  - The properties the script relies on are proved as lemmas about those functions.
- A networkx `DiGraph` is the class `DepGraph`, with three fields:
  - its nodes in insertion order (networkx iterates in that order, and the classification depends on it);
  - its edge set;
  - one attribute record per node. A record field is `None` where the key was never written.
- Runtime failures of the script are values of `ParseError` or `GraphError`, not preconditions:
  - the duplicate-node `assert`;
  - `read_comment` indexing past the last line, or into an empty list;
  - the tuple unpacking in `graph_from_deps`;
  - the `KeyError` of `add_node_comments`.

`graph_from_deps` unpacks `dep.split("->")` into exactly two names, so a dependency with more than one `->` stops the run with a `ValueError`. (A line without `->` never reaches it: `read_deps` keeps only lines that contain one.) `ParseDeps` returns `BadDependency` for the first such string, and `GraphFromDeps` returns that error.

## Model

| member | source | states |
|---|---|---|
| LineKinds.NodeLineShape | create_dep_graph.py:50-54 | a node line is exactly a line that starts with `-`, has no `->`, and has a character other than a dash or whitespace; a node line is never an edge line |
| LineKinds.EdgeLineShape | create_dep_graph.py:50-51 | an edge line is exactly a line whose first character is `-` and that has a `-` directly followed by `>` somewhere |
| LineKinds.CommentStartShape | create_dep_graph.py:56-57 | a comment starts exactly on a line whose first non-whitespace character is `"` |
| LineKinds.CommentEndShape | create_dep_graph.py:59-60 | a comment ends exactly on a line whose last non-whitespace character is `"` |
| LineKinds.CompleteLineShape | create_dep_graph.py:67-68 | a line is complete exactly when `[complete]` occurs anywhere in it, in any mix of ASCII letter cases |
| LineKinds.CapitalisedTag | create_dep_graph.py:67-68 | `- [Complete] x` is complete: the test lower-cases the line first |
| LineKinds.GetNodeName | create_dep_graph.py:62-65 | the extracted name is trimmed and no longer than the line |
| LineKinds.DeclarationRoundTrip | create_dep_graph.py:62-68 | for `-<ws>[complete]<ws><name><ws>`, written with or without the tag, `get_node_name` gives back `name`; a written tag makes the line complete |
| LineKinds.TrailingTag | create_dep_graph.py:62-68 | `- x [complete]` is complete, yet its name keeps the tag: `x [complete]` |
| LineKinds.LowerKeepsTag | create_dep_graph.py:67-68 | lower-casing keeps an occurrence of `[complete]` where it was |
| Text.StripEmpty | create_dep_graph.py:54 | `strip()` leaves nothing exactly when the string is all whitespace |
| Text.StripPadded | create_dep_graph.py:63-64 | `strip()` removes whitespace padding around a trimmed string and nothing else |
| Parser.CommentAt | create_dep_graph.py:70-83 | a read comment ends at an index `j` with `i <= j < len(lines)`; its text has no `"` and ends with `\l` |
| Parser.ReadComment | create_dep_graph.py:70-83 | the loop returns exactly `CommentAt`: the same text and closing index, or the same error |
| Parser.RenderComment | create_dep_graph.py:82-83 | the joined text has no `"` and ends with `\l` |
| Parser.CommentCloseIsFirstClose | create_dep_graph.py:75-80 | the closing line is the first line at which the gathered pieces end with a quote |
| Parser.CommentCloseFails | create_dep_graph.py:75-80 | reading fails exactly when the first line wraps to nothing or no line closes the block |
| Parser.FirstCommentEnd | create_dep_graph.py:59-60 | the first line at or after `k` whose trimmed text ends with `"`, or none |
| Parser.CommentEndsOnQuotedLine | create_dep_graph.py:70-80 | if `wrap` keeps a text's last character on its last piece, a block opened by a quoted line closes on the first later line (or itself) ending with `"`, and fails when there is none |
| Parser.ExtractNodeInfo | create_dep_graph.py:85-120 | the loop returns exactly `Scan` from line 0 with an empty dictionary |
| Parser.NextDeclaration | create_dep_graph.py:106-114 | one declaration step: the scan from the declaration line is the comment error, or the scan from the returned later line with the returned entry recorded (the next line when no comment follows) |
| Parser.ScanSound | create_dep_graph.py:98-120 | a successful scan keeps the entries it had; each entry it adds is keyed by its own name and is the `Entry` of a node line at or after the start: that line's name and flag, and the comment of a block opened on the very next line, or `""` |
| Parser.ScanWithoutComments | create_dep_graph.py:98-120 | in a file where no declaration is directly followed by a quoted line, so that no comment block is read, the scan succeeds exactly when the declared names are distinct and new; its keys are then the declared names; a failure is a duplicate-node error naming a declared name that is either already recorded or declared twice |
| Parser.NodeNamesMembers | create_dep_graph.py:103-104 | the declared names are exactly the names of the node lines |
| Parser.ClosingLineDeclared | create_dep_graph.py:108-109 | the scan resumes at the closing line of a comment, so a closing line that is itself a node line is recorded by a successful scan |
| Parser.NodeLineRecorded | create_dep_graph.py:102-114 | a node line the scan stands on is in the result of a successful scan |
| Parser.LowerAll | create_dep_graph.py:33 | every line is lower-cased, with the length of the list kept |
| Parser.DepLinesMembers | create_dep_graph.py:38-45 | a string is a dependency exactly when it contains `->` and is a line that starts with `-`, with that `-` removed and then trimmed |
| Parser.DepLinesAppend | create_dep_graph.py:38-45 | dependencies keep file order: two parts of a file give their dependencies in turn |
| Parser.ReadDeps | create_dep_graph.py:24-47 | on the lower-cased lines, the result is the failure of the node scan, or the dependency strings together with the scanned entries |
| DepGraphs.Insert | create_dep_graph.py:166 | adding a node keeps the known nodes as a prefix, adds only that node, and keeps the nodes distinct |
| DepGraphs.InsertAllFacts | create_dep_graph.py:166 | adding several nodes keeps the known ones as a prefix, adds exactly the given ones, and keeps the nodes distinct |
| DepGraphs.BuildNodes | create_dep_graph.py:160-168 | the nodes of the built graph are distinct and are exactly the endpoints of the dependencies |
| DepGraphs.BuildNodesPrefix | create_dep_graph.py:162-167 | nodes keep the order in which they first appear |
| DepGraphs.EdgeSet | create_dep_graph.py:167 | the edges are exactly the `(parent, child)` pairs |
| DepGraphs.EdgeSetDuplicate | create_dep_graph.py:167 | a repeated dependency adds no edge |
| DepGraphs.SplitDep | create_dep_graph.py:163-165 | both parts of a split are trimmed |
| DepGraphs.SplitDepExact | create_dep_graph.py:163-165 | the split succeeds exactly when `->` occurs once, and then yields the trimmed text on each side |
| DepGraphs.SplitJoined | create_dep_graph.py:163-165 | `parent->child` written with dash-free names splits back into the trimmed names |
| DepGraphs.ParseDepsSucceeds | create_dep_graph.py:162-165 | every dependency splits exactly when the parse succeeds; the parse then holds each split in order; a failure names a dependency that does not split |
| DepGraphs.SelfLoopKept | create_dep_graph.py:163-167 | `x->x` gives the single node `x` and the self-loop `(x, x)` |
| DepGraphs.DepGraph.constructor | create_dep_graph.py:161 | a fresh graph is empty |
| DepGraphs.DepGraph.Predecessors | create_dep_graph.py:191 | the predecessors of `n` are exactly the sources of the edges into `n` |
| DepGraphs.DepGraph.AddNode | create_dep_graph.py:166 | a new node is appended with `complete` set; a known node keeps its place and its other attributes |
| DepGraphs.DepGraph.AddNodesFrom | create_dep_graph.py:166 | the nodes become `InsertAll(nodes, ns)`; each named node has `complete` set and keeps its other attributes; all other nodes are untouched |
| DepGraphs.DepGraph.AddEdge | create_dep_graph.py:167 | missing endpoints are appended with no attributes, the edge is added, and known nodes keep their attributes |
| DepGraphs.GraphFromDeps | create_dep_graph.py:160-168 | a dependency that does not split stops the build with its error; otherwise the graph is fresh and valid, its nodes are `BuildNodes`, its edges `EdgeSet`, and every node has exactly `complete=False` |
| DepGraphs.AddDependency | create_dep_graph.py:163-167 | one loop step adds the dependency's endpoints and its edge, and every attribute record stays `complete=False` |
| Classifier.SetNodeInfo | create_dep_graph.py:171-200 | the attributes become `Classified` of the old graph; nodes and edges are unchanged |
| Classifier.OverlayPass | create_dep_graph.py:173-184 | the first loop writes the overlay, and the variable `complete` is left holding the flag of the last node |
| Classifier.OverlayNode | create_dep_graph.py:176-184 | one node gets its declared flag and comment, or `False` and `""` |
| Classifier.DerivePass | create_dep_graph.py:186-200 | the second loop writes `next` and `waiting` from the predecessors and the leftover `complete` |
| Classifier.SetFlags | create_dep_graph.py:189-200 | one node's `next` and `waiting` are written as `Derive` gives them |
| Classifier.CheckParents | create_dep_graph.py:190-193 | the flag is true exactly when every direct predecessor is complete |
| Classifier.OverlayCopies | create_dep_graph.py:174-184 | each node's `complete` and `comment` are its declared values, or `False` and `""`; no declared name is added as a node |
| Classifier.DerivedFlags | create_dep_graph.py:187-200 | `waiting` implies `next`; `next` holds exactly when all direct predecessors are complete and the leftover `complete` is false; `waiting` holds exactly for `next` nodes named `await…` |
| Classifier.ClassifiedIdempotent | create_dep_graph.py:171-200 | running `set_node_info` twice gives the same attributes as running it once |
| Classifier.StaleFlagMarksCompleteTask | create_dep_graph.py:194 | for nodes `a`, `b` with `a -> b`, `a` complete and `b` not, the code marks the complete `a` as `next`; the intended rule does not |
| Classifier.StaleFlagHidesOpenTask | create_dep_graph.py:194 | for `a -> b` with `b` complete and `a` open, the code does not mark `a` as `next`, though it has no predecessors; the intended rule does |
| Classifier.IntendedFlags | create_dep_graph.py:189 | under the intended rule a complete task is never `next`, `next` holds exactly for open tasks whose predecessors are all complete, and `waiting` holds exactly for `next` tasks named `await…` |
| Classifier.ClassifiedAsIntendedWhere | create_dep_graph.py:194 | the code and the intended rule agree on a node exactly when its own flag equals the leftover one, or some predecessor is open |
| Classifier.LastComment | create_dep_graph.py:206-207 | a node receives a comment exactly when some item names it |
| Classifier.ApplyCommentsFails | create_dep_graph.py:205-207 | writing fails exactly when some item names a non-node, and it then names the first such item |
| Classifier.ApplyCommentsWrites | create_dep_graph.py:205-207 | when every item names a node, each node ends with the comment given to it last; every other attribute is unchanged |
| Classifier.AddNodeComments | create_dep_graph.py:205-207 | the loop's attributes and missing name are exactly `ApplyComments`; nodes and edges are unchanged |
| Selection.TodoListMembers | create_dep_graph.py:223-225 | the TODO list holds exactly the nodes that are `next` and not `waiting` |
| Selection.AwaitingListMembers | create_dep_graph.py:233-235 | the awaiting list holds exactly the nodes that are `next` and `waiting` |
| Selection.ListsPartitionNext | create_dep_graph.py:194-200 | after classification a node is in exactly one of the two lists when it is `next`, and in the awaiting list exactly when its name starts with `await` |
| Selection.ColorMatchesLists | create_dep_graph.py:139-146 | green nodes are TODO items, light-blue ones are awaited, light grey means complete, and an open TODO item is green |
| Selection.IntendedListsOpenOnly | create_dep_graph.py:189 | under the intended rule a complete task is in neither list, every TODO item is green and every awaited item light blue |
| Selection.KoiList | create_dep_graph.py:216-218 | there is a list exactly when `koi` is a node, and it holds exactly the direct successors of `koi` that are `next` |

## Left out

- Reading the file and `readlines` (lines 29-30): `ReadDeps` takes the file's lines as a sequence.
- The `docopt` command line and the `__main__` dispatch (lines 240-265): these are I/O.
- All `print_*` functions and the DOT text (lines 122-135 and 149-158): these are I/O. What the list printers at lines 214-238 select is modelled as values.
- `plot_graph` (lines 209-212): it only calls matplotlib.
- `get_node_fill_color` reads the global `node` rather than its parameter `node_str` (line 139). Only the colour priority is modelled, as `Selection.FillColor` of a node's attributes.
- `textwrap.wrap` (line 76) is a parameter `wrap`, called with the width 30. The one property the comment lemmas need is the hypothesis `KeepsLastChar`: an empty text wraps to nothing, and the last piece of a trimmed text ends with the text's last character.
- `str.lower` is modelled on ASCII letters only. `str.isspace` is modelled on its exact set of code points.
- The regular expressions `^-` and `^\[complete\]` are modelled as the removal of one literal prefix.
- Running under `python -O`, which skips the duplicate-node `assert`: the model always fails with `DuplicateNode`.
- networkx internals: a `DiGraph` is a node sequence, an edge set and an attribute map.
- Iterating `G.predecessors(node)` in an order: `CheckParents` takes predecessors in any order, and the flag it computes does not depend on that order.
- Selection.KoiList: it returns the listed successors as a set, so the order in which networkx yields them is not modelled.
- Selection.TodoListMembers: an attribute that was never written reads as false. networkx would raise a `KeyError` there, which cannot happen on a graph that `set_node_info` has classified.
- Selection.AwaitingListMembers: an attribute that was never written reads as false, as for the TODO list.
- Parser.ScanWithoutComments: it states that the keys are the declared names only for files in which no declaration is directly followed by a quoted line, so that no comment block is read. A node line inside a comment block is skipped by the scan. For the general case, `ScanSound` states only that every added entry comes from a node line.

## Findings

| source | as written | input that shows it | evidently intended | confidence | as-written member | corrected member |
|---|---|---|---|---|---|---|
| create_dep_graph.py:194 | `is_next = (not complete) and all_parents_complete` reads `complete` left over from the last iteration of the first loop, not the current node's flag | nodes `a`, `b` with the edge `a -> b`, `a` declared `[complete]` and `b` not: `a` is marked `next` although it is complete; with `b` complete instead, the open task `a` with no predecessors is not `next` | a task is `next` when it is itself not complete and all its direct predecessors are (the comment at line 189) | not executed | Classifier.StaleFlagMarksCompleteTask | Classifier.IntendedAttrs |
