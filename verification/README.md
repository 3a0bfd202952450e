# Skill-tree dependency engine in Dafny

This project models the dependency-graph engine of a skill-tree editor. Users add skills (nodes), draw prerequisite edges `source -> target` between them, unlock a skill once its prerequisites are done, and search by name. The model covers three parts:

- **Cycle detection** (`detectCycle`, which the editor imports as `hasCycle`). This is a depth-first search with a `visited` set and a recursion stack. It is started from every listed node.
- **Prerequisite search** (`findAllPrerequisites`, `applySearchHighlighting`). The first computes the transitive predecessor set of a node. The second marks each node as a direct match, a path highlight or unmarked, and gives each edge the default or the on-path stroke.
- **The editing handlers** of the skill builder. Connect (rejected when it would close a cycle), toggle (an unlock gated on prerequisites, and a lock that cascades to every dependent), add node, reset, and the keyboard handler.

Every handler is a pure function from an `Editor` state to a `Transition`. A `Transition` is the next state plus the signal the handler would toast. The `Editor` state holds:

- the in-memory node and edge lists;
- the lists last written to local storage;
- the search term.

Reachability is a ghost predicate over explicit paths (`Graph.IsPath`, `Graph.Reaches`). Every search function threads its `visited` set as an argument, and its `decreases` clause is "ids on edges minus visited".

Files and modules:

- `graph.dfy`, module `Graph`: ids, nodes, edges, neighbour lists, lookup by id, and path lemmas.
- `detect_cycle.dfy`, module `DetectCycle`: models `detectCycle.js`.
- `text.dfy`, module `Text`: `toLowerCase`, `trim` and `includes`.
- `search_util.dfy`, module `SearchUtil`: models `searchUtil.js`.
- `skill_builder.dfy`, module `SkillBuilder`: models the handlers of `SkillBuilder.jsx`.

Four behaviours of the program that a reader might not expect, and how the model treats them:

- `detectCycle` only searches from the listed nodes. It reports a cycle only when a listed node reaches it (`DetectCycle.HasCycle`). `handleConnect` does not check that the endpoints exist. So "connect keeps the edges acyclic" is proved under the invariant that every edge starts at a listed node (`SkillBuilder.WellFormed`).
- The intended invariant is that no completed node has an incomplete prerequisite: the unlock gate enforces it. `handleConnect` ignores completion, so a completed node can gain a locked prerequisite (`SkillBuilder.ConnectIgnoresCompletion`). Toggling and adding nodes do keep that rule.
- `SkillBuilder.jsx` imports `{ hasCycle }`, but `detectCycle.js` exports `detectCycle`. The model treats the two names as one function.
- Toggling and adding a node change only the in-memory node list. Connect writes the edges to storage, and reset writes both lists. The `storedNodes`/`storedEdges` fields follow exactly this.

## Model

| member | source | states |
|---|---|---|
| Graph.Targets | src/utils/detectCycle.js:9 | the neighbour list of `u` holds exactly the targets of the edges leaving `u` |
| Graph.Sources | src/utils/searchUtil.js:7 | the direct-prerequisite list of `v` holds exactly the sources of the edges entering `v` |
| Graph.FirstIndex | src/components/SkillBuilder.jsx:165 | `find` by id: yields the first position carrying the id, or nothing when no node carries it |
| Graph.FindNode | src/components/SkillBuilder.jsx:165 | `find` by id: nothing iff the id is not listed; otherwise the node at the first position carrying the id |
| Graph.FirstIndexSameIds | src/components/SkillBuilder.jsx:176-181 | updating only the `completed` flags does not change which node a lookup by id finds |
| Graph.ReachesTrans | src/utils/searchUtil.js:9-16 | paths compose: reaching `b` from `a` and `c` from `b` means reaching `c` from `a` |
| Graph.ClosedForwardReach | src/utils/detectCycle.js:11-13 | a set closed under successors contains everything reachable from its members |
| Graph.ClosedBackwardReach | src/utils/searchUtil.js:9-16 | a set closed under predecessors contains everything that reaches its members |
| Graph.SameEdgeSetSameReach | src/utils/detectCycle.js:9 | reachability depends only on which edges occur, not on their order or how often they occur |
| DetectCycle.Visit | src/utils/detectCycle.js:5-21 | the neighbour loop of `dfs`: `true` only for a real cycle that is on the stack or below `u`; on `false` every successor of `u` is finished, and the finished ids are closed under successors and on no cycle |
| DetectCycle.FinishChild | src/utils/detectCycle.js:19-20 | popping a node whose successors are all finished keeps the finished set closed and cycle-free |
| DetectCycle.Dfs | src/utils/detectCycle.js:24-25 | a DFS from an unvisited root visits the root, and `true` means a cycle reachable from the root |
| DetectCycle.Roots | src/utils/detectCycle.js:23-29 | the loop over `graph.nodes` answers `true` iff some listed node reaches a cycle |
| DetectCycle.HasCycle | src/utils/detectCycle.js:1-30 | `detectCycle` is `true` iff a directed cycle is reachable from some listed node (sound and complete) |
| DetectCycle.NoEdgesNoCycle | src/utils/detectCycle.js:9-20 | with no edges the answer is always `false` |
| DetectCycle.SelfLoopDetected | src/utils/detectCycle.js:6-16 | a self-loop on a listed node is always reported |
| DetectCycle.DetectedCycleIsReal | src/utils/detectCycle.js:14-15 | a `true` answer implies the edges are not acyclic |
| DetectCycle.SameEdgeSetSameAnswer | src/utils/detectCycle.js:9 | two edge lists with the same members give the same answer |
| DetectCycle.ParallelEdgeIrrelevant | src/utils/detectCycle.js:9 | appending a duplicate of an existing edge never changes the answer |
| DetectCycle.ListedSourcesAcyclic | src/utils/detectCycle.js:23-27 | when every edge starts at a listed node, "no cycle reported" is equivalent to "acyclic" |
| SearchUtil.Scan | src/utils/searchUtil.js:9-17 | the loop over direct prerequisites with the shared `pathSet`: only grows it, adds only ids that reach `n`, includes every direct prerequisite, and leaves every newly added id with all its predecessors included |
| SearchUtil.FindAllPrerequisites | src/utils/searchUtil.js:4-19 | the result is exactly the set of ids with a path of at least one edge to `n`, and the recursion terminates on cyclic edges |
| SearchUtil.NoIncomingNoPrerequisites | src/utils/searchUtil.js:7 | with no edge into `n`, the result is empty |
| SearchUtil.SelfPrerequisiteIffCycle | src/utils/searchUtil.js:13-16 | `n` is in its own prerequisite set iff `n` lies on a cycle |
| SearchUtil.ChainExample | src/test/SearchUtil.test.js:7-16 | the chain A->B->C->D queried at D gives exactly {A, B, C} |
| SearchUtil.CycleExample | src/test/SearchUtil.test.js:18-27 | on the cycle A<->B (plus B->C), querying A terminates and contains B |
| SearchUtil.Query | src/utils/searchUtil.js:22 | the normalised term is the lower-cased term with only white space cut from either end; it holds no upper-case ASCII letter and neither starts nor ends with white space |
| SearchUtil.IsDirectMatch | src/utils/searchUtil.js:50-51 | a node matches iff the query occurs somewhere in its lower-cased name |
| SearchUtil.DirectMatches | src/utils/searchUtil.js:60-62 | the filtered list holds exactly the listed nodes whose name matches |
| SearchUtil.OnSomePath | src/utils/searchUtil.js:66-73 | the inner loop with `break` answers whether `id` reaches some direct match |
| SearchUtil.MarkNodes | src/utils/searchUtil.js:49-97 | node by node and in order: direct match iff the lower-cased name contains the query; path highlight iff not a direct match and some direct match is reachable from the node; never both |
| SearchUtil.InPath | src/utils/searchUtil.js:101-107 | `isNodeInPath` is true iff the first node carrying the id has a marked view; an id that names no node is not in the path |
| SearchUtil.StrokeEdges | src/utils/searchUtil.js:100-119 | edge by edge and in order: on-path stroke iff the first node found for each endpoint is marked |
| SearchUtil.InPathIsTagged | src/utils/searchUtil.js:101-107 | looking an endpoint up with `find` is the same as asking whether the first view with that id is marked |
| SearchUtil.ApplySearchHighlighting | src/utils/searchUtil.js:21-122 | the output has the same length, order and records as the input; an empty normalised term marks nothing; otherwise the marks and strokes are as in `MarkNodes` and `StrokeEdges` |
| SearchUtil.BlankQuery | src/utils/searchUtil.js:22-26 | a term made only of white space normalises to the empty query |
| SearchUtil.EmptyQueryClears | src/utils/searchUtil.js:26-46 | an empty query leaves every node unmarked and every edge on the default stroke |
| SearchUtil.DanglingEdgeDefault | src/utils/searchUtil.js:101-107 | an edge with an endpoint that names no listed node keeps the default stroke |
| Text.Lower | src/utils/searchUtil.js:22 | lower-casing keeps the length and folds `A`-`Z` character by character |
| Text.Trim | src/utils/searchUtil.js:22 | the result is the infix with only white space around it, and it neither starts nor ends with white space |
| Text.Includes | src/utils/searchUtil.js:51 | `includes` is `true` iff the needle occurs at some offset |
| SkillBuilder.Connect | src/components/SkillBuilder.jsx:86-112 | accepted iff the current nodes plus the extended edge list have no reachable cycle; on acceptance the edge is appended in memory and in storage; on rejection nothing changes |
| SkillBuilder.ConnectRejectsSelfLoop | src/components/SkillBuilder.jsx:97-105 | a listed node cannot be connected to itself, and the rejection goes through the cycle test |
| SkillBuilder.ConnectRejectsIffBackPath | src/components/SkillBuilder.jsx:97-109 | on a well-formed editor, `source -> target` is rejected iff `target` already reaches `source` or equals it |
| SkillBuilder.ConnectKeepsWellFormed | src/components/SkillBuilder.jsx:97-109 | acyclic edges with listed sources stay so after connecting from a listed node |
| SkillBuilder.ConnectIgnoresCompletion | src/components/SkillBuilder.jsx:97-109 | an accepted connection can leave a completed node with a locked prerequisite |
| SkillBuilder.IsCompleted | src/components/SkillBuilder.jsx:165-166 | `prereqNode?.data.completed`: true iff the first node carrying the id is completed; a missing node is not completed |
| SkillBuilder.SetCompleted | src/components/SkillBuilder.jsx:138-142 | the `map` that sets one flag (also used at lines 176-181): ids and every other field are kept, and only nodes carrying `id` get the new `completed` flag |
| SkillBuilder.IsCompletedAfterSet | src/components/SkillBuilder.jsx:176-181 | after the `map`, a lookup of the updated id sees the new flag when that id is listed; every other id keeps its completion state |
| SkillBuilder.NoCycleBelowDependent | src/components/SkillBuilder.jsx:144-150 | if no cycle is reachable from a node, none is reachable from its dependents, so the cascade can recurse |
| SkillBuilder.ToggleNode | src/components/SkillBuilder.jsx:137-152 | when no cycle is reachable from the node, the cascade locks exactly the node and everything reachable from it; every other node is unchanged |
| SkillBuilder.LockDependents | src/components/SkillBuilder.jsx:144-150 | the dependents loop locks exactly what the remaining dependents reach |
| SkillBuilder.DescendantsShrink | src/components/SkillBuilder.jsx:144-150 | on acyclic edges a dependent has strictly fewer descendants, so the cascade terminates |
| SkillBuilder.DependentsCoverDescendants | src/components/SkillBuilder.jsx:144-150 | reaching `y` from `id` is the same as reaching `y` from one of the direct dependents of `id`, or being one |
| SkillBuilder.PrerequisitesComplete | src/components/SkillBuilder.jsx:160-167 | the gate holds iff every source of an edge into the node is a listed node with `completed` set; a missing node does not count as completed |
| SkillBuilder.Toggle | src/components/SkillBuilder.jsx:133-186 | a completed node is locked with the full cascade; a locked node is unlocked iff the gate holds, and then only nodes with its id change; a blocked unlock changes nothing; edges and stored lists never change |
| SkillBuilder.UnlockWithoutPrerequisites | src/components/SkillBuilder.jsx:164-167 | a node with no incoming edge can always be unlocked |
| SkillBuilder.MissingPrerequisiteBlocks | src/components/SkillBuilder.jsx:164-167 | a prerequisite id that names no listed node blocks the unlock and changes nothing |
| SkillBuilder.ToggleKeepsWellFormed | src/components/SkillBuilder.jsx:133-186 | toggling keeps the edges acyclic and their sources listed |
| SkillBuilder.ToggleHonoursPrerequisites | src/components/SkillBuilder.jsx:133-186 | if every completed node had its prerequisites completed before a toggle, that still holds after it |
| SkillBuilder.KeyDown | src/components/SkillBuilder.jsx:188-196 | Enter and Space toggle the node; any other key changes nothing and raises no signal |
| SkillBuilder.AddNode | src/components/SkillBuilder.jsx:114-131 | the new node is appended locked after the unchanged old nodes; nothing else changes |
| SkillBuilder.AddNodeKeepsWellFormed | src/components/SkillBuilder.jsx:123 | adding a node keeps the edges acyclic and their sources listed |
| SkillBuilder.AddNodeHonoursPrerequisites | src/components/SkillBuilder.jsx:123 | adding a locked node keeps every completed node's prerequisites completed |
| SkillBuilder.Reset | src/components/SkillBuilder.jsx:205-212 | reset empties both lists in memory and in storage and clears the search term |
| SkillBuilder.ResetWellFormed | src/components/SkillBuilder.jsx:205-212 | the reset editor is well-formed and honours prerequisites |

## Left out

- Rendering, layout, drag/select changes (`handleNodesChange`, `handleEdgesChange` and the `applyNodeChanges`/`applyEdgeChanges` helpers of the flow library): they are presentation only, or they run code that is not part of this model.
- `addEdge` of the flow library is modelled as a plain append. Its generated edge id, arrow marker and style payload are not modelled. Edges carry only `source` and `target`.
- Class-name strings and colour strings: nodes get a `Mark` enum and edges a `Stroke` enum. The colours `#00bcd4`/`#ffeb3b` and the widths 2/3 are kept as `Stroke.Colour`/`Stroke.Width`. The text manipulation of `className` (removing one occurrence of each highlight class) is not modelled. So in the empty-term case the result is "unmarked", not a cleaned class string.
- Text.Lower: only folds `A`-`Z`. Full Unicode case mapping is not modelled.
- Text.Trim: uses the white space and line terminators of the ECMAScript `trim` definition, as listed in `Text.IsWhite`.
- A node name that is missing (`name?.`) is not modelled. Every node has a string name.
- Node costs are an `int` field. In the program the cost is the raw text typed into the form, or the number 0. No property here depends on the cost.
- The `Date.now()` id of a new node is a parameter. Freshness is not needed by any property proved here.
- The particle effect, focus handling, the form dialog and `handleAddSkillKeyDown` are browser effects, not graph logic.
- Toasts become the returned `Signal`. A connect or an add raises `Silent`, as the code raises no toast for them.
- Persistence is only the `storedNodes`/`storedEdges` fields. Loading, the storage hook and debouncing of the search term are I/O or timers.
- Mutation of the inputs: every model is a pure function over values, so "the inputs are not mutated" holds by construction and is not stated as a property.
- SkillBuilder.ToggleNode: requires that no cycle is reachable from the toggled id (`NoCycleBelow`). The source recursion has no visited set, so it does not terminate when a cycle is reachable from that id. A cycle elsewhere in the edges does not matter. `Connect` keeps the edges acyclic, so on a well-formed editor the requirement always holds.
- SkillBuilder.Toggle, SkillBuilder.KeyDown and SkillBuilder.ToggleHonoursPrerequisites: they inherit the same requirement when they lock a completed node.
- DetectCycle.HasCycle: its "at most one expansion per id" shows only in its `decreases` clause (ids on edges minus `visited`). It is not an `ensures` clause.
