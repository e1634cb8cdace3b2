# Min-cost-flow network reconstruction, modelled in Dafny

The program connects a set of source nodes to a set of target nodes in a
weighted graph. It casts the problem as a min-cost flow and reports the
edges that carry flow. This project models its core, `minCostFlow.py`:

- **Node registry** (`idDict` in `construct_digraph`). Each distinct node
  name gets the next dense integer id, in first-seen order. `maxID` records
  the next free id.
- **Edge reconciler.** Edge records are tagged `D` (directed) or `U`
  (undirected). They are folded into `directed_dict`, keyed by the ordered
  pair, and `undirected_dict`, keyed by the sorted pair. Any other tag raises.
- **Arc materialisation.** Each directed entry gives one arc. Each
  undirected entry gives two mirrored arcs. Every arc has the single
  capacity.
- **Terminal injection** (`add_sources_targets`). The synthetic `source`
  and `target` take ids `maxID` and `maxID + 1`. Zero-cost arcs of capacity
  `flow * 10` join them to the listed sources and targets that have ids.
- **Solve and classify** (`min_cost_flow`, `write_output_to_sif`). The
  supplies are set and the solver is called. After an optimal solve, every
  arc with positive flow that does not touch a synthetic node is tagged `D`
  or `U` from the two tables. If neither table holds the arc, the loop
  raises.

Python dicts keep insertion order, and that order decides the order of the
arcs. Each dict is therefore modelled as `OrderedDict.Dict`: a map together
with its keys in insertion order. Python's `<` on `str` is modelled as
`Names.Less`, which compares code points lexicographically. `sorted` on a
pair is modelled as `Names.SortPair`. The solver is a function parameter
from the problem (arcs and supplies) to a status and a per-arc-index flow.

Modules, leaf first:

| module | file |
|---|---|
| `Outcomes` (errors and `Result`) | outcomes.dfy |
| `Names` | names.dfy |
| `OrderedDict` | ordered_dict.dfy |
| `NodeRegistry` | node_registry.dfy |
| `EdgeReconciler` | edge_reconciler.dfy |
| `FlowGraph` | flow_graph.dfy |
| `FlowOutput` | flow_output.dfy |
| `IntendedReconciler` (the corrected guard of line 65) | intended_reconciler.dfy |
| `Pipeline` (the three stages composed) | pipeline.dfy |
| `Scenarios` (worked examples over arbitrary names and weights) | scenarios.dfy |

Two checks the code does not make, and neither does the model:

- The code does not check that the capacity is positive.
- The code does not reject a node named `source` or `target`. The
  synthetic terminal silently takes over that name.
  `Scenarios.SourceNamedNodeLost` shows what follows from that.

## Model

| member | source | states |
|---|---|---|
| OrderedDict.Set | minCostFlow.py:57 | `d[k] = v`: the map gets `k := v`. A new key goes to the end of the key order and an existing key keeps its place. The dict stays well formed. |
| OrderedDict.Del | minCostFlow.py:59 | `del d[k]` on a present key removes exactly that key from the map. The key order becomes the old order with that one key spliced out at its position, so the remaining keys keep their relative order. |
| OrderedDict.WithoutSplices | minCostFlow.py:59 | Removing a key from a duplicate-free key order is the order before the key's index followed by the order after it. |
| Names.LessTotal | minCostFlow.py:52 | `Names.Less` is Python's `<` on `str`, which `sorted` uses here and at line 137: code points compared left to right, a proper prefix first. Any two different strings are ordered one way or the other. |
| Names.LessAsymmetric | minCostFlow.py:52 | Two strings are never each less than the other. |
| Names.LessIrreflexive | minCostFlow.py:52 | No string is less than itself. |
| Names.SortPair | minCostFlow.py:52 | `tuple(sorted(edge))` is sorted. It is either the pair or its swap, and an already sorted pair is unchanged. |
| Names.SortPairSymmetric | minCostFlow.py:52 | Both orientations of a pair have the same sorted key. |
| NodeRegistry.Intern | minCostFlow.py:41-47 | A new name gets the current counter, and the counter advances by one. A known name leaves the registry unchanged. No existing id changes and only the looked-up name is added. Density is preserved. |
| NodeRegistry.Register | minCostFlow.py:38-47 | After every endpoint is interned, exactly the names read have ids. The ids are the insertion positions. |
| NodeRegistry.DenseBijection | minCostFlow.py:41-47 | The ids are a bijection from the registered names onto `[0, curID)`. |
| NodeRegistry.RegisterCount | minCostFlow.py:41-47 | The final counter, which line 82 stores as `maxID`, equals the number of distinct names. |
| NodeRegistry.RegisterFirstSeen | minCostFlow.py:41-47 | A name's id is the number of distinct names before its first occurrence. Later occurrences do not change it. |
| EdgeReconciler.StepTables | minCostFlow.py:51-71 | One record. A tag other than D/U raises `BadTag`. A repeated directed pair only lowers its weight to the minimum, and nothing else changes. A new directed pair is appended and evicts its sorted pair from the undirected table, whose remaining keys keep their order. A U record never touches the directed table. It is inserted only when neither `edge` nor `sorted_edge` is directed and the sorted pair is new. An existing undirected entry keeps the minimum, and any other U record is dropped. Every sorted-undirected, disjoint-tables state stays so. |
| EdgeReconciler.ReconcileTables | minCostFlow.py:37-71 | The fold over the file succeeds iff every tag is D or U. Otherwise it raises `BadTag` for the first bad record. On success the invariant holds: undirected keys are sorted and no key is in both tables. |
| EdgeReconciler.DirectedIsMinimum | minCostFlow.py:54-62 | An ordered pair is a directed key iff some D record names it. Its weight is at most every such record's weight and equals one of them. |
| EdgeReconciler.UndirectedProvenance | minCostFlow.py:64-69 | Every undirected entry comes from a U record on that sorted pair that carried exactly the stored weight. |
| EdgeReconciler.UndirectedIsMinimum | minCostFlow.py:64-69 | When no D record names the sorted pair in either orientation, the pair is an undirected key iff some U record names it, and its weight is at most every such record's weight. |
| EdgeReconciler.SortedDirectedExcludesUndirected | minCostFlow.py:54-66 | A D record in sorted orientation keeps its pair out of the undirected table at the end of the file, whatever follows it. |
| FlowGraph.TableArcs | minCostFlow.py:76-80 | There are `|directed| + 2·|undirected|` arcs, all with the given capacity. |
| FlowGraph.DirectedLayout | minCostFlow.py:76-77 | Arc `i` of the directed block goes from the id of the `i`-th directed key's first name to the id of its second, and costs that key's weight. |
| FlowGraph.UndirectedLayout | minCostFlow.py:78-80 | The `j`-th undirected key (a, b) gives arcs a→b and then b→a, both costing its weight, after the directed block. |
| FlowGraph.TablesRegistered | minCostFlow.py:76-80 | Every name in a table key has an id, so the `idDict` lookups of lines 77-80 never raise. |
| FlowGraph.ConstructDigraph | minCostFlow.py:26-83 | Succeeds iff every tag is known. The result carries the reconciled tables, which satisfy the invariant and whose names all have ids. Its arcs are exactly the table arcs over those ids (directed block, then mirrored undirected pairs), with the right count and capacity. `idDict` is the registry of the endpoints with `maxID := curID` stored after them. |
| FlowGraph.SourceArcs | minCostFlow.py:106-108 | One arc `source → id[s]` with cost 0 for each listed source that has an id, in list order. A name without an id adds nothing. |
| FlowGraph.TargetArcs | minCostFlow.py:110-112 | One arc `id[t] → target` with cost 0 for each listed target that has an id, in list order. |
| FlowGraph.WithTerminals | minCostFlow.py:101-104 | `source` takes the id stored at `maxID`, and `target` takes the next one. Every existing key, `maxID` included, keeps its place in `idDict`. `source` and then `target` are appended when new, which is the order the reversal at line 121 relies on. |
| FlowGraph.TerminalArcs | minCostFlow.py:106-112 | The block is the source arcs, one per listed source with an id in list order (`m` to that id), followed by the target arcs in list order (that id to `m + 1`). All of them cost 0 and have the terminal capacity. |
| FlowGraph.TerminalShape | minCostFlow.py:106-112 | Every terminal arc costs 0 and has the terminal capacity. It either leaves `m` for a node with an id or enters `m + 1` from one. |
| FlowGraph.TerminalMembers | minCostFlow.py:106-112 | Each listed source with an id gets its arc from `m`, and each listed target with an id gets its arc to `m + 1`. |
| FlowGraph.PresentMembers | minCostFlow.py:107-112 | A name is among the kept names exactly when it is listed and has an id (the `if s in idDict` filter). |
| FlowGraph.AddSourcesTargets | minCostFlow.py:91-112 | The ids are `WithTerminals` of the old ones: `source := maxID` and `target := maxID + 1`, appended after the existing keys. The existing arcs are kept as a prefix, and the rest is exactly the terminal block (sources, then targets) with cost 0 and capacity `flow * 10`. Every listed source or target with an id gets its arc. |
| FlowOutput.ReverseNames | minCostFlow.py:121 | `{v: k for k, v in idDict.items()}`: an id has a name iff some key carries it, and the name it gets is such a key. |
| FlowOutput.ReverseNamesLastWins | minCostFlow.py:121 | When keys share an id, the name kept is the last of them in insertion order. |
| FlowOutput.ClassifyFlow | minCostFlow.py:123-144 | The loop succeeds iff every arc's ends are named and every carried arc (positive flow, no synthetic end) matches a table, so a carried arc in neither table raises (lines 143-144). On success the output is exactly the carried arcs in arc order, each D iff its ordered pair is a directed key. The written edges never name `source` or `target`, a U edge's sorted pair is an undirected key, and there are at most as many edges as arcs. The only errors are an unnamed id or an arc in neither table. |
| FlowOutput.Supplied | minCostFlow.py:158-159 | Supply `flow` at `source`, demand `flow` at `target`, and no other supply. The arcs are the network's. |
| FlowOutput.MinCostFlow | minCostFlow.py:151-168 | A non-optimal status ends with nothing written, and only a non-optimal status does. A written output comes from an optimal solve, has no more edges than arcs, and never names a synthetic node. |
| Pipeline.Run | minCostFlow.py:181-186 | An unknown tag anywhere in the file raises `BadTag` before anything is solved. A written output never names a synthetic node. |
| Pipeline.ClassifyNamedArcs | minCostFlow.py:123-144 | Over arcs whose ends are named, are not synthetic and match a table, the loop yields exactly the positive-flow arcs, tagged from the tables, in arc order. |
| Pipeline.ClassifyTerminalArcs | minCostFlow.py:128-133 | Arcs at a synthetic node never change the output. |
| Pipeline.FinalNames | minCostFlow.py:82-121 | With no reserved name in the file, reversing the final `idDict` gives each registered id its name back, `maxID`'s id the name `source`, and the next id `target`. |
| Pipeline.RunWritesTableArcs | minCostFlow.py:151-168 | With known tags and no reserved names the run never raises. An optimal solve writes exactly the table arcs with positive flow, each tagged D iff its ordered pair is directed, in arc order. Any other status writes nothing. |
| IntendedReconciler.StepIntended | minCostFlow.py:64-69 | The corrected step. A U record whose pair is directed in either orientation leaves the tables unchanged. The directed table, keys and their order included, is exactly the one the code's step produces. The stronger invariant holds: no undirected key or its reverse is directed. |
| IntendedReconciler.ReconcileIntended | minCostFlow.py:37-71 | The corrected fold succeeds iff every tag is known, and ends in the stronger invariant. |
| Pipeline.IntendedTagsFollowBlocks | minCostFlow.py:76-80 | With corrected tables, a table arc is classified D iff it was laid out from the directed block. Both arcs of an undirected entry are classified U. |
| IntendedReconciler.IntendedPrecedence | minCostFlow.py:54-69 | With the corrected guard, an undirected entry's pair was never declared directed in either orientation. Its weight is the least that any U record on the pair gave, and one of them gave it. |
| Scenarios.OneUndirectedEdgeWritten | minCostFlow.py:151-168 | One undirected edge a–b, source a, target b, flow 1, capacity 1. The arcs are a→b, b→a, source→a and b→target. An optimal solve that routes the unit over a→b writes exactly `a b U`. |
| Scenarios.DirectedBeatsLaterUndirected | minCostFlow.py:54-69 | D a→b then U a–b leaves only the directed entry, and a→b is written as D. |
| Scenarios.TwoUndirectedKeepLower | minCostFlow.py:64-69 | U a–b then U b–a leaves one undirected entry on the sorted pair, with the lower weight. |
| Scenarios.ReversedDirectedKeptAsWritten | minCostFlow.py:65 | With a < b, D b→a then U a–b keeps both entries, and the network carries b→a twice. The second b→a is the undirected pair's mirror, yet it is classified D. |
| Scenarios.ReversedDirectedDroppedIntended | minCostFlow.py:65 | Under the corrected guard the same two records leave only the directed entry. |
| Scenarios.EarlierUndirectedLostAsWritten | minCostFlow.py:58-67 | With a < b, U a–b w1, then D b→a, then U a–b w2 leaves the undirected entry at w2 beside the directed b→a. The directed record evicted w1, and the guard let w2 back in, whatever the two weights. |
| Scenarios.EarlierUndirectedDroppedIntended | minCostFlow.py:65 | Under the corrected guard the same three records leave only the directed entry. |
| Scenarios.SourceNamedNodeLost | minCostFlow.py:101-124 | A file node named `source` loses its id to the synthetic source. Id 0 is then nameless, so an optimal solve raises `UnknownNodeId(0)` on the first arc. |

## Left out

- The min-cost-flow solve itself, OR-Tools `SimpleMinCostFlow` (lines 12 and 162). It is a foreign library. It is the parameter `solve`, which returns a status and a flow per arc index. Nothing about optimality is modelled.
- The cost transform `int((1 - float(s)) * 100)` (line 49). It is floating point. Each record carries its integer weight.
- `int(cap)` (line 35) truncates the capacity, which is parsed as a float (line 215). The model takes an integer capacity. `int(value)` (lines 77-80) and `int(flow)` (lines 158-159) are applied to values that are already integers: weights are stored only as the `int` of line 49, and `flow` is parsed with `type=int` (line 206) and passed through `int` at line 175. They change nothing.
- Integer widths. Python integers are unbounded, and so are the model's. The solver's own 64-bit limits are part of the solver.
- File reading and writing. This covers `parse_nodes`, line splitting, `open`, `write` and `close`, the output file name, and the progress prints. The edge file is a sequence of records. The source and target sets are sequences in their iteration order. The output is a sequence of edges. When the loop raises, the model returns the error and drops the lines already written to the file.
- A line with fewer than four fields, which raises `IndexError` at line 40, 44, 49 or 50. It is part of parsing, and records always have four fields.
- In the code, each record's ids are assigned while it is read, interleaved with reconciliation. The model registers all endpoints and then folds the tables. The two agree because neither step reads the other's state until the arcs are built.
- `print_graph` (lines 86-88). Nothing calls it, and it uses a graph API the program does not otherwise use.
- `main` and argument parsing (lines 170-221), other than the order of the three calls, which `Pipeline.Run` follows.
- Detection of reserved names. Node names `source`, `target` and `maxID` are not rejected, just as the code does not reject them. The end-to-end theorem `Pipeline.RunWritesTableArcs` requires that no such name occurs, and `Scenarios.SourceNamedNodeLost` shows one case where one does.
- FlowOutput.MinCostFlow: a successful write is stated up to the table arcs (count and synthetic-node exclusion). The exact edge list is stated end-to-end by `Pipeline.RunWritesTableArcs`, which needs the network that `construct_digraph` and `add_sources_targets` build.
- Duplicate terminals. The program's sources and targets are Python sets, so each name occurs once. The model takes them as sequences and does not require them to be duplicate-free. Only duplicate-free sequences correspond to the program: a repeated name would add a second terminal arc that the program never builds.
- The module-level dicts persist across calls in the code. The model starts every run from empty tables, matching a single invocation.

## Findings

| source | as written | input that shows it | evidently intended | confidence | as-written member | corrected member |
|---|---|---|---|---|---|---|
| minCostFlow.py:65 | An undirected record is blocked only when `edge` or `sorted_edge` is a directed key. When `edge` is already sorted the two are the same, so a directed key in the reverse orientation is never checked. | Records `b a D` and then `a b U`, with a < b. Both tables keep an entry for the pair, and the network gets arc b→a twice: once directed, once as the undirected pair's mirror. Also: records `a b U 5`, `b a D 1`, `a b U 7`, with a < b. The directed record evicts `(a, b) := 5`, and the guard lets the third record insert `(a, b) := 7`, so the pair is directed and undirected with the later, higher weight. | Directed declarations take precedence over undirected ones for the same unordered pair, in either orientation. The evicting branch at lines 58-59 already works this way. | not executed | Scenarios.ReversedDirectedKeptAsWritten, Scenarios.EarlierUndirectedLostAsWritten | IntendedReconciler.IntendedPrecedence |

The end-to-end theorem `Pipeline.RunWritesTableArcs` keeps the reconciler
as written (`EdgeReconciler`), because it describes what the program does.
`IntendedReconciler` gives the corrected fold and its precedence theorem.
The downstream stages take the tables as a value, so they accept its
tables unchanged. For those tables, `Pipeline.IntendedTagsFollowBlocks`
proves that every arc's D/U tag matches the block it came from. Under the
code as written this fails: `Scenarios.ReversedDirectedKeptAsWritten` has
an undirected mirror arc tagged D.
