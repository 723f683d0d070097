# Graph connectivity, modelled in Dafny

This project models the `Graph` class of `graph_connectivity.py`. The class
holds an undirected graph on the vertices `0..V-1` as adjacency lists, and
offers three queries:

- the connected components, found by a depth-first search from every vertex
  not yet seen, in ascending order;
- whether the graph is connected, meaning it has exactly one component;
- the bridges, found by Tarjan's low-link search.

The Tarjan search uses one clock shared by all its search trees. It reports
a tree edge `(u, v)` when nothing below `v` reaches `u` or any vertex above it.

## Modules

- `GraphTheory` (graph_theory.dfy) defines the value-level graph:
  - adjacency lists, well-formedness and symmetry;
  - the edge insertion `WithEdge`;
  - walks and reachability;
  - `LinkIsBridge(adj, a, b)`: no walk from `a` to `b` avoids every `a`-`b` edge;
  - `IsCutEdge(adj, a, b)`: removing one `a`-`b` edge disconnects `a` from `b`.
- `Sequences` (sequences.dfy) holds `Distinct` and `Flatten` and their lemmas.
- `ComponentTheory` (component_theory.dfy) specifies the component search
  as functions, and proves what it finds:
  - `Preorder`: one depth-first search, with the marks it leaves and the
    vertices it lists, in preorder;
  - `Components`: the scan over all vertices, one `Preorder` list per vertex
    still unmarked when its turn comes;
  - the invariants of one search and of the scan between searches, and the
    lemmas that carry them one step;
  - `Partitioned`: what the finished components are.
- `BridgeTheory` (bridge_theory.dfy) holds the value-level search state
  `Search`, the updates of one call (`Entered`, `AfterChild`, `AfterBack`) and
  the invariants of the bridge search: tree parents, the active path, low
  values with their witnesses and the bridges found so far.
- `BridgeSteps` (bridge_theory.dfy) holds the clock of the bridge search and
  the lemmas that carry the invariants across each step of one call.
- `BridgeSpec` (bridge_spec.dfy) writes the bridge search as functions, one per
  piece of the procedure: `Explore`, `ScanFrom`, `Examine` and `Roots`. It
  proves what the finished search reports.
- `GraphConnectivity` (graph_connectivity.dfy) holds the imperative model:
  - class `Graph`, with the constant `V` and the adjacency field that
    `AddEdge` updates;
  - class `BridgeSearch`, holding the state that `find_bridges` shares with
    its nested `_dfs_bridge`.

  Every method is proved against the functions above. Either its new state
  equals the specification function applied to its old state, or its
  `ensures` state the properties outright.
- `GraphExamples` (graph_examples.dfy) covers the two example graphs of the
  module's usage block and one graph with a doubled edge. Each graph is built
  with the same edge insertions through `WithEdge`, the update `AddEdge`
  makes. Its components and its bridge search result are worked out. The
  two usage graphs are also built through the class's constructor and
  `AddEdge`, and the three queries are called on them.

## Where the model follows the code

- `is_connected` returns false on a graph with no vertices, since there are
  zero components. The model follows the code, while a reading of
  "connected" as "vacuously true" would give true.
- `find_bridges` skips a neighbour equal to the tree parent, comparing
  vertices rather than edges (graph_connectivity.py:65).
  - Suppose the search first enters `v` from `u` and the edge `u`-`v` is
    doubled. Then both copies are skipped at `v`, and neither lowers `v`'s
    low value.
  - If no other path joins `u` and `v`, the pair `(u, v)` is reported,
    although neither copy is a cut edge.
  - A doubled edge that lies on a cycle is not reported. Copies met as
    back edges at other vertices count as usual.
  - The model keeps this behaviour. Its contract is stated for all graphs
    with `LinkIsBridge`, and it proves that a reported pair is a cut edge
    exactly when its edge has multiplicity one.
  - `GraphExamples.DoubleBridges` and `GraphExamples.DoubleNotCut` show the
    two-vertex case.

## Model

| member | source | states |
|---|---|---|
| GraphConnectivity.Graph.constructor | graph_connectivity.py:4-6 | V is the given count and every vertex starts with an empty neighbour list |
| GraphConnectivity.Graph.AddEdge | graph_connectivity.py:8-11 | v is appended to u's list and u to v's list; a self-loop appends u twice; the graph stays symmetric; every other list is unchanged |
| GraphTheory.WithEdge | graph_connectivity.py:10-11 | the adjacency lists after adding the edge u-v: v appended to u's list, then u appended to v's list; its properties are stated by WithEdgeValid and WithEdgeMultiplicity |
| GraphTheory.WithEdgeValid | graph_connectivity.py:8-11 | inserting an edge keeps the graph well formed and symmetric with the same vertex count, and each neighbour list only grows |
| GraphConnectivity.Graph.Dfs | graph_connectivity.py:13-19 | the marks left behind and the sequence returned are those of the search specification Preorder from v: the given sequence extended by the newly marked vertices in the order the search marks them |
| ComponentTheory.Preorder | graph_connectivity.py:13-19 | one search from an unmarked v: mark v, list it, then search each unmarked neighbour in list order; returns the marks left and the vertices listed, in preorder. Its ensures: as many marks as vertices, and strictly fewer unmarked vertices than before |
| ComponentTheory.PreorderFrom | graph_connectivity.py:17-19 | the loop over v's neighbours from the i-th on: a marked neighbour is skipped, an unmarked one is searched and its list appended. Its ensures: as many marks as vertices, and no more unmarked vertices than before |
| ComponentTheory.PreorderGathers | graph_connectivity.py:13-19 | the vertices a search from v lists are exactly the newly marked ones, each once, v first, none marked before and all reachable from v; no other mark changes; every neighbour of a listed vertex ends up marked |
| ComponentTheory.PreorderFromGathers | graph_connectivity.py:17-19 | the searches from v's neighbours, from the i-th on, extend what v's search has marked and listed, keep the list distinct and reachable from v, and leave every neighbour of v marked |
| ComponentTheory.GatherChild | graph_connectivity.py:17-19 | the vertices added by the recursive search from a neighbour join those already added, staying distinct and reachable from v |
| ComponentTheory.ComponentIsReachSet | graph_connectivity.py:13-19 | a search started on marks closed under adjacency adds exactly the vertices reachable from its start, and leaves the marks closed |
| ComponentTheory.ComponentsFrom | graph_connectivity.py:25-29 | the scan from vertex v on: a marked vertex is skipped, an unmarked one starts a search whose preorder list is the next component; its properties are stated by ComponentsNext, CollectAt and CollectFrom |
| ComponentTheory.Components | graph_connectivity.py:21-31 | the scan over all vertices from 0 with nothing marked: the list of components the method returns; ComponentsPartition states that it satisfies Partitioned |
| GraphConnectivity.Graph.FindConnectedComponents | graph_connectivity.py:21-31 | the components are those of the specification Components: one search-preorder list for each vertex still unmarked when the scan reaches it, in scan order. They satisfy Partitioned: nonempty, together holding every vertex exactly once, each the reach set of its first element, which is its least, with first elements ascending |
| ComponentTheory.ComponentsNext | graph_connectivity.py:25-29 | a search from an unmarked vertex contributes its preorder list as the next component, and the scan goes on from the next vertex with the marks the search left |
| ComponentTheory.CollectNext | graph_connectivity.py:25-29 | a search from an unmarked vertex keeps the scan invariant one vertex on, and the components still to come are unchanged |
| ComponentTheory.CollectAt | graph_connectivity.py:25-29 | one scan step, a search or a skip of a marked vertex, keeps the scan invariant one vertex on and leaves the list of all components unchanged |
| ComponentTheory.CollectFrom | graph_connectivity.py:21-31 | scanning on from any vertex with the scan invariant yields components that satisfy Partitioned |
| ComponentTheory.ComponentsPartition | graph_connectivity.py:21-31 | the components of every valid graph satisfy Partitioned |
| ComponentTheory.CollectStep | graph_connectivity.py:25-29 | a search from an unmarked vertex adds a new component that keeps the partition, reach-set, least-head and ascending-head invariants |
| ComponentTheory.CollectDone | graph_connectivity.py:31 | after the last vertex the components satisfy Partitioned: they partition all vertices, each the reach set of its least, first element, in ascending order |
| ComponentTheory.LeastHeadFirst | graph_connectivity.py:25-29 | with ascending heads, the first component's head is the least of all heads |
| GraphConnectivity.Graph.IsConnected | graph_connectivity.py:33-36 | true exactly when there is at least one vertex and every vertex is reachable from vertex 0; false with no vertices |
| GraphConnectivity.BridgeSearch.constructor | graph_connectivity.py:40-45 | nothing visited; times, low values and parents unset; no pairs found; the clock at 0 |
| GraphConnectivity.BridgeSearch.Visit | graph_connectivity.py:47-67 | the new state is the specification call Explore of the old state on u |
| GraphConnectivity.BridgeSearch.Examine | graph_connectivity.py:53-67 | the new state is the specification step Examine on u's i-th neighbour: child search and fold, back-edge fold, or nothing for the parent |
| GraphConnectivity.BridgeSearch.Run | graph_connectivity.py:69-71 | the new state is Roots of the old state from 0: one search per still unvisited vertex, in ascending order |
| GraphConnectivity.Graph.FindBridges | graph_connectivity.py:38-73 | every pair is a link no walk can detour, reported once and in one orientation; every cut edge is among them; a pair is a cut edge exactly when its edge is single; on simple graphs the pairs are exactly the cut edges |
| BridgeSpec.Initial | graph_connectivity.py:40-45 | the state before the first root call on n vertices: nothing visited, times, low values and parents unset, no pairs, the clock at 0; InitialStarts states that it is a valid starting state |
| BridgeSpec.FoundBridges | graph_connectivity.py:38-73 | the pairs the whole search reports, in order: the root calls from 0 on the initial state; SearchFinds and BridgesAreCutEdges state what they are |
| BridgeSpec.RootStepped | graph_connectivity.py:70-71 | one turn of the outer loop at vertex i: nothing if i is visited, otherwise a call on i; RootKeeps states that it keeps the invariant between root calls |
| BridgeSpec.Explore | graph_connectivity.py:47-67 | a call on an unvisited vertex leaves a ready state and advances the clock |
| BridgeSpec.ScanFrom | graph_connectivity.py:53-67 | scanning the remaining neighbours leaves a ready state and never moves the clock back |
| BridgeSpec.Examine | graph_connectivity.py:54-67 | one neighbour step leaves a ready state and never moves the clock back |
| BridgeSpec.Roots | graph_connectivity.py:69-71 | the root calls from i on leave a ready state |
| BridgeSpec.InitialStarts | graph_connectivity.py:40-45 | the initial state is a valid starting state for the search |
| BridgeSpec.ExploreReturns | graph_connectivity.py:47-67 | a call on an unvisited vertex returns with the invariants kept and the call stack restored. Its vertex is stamped with the starting clock. Earlier vertices are unchanged. Every newly visited vertex but the root has its tree parent in the new subtree. Edges leave the subtree only to calls in progress. The root's low value is bounded by every non-parent edge out of the subtree and is witnessed by one of them or by its own time. The new bridges end inside the subtree, below its root |
| BridgeSpec.ScanKeeps | graph_connectivity.py:53-67 | scanning the rest of u's neighbours keeps the loop invariant to the end of the list |
| BridgeSpec.ExamineKeeps | graph_connectivity.py:54-67 | each of the three neighbour cases keeps the loop invariant one neighbour on |
| BridgeSpec.ExploreLowers | graph_connectivity.py:47-67 | a call on u never raises the low value of a vertex already visited, and leaves u's low value at most u's discovery time |
| BridgeSpec.ScanLowers | graph_connectivity.py:53-67 | scanning u's neighbours from the i-th on never raises the low value of a vertex already visited |
| BridgeSpec.ExamineLowers | graph_connectivity.py:54-67 | one neighbour step never raises the low value of a vertex already visited: both updates of the low value take a minimum |
| BridgeSpec.RootKeeps | graph_connectivity.py:69-71 | one root step keeps the invariant between root calls |
| BridgeSpec.RootsKeep | graph_connectivity.py:69-71 | the root calls from i on keep the invariant between root calls to the end |
| BridgeSpec.RootsDone | graph_connectivity.py:69-71 | once every remaining vertex is visited the outer loop starts no search |
| BridgeSpec.SearchFinds | graph_connectivity.py:38-73 | every vertex is visited once; the times are exactly 0 to V-1, distinct; each low value is at most its vertex's time; the pairs found are exactly the links with no detour, tree parent first |
| BridgeSpec.BridgesAreCutEdges | graph_connectivity.py:38-73 | what FindBridges promises, stated of the search started from any starting state |
| BridgeTheory.Entered | graph_connectivity.py:49-51 | entering u: u marked, its time and low value set to the clock, the clock raised by one, u pushed on the chain of calls in progress; VisitBegin and ClockedEnter state what it keeps |
| BridgeTheory.AfterChild | graph_connectivity.py:55-63 | folding a returned child v into u: u's low value lowered to v's if smaller, and (u, v) appended to the pairs when v's low value exceeds u's time; ChildEnd and ClockedChild state what it keeps |
| BridgeTheory.AfterBack | graph_connectivity.py:67 | a non-parent visited neighbour v: u's low value lowered to v's time if smaller; BackStep and ClockedBack state what it keeps |
| BridgeTheory.SearchComplete | graph_connectivity.py:62-63 | once everything is visited, every link with no detour was recorded, with the first-visited end first |
| BridgeTheory.BridgeFound | graph_connectivity.py:62-63 | a link with no detour whose first end was visited first was recorded as (first, second) |
| BridgeSteps.Count | graph_connectivity.py:51 | the number of visited vertices is at most the vertex count |
| BridgeSteps.CountMark | graph_connectivity.py:49-51 | marking an unvisited vertex raises the count by one, as the clock is raised |
| BridgeSteps.Pigeonhole | graph_connectivity.py:50-51 | V distinct stamps below V take every value below V |
| BridgeSteps.ClockDone | graph_connectivity.py:50-51 | with all vertices visited, the discovery times are exactly 0 to V-1, one each, and the clock stops at V |
| BridgeSteps.Finished | graph_connectivity.py:69-73 | after the last root call: all visited, low at most time, the times 0 to V-1, and the bridges complete and sound |
| GraphTheory.CutEdgeIffSingleBridgeLink | graph_connectivity.py:39 | an edge is a cut edge exactly when it is a link with no detour and has multiplicity one |
| GraphTheory.ReachableSymmetric | graph_connectivity.py:8-11 | on a symmetric graph, reachability is symmetric |
| GraphTheory.ClosedContainsReachable | graph_connectivity.py:17-19 | marks closed under adjacency contain everything reachable from a marked vertex |
| GraphExamples.PathBuilt | graph_connectivity.py:80-83 | the three edge insertions give the path 0-1-2-3 |
| GraphExamples.PathComponents | graph_connectivity.py:85 | the path is one component, listed in search order 0, 1, 2, 3 |
| GraphExamples.PathSweep0 | graph_connectivity.py:13-19 | the search from 0 on the path marks every vertex and lists 0, 1, 2, 3 |
| GraphExamples.PathConnected | graph_connectivity.py:86 | every vertex of the path is reachable from 0 |
| GraphExamples.PathBridges | graph_connectivity.py:87 | the search on the path reports (2, 3), (1, 2), (0, 1), in post-order |
| GraphExamples.TailBuilt | graph_connectivity.py:92-97 | the five edge insertions give the triangle 0-1-2 with the tail 1-3-4 |
| GraphExamples.TailComponents | graph_connectivity.py:99 | the second graph is one component, listed in search order 0, 1, 2, 3, 4 |
| GraphExamples.TailSweep1 | graph_connectivity.py:13-19 | the search from 1, entered from 0, lists 1, then the triangle's 2, then the tail 3, 4 |
| GraphExamples.TailConnected | graph_connectivity.py:99-100 | every vertex of the second graph is reachable from 0 |
| GraphExamples.TailBridges | graph_connectivity.py:101 | the search on the second graph reports (3, 4) then (1, 3) |
| GraphExamples.NewWithEdge01 | graph_connectivity.py:80-81 | the constructor followed by add_edge(0, 1) gives a valid graph on n vertices whose only edge is 0-1 |
| GraphExamples.NewPath | graph_connectivity.py:80-83 | the constructor and the three add_edge calls of the first example give a valid graph whose lists are those of the path |
| GraphExamples.NewTail | graph_connectivity.py:92-97 | the constructor and the five add_edge calls of the second example give a valid graph whose lists are those of the triangle with a tail |
| GraphExamples.PathExample | graph_connectivity.py:80-87 | on the graph built as in the first example, the class's methods return the one component [0, 1, 2, 3], connected, and the bridges (2, 3), (1, 2), (0, 1) |
| GraphExamples.TailExample | graph_connectivity.py:92-101 | on the graph built as in the second example, the class's methods return the one component [0, 1, 2, 3, 4], connected, and the bridges (3, 4), (1, 3) |
| GraphExamples.DoubleBridges | graph_connectivity.py:65-67 | two vertices joined by a doubled edge form a valid graph; the parent check hides both copies at 1 and the search reports (0, 1) |
| GraphExamples.DoubleNotCut | graph_connectivity.py:39 | that doubled edge is not a cut edge |

## Left out

- The usage block at the end of the module prints its results, and printing
  is not modelled. Its two graphs are built in `GraphExamples` through the
  constructor and `AddEdge`, and `PathExample` and `TailExample` call the
  three queries on them and state what they return.
- Vertices outside `0..V-1` are left out. The adjacency mapping creates an
  empty list for any new key. `AddEdge` requires both endpoints below `V`,
  and the searches assume that every neighbour is a vertex.
- The floating-point infinity that initialises times and low values is
  modelled as the integer -1 (`Unset`). Every such entry is overwritten
  before it is read.
- The interpreter's recursion limit is not modelled. The searches recurse
  to any depth.
- A negative vertex count is not modelled, since `V` is a `nat`. The source
  accepts one and then has empty vertex ranges: no components, `is_connected`
  false and no bridges.
- GraphConnectivity.Graph.FindBridges: the contract fixes the sequence
  through `FoundBridges`, but no lemma states the post-order property for
  every graph; it is shown on the examples only (`PathBridges`,
  `TailBridges`, `PathExample`, `TailExample`).
- The ghost `stack` (the chain of calls in progress) and the witness
  results of the proof lemmas exist only for the proofs. The source has no
  counterpart for them.
