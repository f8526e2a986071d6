# Dominating sets over a mutable graph store

The modelled system is a small Java graph library. It has three parts.

- **Graph store** (`Graph`, `UndirectedGraph`, `DirectedGraph`, `Edge`, `Vertex`). It keeps a map from
  vertex id to vertex, a map from vertex id to the set of edges touching it, and an edge counter.
  Vertices are added and removed, and so are edges. Misuse (a duplicate or negative id, an unknown
  vertex, a duplicate or missing edge) raises an exception. An undirected edge is stored with its
  smaller id first; a directed edge keeps its orientation. `isConnected` runs a breadth-first search.
- **Cloning** (`UndirectedGraphCloner`, `DirectedGraphCloner`). A cloner copies the vertices of a
  seed graph, then replays every stored edge that the copy does not yet hold.
- **Dominating sets**. There are three generators:
  - `DominatingSetCalculations`, the current one, with a greedy and a connected greedy generator;
  - `OriginalDominatingSetCalculations`, the legacy one, whose connected greedy is gated by
    `isConnected`;
  - `SimplerSlowerDominatingSetCalculations`, which leaves the graph alone and keeps an uncovered set.

  Two checkers decide whether a set of vertices dominates a graph: the stand-alone
  `DominatingSetVerifier.verify` and the verifier inside `DominatingSetCalculations`.

The model has one Dafny file per part:

| file | module | what it holds |
|---|---|---|
| `edge.dfy` | `Edges` | the edge value and its orientation rule |
| `paths.dfy` | `Paths` | paths, reachability and symmetry over a neighbour map |
| `graph.dfy` | `Graphs` | the `Graph` class with its invariant `Valid()`, and the errors |
| `cloner.dfy` | `Cloning` | the `GraphCloner` class |
| `selection.dfy` | `Selection` | the "most connected vertex" scan (largest count, ties to the larger id) |
| `domination.dfy` | `Domination` | domination, the generators' specification functions, the growth and connectivity of the connected greedy's result, and worked examples |
| `calculations.dfy` | `Calculations` | the current generator and its verifier |
| `verifier.dfy` | `Verifier` | the stand-alone checker |
| `original.dfy` | `OriginalCalculations` | the legacy generator |
| `simpler.dfy` | `SimplerCalculations` | the generator that keeps an uncovered set |

The `Graph` class keeps the source's three stored fields:

- `vertices`: each id mapped to the ids of its neighbours;
- `edges`: the edge buckets;
- `numEdges`: the edge counter.

A ghost edge set `E` ties them together. `Valid()` states the invariant behind them:

- ids are natural;
- every edge is in the bucket of each endpoint and nowhere else;
- undirected edges are normalised;
- the neighbour sets are exactly those the edges induce;
- `numEdges == |E|`.

Every graph operation preserves `Valid()`. Each one states its whole new state in terms of `E`, and its
error outcome.

The generators are classes with the source's fields. Each generator method is proved to produce
exactly what a recursive specification function computes:

- `GreedySpec`: repeatedly take the vertex with most neighbours and delete its egonet;
- `CoverGreedy`: the same, on an uncovered set;
- `ConnectedFrom` / `ConnectedGreedySpec`: grow a covered set from the covered vertex with most
  uncovered neighbours.

Lemmas then prove that each specification function yields a dominating subset of the vertex ids. The
connected specification is also proved to succeed on every non-empty connected undirected graph. Its result
is built by growth: each pick after the first lies in, or next to, the part dominated so far. On an
undirected graph, and for the legacy generator on any graph, the result also induces a connected subgraph. The
two test-suite graphs are worked through: the greedy gives `{4, 5}` on the undirected one and `{1, 5}`
on the directed one. A thrown exception becomes a `Failure` (or `Fail`) carrying an `Error`. A
set-valued answer becomes `set<int>` of vertex ids.

## Model

| member | source | states |
|---|---|---|
| Edges.CreateEdge | src/main/java/graph/UndirectedGraph.java:21-24 | an undirected edge holds the same two endpoints with the smaller first; a directed edge (DirectedGraph.createEdge) keeps start and end as given |
| Edges.CreateEdgeOrientation | src/main/java/graph/UndirectedGraph.java:21-24 | undirected edge creation ignores argument order, while two distinct directed orientations are different edges |
| Edges.CreateEdgeOfStored | src/main/java/graph/Edge.java:44-50 | re-creating a stored (normalised) edge from its endpoints yields an equal edge, so equality by endpoints finds it again |
| Paths.ReachableStep | src/main/java/graph/Graph.java:220-227 | a neighbour of a reachable vertex is reachable, which is what enqueuing neighbours relies on |
| Paths.ClosedContainsReachable | src/main/java/graph/Graph.java:205-214 | a set containing the start and closed under neighbours contains every reachable vertex, so a finished search has seen exactly the reachable vertices |
| Paths.CrossingVertex | src/main/java/graph/DominatingSetCalculations.java:221-245 | in a connected symmetric graph every proper non-empty covered set has an uncovered vertex with a covered neighbour, so a diversion always finds a candidate |
| Paths.SymmetricFlip | src/main/java/graph/UndirectedGraph.java:26-30 | in an undirected graph neighbourhood goes both ways |
| Paths.EdgelessNotAllReachable | src/main/java/graph/Graph.java:179-186 | a graph with two vertices and no edges is not connected |
| Graphs.Graph.constructor | src/main/java/graph/Graph.java:10-14 | a new graph is empty, valid and of the requested kind |
| Graphs.Graph.NeighborsAreIds | src/main/java/graph/Graph.java:133-140 | every neighbour of a vertex is itself a vertex of the graph |
| Graphs.Graph.UndirectedIsSymmetric | src/main/java/graph/UndirectedGraph.java:26-30 | in a valid undirected graph w is a neighbour of v exactly when v is a neighbour of w |
| Graphs.Graph.EdgeInBothBuckets | src/main/java/graph/Graph.java:152-161 | every edge is filed in the bucket of each of its endpoints |
| Graphs.Graph.AddVertex | src/main/java/graph/Graph.java:16-19 | an existing id fails with DuplicateVertex, then a negative id fails with InvalidVertex, both leaving the graph unchanged; otherwise the id is added with no neighbours and nothing else changes |
| Graphs.Graph.EdgeIsInMap | src/main/java/graph/Graph.java:126-131 | the bucket lookup answers true exactly when the edge belongs to the graph |
| Graphs.Graph.AddReferenceToMap | src/main/java/graph/Graph.java:152-161 | the edge joins the bucket of the given id, creating the bucket when missing; other buckets are untouched |
| Graphs.Graph.AddEdgeToMap | src/main/java/graph/Graph.java:147-150 | the edge is filed under both endpoints and the buckets describe the enlarged edge set |
| Graphs.Graph.AddNeighborToVertices | src/main/java/graph/UndirectedGraph.java:26-30 | the neighbour sets become those of the enlarged edge set: both directions for undirected graphs, start to end for directed ones (DirectedGraph.addNeighborToVertices) |
| Graphs.Graph.AddEdgeToGraph | src/main/java/graph/Graph.java:142-145 | buckets and neighbour sets together describe the enlarged edge set, the vertex ids unchanged |
| Graphs.Graph.AddEdge | src/main/java/graph/Graph.java:27-32 | a missing endpoint fails with UnknownVertex, then a duplicate edge with DuplicateEdge, both leaving the graph unchanged; otherwise the created edge joins the edge set, the counter grows by one and the neighbour sets follow |
| Graphs.Graph.RemoveEdgeFromMap | src/main/java/graph/Graph.java:170-175 | the edge leaves the buckets of its endpoints only, and the buckets describe the reduced edge set |
| Graphs.Graph.RemoveNeighborReferenceFromVertices | src/main/java/graph/UndirectedGraph.java:39-44 | the neighbour sets become those of the reduced edge set: both directions go for undirected graphs, start to end only for directed ones |
| Graphs.Graph.RemoveEdgeFromGraph | src/main/java/graph/Graph.java:165-168 | buckets and neighbour sets together describe the edge set without the removed edge |
| Graphs.Graph.RemoveEdge | src/main/java/graph/UndirectedGraph.java:6-11 | a missing edge fails with UnknownEdge, leaving the graph unchanged; otherwise exactly that edge leaves the edge set and the counter drops by one |
| Graphs.Graph.RemoveAllConnectedEdges | src/main/java/graph/Graph.java:91-109 | exactly the edges incident to the vertex are removed and the counter drops by their number |
| Graphs.Graph.RemoveStoredEdge | src/main/java/graph/Graph.java:105-109 | one stored edge leaves the edge set, the invariant kept |
| Graphs.Graph.AddFreshEdge | src/main/java/graph/Graph.java:142-145 | one new edge joins the edge set, the invariant kept |
| Graphs.Graph.RemoveVertex | src/main/java/graph/Graph.java:21-25 | an unknown id fails with UnknownVertex, leaving the graph unchanged; otherwise the vertex, its incident edges and every neighbour reference to it disappear, the counter drops by the number of those edges, and every edge bucket (its own included) stays, emptied of them |
| Graphs.Graph.FirstVertex | src/main/java/graph/Graph.java:201-203 | the search starts from the least vertex id |
| Graphs.Graph.IsConnected | src/main/java/graph/Graph.java:41-43 | an empty graph fails with EmptyGraph; otherwise the answer is whether every vertex is reachable from the first one |
| Graphs.Graph.PerformBfs | src/main/java/graph/Graph.java:205-214 | the breadth-first search answers exactly whether every vertex is reachable from the start |
| Graphs.Graph.AddNeighborsToQueue | src/main/java/graph/Graph.java:220-227 | the unseen neighbours are appended to the queue once each and all neighbours become seen |
| Cloning.GraphCloner.constructor | src/main/java/graph/UndirectedGraphCloner.java:9-12 | the cloner holds the seed and a fresh empty graph of the same kind |
| Cloning.GraphCloner.Clone | src/main/java/graph/UndirectedGraphCloner.java:14-20 | the clone is a fresh valid graph with the seed's kind, vertices, neighbour sets, edges and edge count |
| Cloning.GraphCloner.AddVerticesToClone | src/main/java/graph/UndirectedGraphCloner.java:22-26 | the clone gains exactly the seed's vertex ids and no edges |
| Cloning.GraphCloner.AddEdgesToClone | src/main/java/graph/UndirectedGraphCloner.java:28-32 | after replaying every bucket the clone holds exactly the seed's edges |
| Cloning.GraphCloner.AddEdgesFromSetToClone | src/main/java/graph/UndirectedGraphCloner.java:34-40 | one bucket's edges join the clone's edge set; edges already present (filed under another endpoint) are skipped |
| Cloning.GraphCloner.AddUnlessFiled | src/main/java/graph/UndirectedGraphCloner.java:36-38 | an edge is added only when the clone does not yet hold it, and then it is held |
| Selection.Update | src/main/java/graph/DominatingSetCalculations.java:124-139 | the kept pick is the current or the new candidate, neither beats it, and it changes only when the new one has a larger count or an equal count and a larger id |
| Selection.UpdateKeepsMostConnected | src/main/java/graph/DominatingSetCalculations.java:106-112 | one comparison step turns the best of the scanned vertices into the best of the scanned vertices plus the new one |
| Selection.NothingScanned | src/main/java/graph/DominatingSetCalculations.java:114-117 | the reset placeholder (count 0, vertex 0) is the best pick over no vertices |
| Selection.MostConnectedUnique | src/main/java/graph/DominatingSetCalculations.java:106-112 | the best pick is unique, so the scan's result does not depend on the iteration order |
| Selection.MostConnectedIsMost | src/main/java/graph/DominatingSetCalculations.java:106-112 | the specified pick beats no scanned vertex and is beaten by none |
| Selection.ScanIsMostConnected | src/main/java/graph/DominatingSetCalculations.java:106-112 | whatever scan ends with a best pick ends with the specified pick |
| Selection.MostConnectedIsScanned | src/main/java/graph/DominatingSetCalculations.java:114-117 | over a non-empty set of natural ids with natural counts the pick is a real scanned vertex, never the placeholder alone |
| Selection.PositiveIsScanned | src/main/java/graph/DominatingSetCalculations.java:197-200 | a pick with a positive count is a scanned vertex carrying that count |
| Domination.SelfLoopsReady | src/main/java/graph/DominatingSetCalculations.java:99-104 | adding a self-loop to every vertex keeps the vertex ids and gives every vertex itself as a neighbour |
| Domination.RemovalKeepsReady | src/main/java/graph/DominatingSetCalculations.java:158-162 | deleting vertices leaves exactly the other ids, neighbours still among them, self-loops kept |
| Domination.DegreePick | src/main/java/graph/DominatingSetCalculations.java:106-112 | the vertex with most neighbours (ties to the larger id) of a non-empty graph is one of its vertices |
| Domination.DegreePickIs | src/main/java/graph/DominatingSetCalculations.java:106-112 | any best pick over the degrees names the specified vertex |
| Domination.GreedyStep | src/main/java/graph/DominatingSetCalculations.java:90-97 | one round of the greedy takes the pick and continues on the graph without its egonet |
| Domination.GreedySpecDominates | src/main/java/graph/DominatingSetCalculations.java:90-97 | on a self-looped graph the greedy's set is made of vertex ids and dominates the graph |
| Domination.GreedyDominates | src/main/java/graph/DominatingSetCalculations.java:66-69 | the greedy on the self-looped copy dominates the original graph |
| Domination.GreedyResultDominates | src/main/java/graph/DominatingSetCalculations.java:66-69 | the greedy fails exactly when the graph already has a self-loop, and otherwise returns a dominating set of vertex ids |
| Domination.CoverGreedyCovers | src/main/java/graph/SimplerSlowerDominatingSetCalculations.java:52-57 | the uncovered-set greedy picks only uncovered vertices and covers every uncovered vertex |
| Domination.CoverGreedyDominates | src/main/java/graph/SimplerSlowerDominatingSetCalculations.java:47-50 | started with every vertex uncovered it returns a dominating set of vertex ids |
| Domination.NextPick | src/main/java/graph/DominatingSetCalculations.java:192-201 | a pick is a vertex that is uncovered or has an uncovered neighbour, and it is covered or has a covered neighbour; no pick is NoProgress |
| Domination.CoverGrows | src/main/java/graph/DominatingSetCalculations.java:176-180 | adding such a pick's egonet strictly grows the covered set within the vertex ids |
| Domination.CoversAfterPick | src/main/java/graph/DominatingSetCalculations.java:171-180 | if the covered set was dominated by the picks, it still is after adding a pick and its egonet |
| Domination.ConnectedFromDominates | src/main/java/graph/DominatingSetCalculations.java:182-186 | a successful connected round sequence ends with a dominating set of vertex ids |
| Domination.ConnectedGreedyDominates | src/main/java/graph/DominatingSetCalculations.java:165-169 | a successful connected greedy returns a dominating set of vertex ids |
| Domination.ConnectedFromSucceeds | src/main/java/graph/DominatingSetCalculations.java:221-226 | on a connected undirected graph the rounds never get stuck |
| Domination.ConnectedGreedySucceeds | src/main/java/graph/DominatingSetCalculations.java:165-169 | on a non-empty connected undirected graph the connected greedy succeeds |
| Domination.ConnectedResultDominates | src/main/java/graph/DominatingSetCalculations.java:54-60 | any set the connected generator returns dominates the graph, and a non-empty connected undirected graph always gets one |
| Domination.ConnectedFromGrows | src/main/java/graph/OriginalDominatingSetCalculations.java:136-141 | a connected greedy run, with or without diversion, only ever adds to the dominating set it starts from |
| Domination.CandidateMeansProgress | src/main/java/graph/DominatingSetCalculations.java:192-201 | on an undirected graph an uncovered vertex next to a covered one gives that covered vertex a positive uncovered count, so the round does not divert |
| Domination.PickIsCovered | src/main/java/graph/DominatingSetCalculations.java:192-201 | without diversion, or on an undirected graph, every pick of a round is a covered vertex |
| Domination.JoinKeepsReachable | src/main/java/graph/DominatingSetCalculations.java:171-180 | adding a vertex that the dominating set already dominates keeps every member reachable from s along edges between members |
| Domination.ConnectedFromOrder | src/main/java/graph/DominatingSetCalculations.java:182-201 | each pick of the covered-vertex loop lies in, or has a neighbour in, the part dominated so far, and the result is the starting set plus the picks in that order |
| Domination.ConnectedFromConnected | src/main/java/graph/DominatingSetCalculations.java:182-201 | without diversion, or on an undirected graph, the loop keeps the dominating set reachable from its first pick along edges between members |
| Domination.FirstPickStart | src/main/java/graph/DominatingSetCalculations.java:165-180 | the first pick alone dominates exactly its egonet and reaches itself |
| Domination.ConnectedGreedyConnected | src/main/java/graph/DominatingSetCalculations.java:165-169 | every set the connected greedy returns is built by growth from its first pick, and without diversion or on an undirected graph it induces a connected subgraph |
| Domination.ConnectedResultConnected | src/main/java/graph/DominatingSetCalculations.java:54-60 | every set the connected generator returns is built by growth from its first pick, and on an undirected graph it induces a connected subgraph |
| Domination.DivertExampleReady | src/main/java/graph/DominatingSetCalculations.java:71-78 | the directed graph 1->2, 3->2 has no isolated vertex, so the connected generator accepts it |
| Domination.DivertExampleFirstPick | src/main/java/graph/DominatingSetCalculations.java:106-112 | on that graph the first pick is 3 |
| Domination.DivertExampleDivert | src/main/java/graph/DominatingSetCalculations.java:192-245 | with 2 and 3 covered no covered vertex has an uncovered neighbour, and the diversion picks 1 |
| Domination.DivertExampleRun | src/main/java/graph/DominatingSetCalculations.java:165-201 | the connected greedy on that graph returns {1, 3} |
| Domination.DivertExampleDisconnected | src/main/java/graph/DominatingSetCalculations.java:221-226 | no edge joins 1 and 3, so {1, 3} does not induce a connected subgraph |
| Domination.DivertExampleResult | src/main/java/graph/DominatingSetCalculations.java:54-60 | the connected generator returns {1, 3} on the graph 1->2, 3->2: after a diversion a directed result need not induce a connected subgraph |
| Domination.DominatedIff | src/main/java/graph/DominatingSetVerifier.java:26-32 | the candidates with their neighbours include every vertex exactly when the candidates dominate the graph |
| Domination.DominatedStep | src/main/java/graph/DominatingSetVerifier.java:16-25 | one more candidate adds itself and its neighbours to the gathered ids |
| Domination.UndirectedExampleLooped | src/test/java/graph/DominatingSetGeneratorTest.java:27-37 | the undirected test graph with self-loops has the stated neighbour sets |
| Domination.UndirectedExampleDegrees | src/test/java/graph/DominatingSetGeneratorTest.java:27-37 | its vertices have 4, 3, 4, 3, 4 and 2 neighbours |
| Domination.UndirectedExampleFirstPick | src/test/java/graph/DominatingSetGeneratorTest.java:44 | the first greedy pick is 5 (largest id among the degree-4 vertices) |
| Domination.UndirectedExampleRemoval | src/test/java/graph/DominatingSetGeneratorTest.java:44 | deleting the egonet of 5 leaves vertices 1 and 4 |
| Domination.UndirectedExampleSecondPick | src/test/java/graph/DominatingSetGeneratorTest.java:44 | the second pick is 4 |
| Domination.UndirectedExampleRest | src/test/java/graph/DominatingSetGeneratorTest.java:44 | the greedy finishes the remaining graph with {4} |
| Domination.UndirectedExampleGreedy | src/test/java/graph/DominatingSetGeneratorTest.java:25-47 | the greedy on the undirected test graph gives {4, 5} |
| Domination.DirectedExampleLooped | src/test/java/graph/DominatingSetGeneratorTest.java:54-65 | the directed test graph with self-loops has the stated out-neighbour sets |
| Domination.DirectedExampleDegrees | src/test/java/graph/DominatingSetGeneratorTest.java:54-65 | its vertices have 4, 2, 2, 2, 3 and 1 out-neighbours |
| Domination.DirectedExampleFirstPick | src/test/java/graph/DominatingSetGeneratorTest.java:72 | the first greedy pick is 1 |
| Domination.DirectedExampleRemoval | src/test/java/graph/DominatingSetGeneratorTest.java:72 | deleting the egonet of 1 leaves vertices 5 and 6 |
| Domination.DirectedExampleSecondPick | src/test/java/graph/DominatingSetGeneratorTest.java:72 | the second pick is 5 |
| Domination.DirectedExampleRest | src/test/java/graph/DominatingSetGeneratorTest.java:72 | the greedy finishes the remaining graph with {5} |
| Domination.DirectedExampleGreedy | src/test/java/graph/DominatingSetGeneratorTest.java:52-77 | the greedy on the directed test graph gives {1, 5} |
| Domination.ConnectedRound | src/main/java/graph/DominatingSetCalculations.java:192-201 | one round adds the pick and its egonet, shrinks the uncovered part and leaves the final answer unchanged |
| Calculations.ConnectedDone | src/main/java/graph/DominatingSetCalculations.java:221-226 | re-adding the last pick after a diversion has completed the cover changes nothing, so the answer is the set built so far |
| Calculations.LoopsAddedAll | src/main/java/graph/DominatingSetCalculations.java:99-104 | once every vertex has had its self-loop added without failure, the graph had no self-loop and now is the self-looped graph |
| Calculations.LoopsAddedFails | src/main/java/graph/DominatingSetCalculations.java:99-104 | a self-loop refused as a duplicate shows that the original graph already had one |
| Calculations.GreedyRound | src/main/java/graph/DominatingSetCalculations.java:92-96 | one loop iteration keeps the set built so far plus the greedy of the rest equal to the final answer, and shrinks the graph |
| Calculations.IsolatedIffNoEndpoint | src/main/java/graph/DominatingSetCalculations.java:80-88 | a vertex is the endpoint of no stored edge exactly when it has no neighbour and is nobody's neighbour |
| Calculations.FewerEndpointsIffIsolated | src/main/java/graph/DominatingSetCalculations.java:71-78 | fewer edge endpoints than vertices means exactly that some vertex is isolated |
| Calculations.CoveredCount | src/main/java/graph/DominatingSetCalculations.java:188-190 | comparing sizes of covered and vertex sets answers exactly whether every vertex is covered |
| Calculations.CandidatePick | src/main/java/graph/DominatingSetCalculations.java:221-245 | when no covered vertex has an uncovered neighbour, the diversion's pick is the best uncovered vertex with a covered neighbour |
| Calculations.DominatingSetGenerator.constructor | src/main/java/graph/DominatingSetCalculations.java:40-47 | the generator works on a fresh clone of the seed and starts with the placeholder pick and empty sets |
| Calculations.DominatingSetGenerator.GenerateGreedy | src/main/java/graph/DominatingSetCalculations.java:66-69 | the result is the greedy result of the seed graph: DuplicateEdge for a graph with a self-loop, otherwise the greedy set of its self-looped copy |
| Calculations.DominatingSetGenerator.GenerateUnconnectedGreedyDominatingSet | src/main/java/graph/DominatingSetCalculations.java:90-97 | the set left in the generator is exactly the greedy result, or the failure is the greedy's failure |
| Calculations.DominatingSetGenerator.RemoveEgonetsUntilEmpty | src/main/java/graph/DominatingSetCalculations.java:92-96 | the loop adds exactly the greedy set of the graph it started with |
| Calculations.DominatingSetGenerator.GreedyRoundStep | src/main/java/graph/DominatingSetCalculations.java:93-95 | one round adds the vertex with most neighbours and deletes its egonet from the working graph |
| Calculations.DominatingSetGenerator.AddEdgesFromVerticesToThemselves | src/main/java/graph/DominatingSetCalculations.java:99-104 | it succeeds exactly on a graph without self-loops, turning it into its self-looped copy; otherwise DuplicateEdge |
| Calculations.DominatingSetGenerator.AddSelfLoop | src/main/java/graph/DominatingSetCalculations.java:102 | adding a self-loop fails with DuplicateEdge, graph unchanged, exactly when the vertex already has one |
| Calculations.DominatingSetGenerator.FindMostConnectedVertex | src/main/java/graph/DominatingSetCalculations.java:106-112 | after the scan the pick is the vertex with most neighbours, ties to the larger id |
| Calculations.DominatingSetGenerator.ResetMostConnectedVertex | src/main/java/graph/DominatingSetCalculations.java:114-117 | the pick is reset to the placeholder with count 0 and id 0 |
| Calculations.DominatingSetGenerator.UpdateMostConnectedVertex | src/main/java/graph/DominatingSetCalculations.java:124-131 | the pick becomes the better of the kept and the new candidate |
| Calculations.DominatingSetGenerator.CompareValues | src/main/java/graph/DominatingSetCalculations.java:133-139 | the result is the larger of the two ids |
| Calculations.DominatingSetGenerator.AddMostConnectedVertexToDominatingSet | src/main/java/graph/DominatingSetCalculations.java:141-143 | the pick joins the dominating set |
| Calculations.DominatingSetGenerator.RemoveMostConnectedVertexEgonetFromSeed | src/main/java/graph/DominatingSetCalculations.java:145-148 | the working graph loses exactly the pick's neighbours (with the self-loop, the pick too) |
| Calculations.DominatingSetGenerator.FindAllNeighborsOfMostConnected | src/main/java/graph/DominatingSetCalculations.java:150-156 | the returned ids are exactly the pick's neighbours |
| Calculations.DominatingSetGenerator.RemoveVertices | src/main/java/graph/DominatingSetCalculations.java:158-162 | the working graph becomes the graph without those vertices and without any reference to them |
| Calculations.DominatingSetGenerator.GenerateConnectedGreedy | src/main/java/graph/DominatingSetCalculations.java:54-60 | a directed graph with an isolated vertex gives NoConnectedSet; any other graph gives the connected greedy with diversion |
| Calculations.DominatingSetGenerator.GraphIsDirectedWithIsolatedVertices | src/main/java/graph/DominatingSetCalculations.java:71-78 | true exactly for a directed graph with a vertex on no edge |
| Calculations.DominatingSetGenerator.PopulateAccessibleVertices | src/main/java/graph/DominatingSetCalculations.java:80-88 | the gathered ids are exactly the endpoints of the stored edges |
| Calculations.DominatingSetGenerator.GenerateConnectedGreedyDominatingSet | src/main/java/graph/DominatingSetCalculations.java:165-169 | the set built is exactly the connected greedy's answer, or the greedy gets stuck |
| Calculations.DominatingSetGenerator.AddMostConnectedVertex | src/main/java/graph/DominatingSetCalculations.java:171-174 | the pick joins the dominating set and its egonet the covered set |
| Calculations.DominatingSetGenerator.AddMostConnectedVertexEgonetToCoveredVerticesSet | src/main/java/graph/DominatingSetCalculations.java:176-180 | the pick and its neighbours join the covered set |
| Calculations.DominatingSetGenerator.AllVerticesCovered | src/main/java/graph/DominatingSetCalculations.java:188-190 | the size test answers exactly whether every vertex is covered |
| Calculations.DominatingSetGenerator.LoopOverCoveredVertices | src/main/java/graph/DominatingSetCalculations.java:182-186 | from the current sets the loop ends with the connected greedy's answer, every vertex covered, or reports that it got stuck |
| Calculations.DominatingSetGenerator.AddMostConnectedVertexFromCoveredVertices | src/main/java/graph/DominatingSetCalculations.java:192-201 | one round strictly grows the covered set without changing the final answer, or reports that it got stuck |
| Calculations.DominatingSetGenerator.ScanCoveredVertices | src/main/java/graph/DominatingSetCalculations.java:193-196 | the pick is the covered vertex with most uncovered neighbours, ties to the larger id |
| Calculations.DominatingSetGenerator.CompareToMostConnected | src/main/java/graph/DominatingSetCalculations.java:203-206 | the pick becomes the better of the kept one and this vertex scored by its uncovered neighbours |
| Calculations.DominatingSetGenerator.CountUncoveredNeighbors | src/main/java/graph/DominatingSetCalculations.java:207-219 | the count is the number of neighbours neither picked nor covered |
| Calculations.DominatingSetGenerator.DivertToUncoveredVertices | src/main/java/graph/DominatingSetCalculations.java:221-226 | the diversion and the loop it restarts end with the connected greedy's answer or report that it got stuck |
| Calculations.DominatingSetGenerator.FindMostConnectedUncoveredVertex | src/main/java/graph/DominatingSetCalculations.java:228-233 | the pick is the best uncovered vertex with a covered neighbour, and one is found exactly when such a vertex exists |
| Calculations.DominatingSetGenerator.ProcessUncoveredVertex | src/main/java/graph/DominatingSetCalculations.java:235-245 | a vertex is considered exactly when it is uncovered with a covered neighbour; only then can it replace the pick |
| Calculations.DominatingSetGenerator.EvaluateNeighbors | src/main/java/graph/DominatingSetCalculations.java:251-261 | it counts the unseen neighbours and raises the flag exactly when some neighbour is seen |
| Calculations.DominatingSetGenerator.ResetHasCoveredNeighborField | src/main/java/graph/DominatingSetCalculations.java:263-265 | the covered-neighbour flag is cleared |
| Calculations.Greedy | src/main/java/graph/DominatingSetCalculations.java:17-20 | the result fails exactly on a graph with a self-loop, and otherwise is a dominating set of vertex ids |
| Calculations.ConnectedGreedy | src/main/java/graph/DominatingSetCalculations.java:22-25 | any returned set dominates the graph and is built by growth from its first pick; on an undirected graph it induces a connected subgraph, and a non-empty connected undirected graph always gets one |
| Calculations.Verify | src/main/java/graph/DominatingSetCalculations.java:27-30 | the answer is true exactly when the set dominates the graph |
| Calculations.SetVerifier.constructor | src/main/java/graph/DominatingSetCalculations.java:273-277 | the verifier holds the set, the graph and a fresh empty scratch graph |
| Calculations.SetVerifier.VerifySet | src/main/java/graph/DominatingSetCalculations.java:280-283 | the answer is true exactly when the set dominates the original graph |
| Calculations.SetVerifier.BuildDominatingSetGraph | src/main/java/graph/DominatingSetCalculations.java:285-292 | the scratch graph's vertices are exactly the candidates and their neighbours in the original graph |
| Calculations.SetVerifier.AddNeighborsToDominatingSetGraph | src/main/java/graph/DominatingSetCalculations.java:294-300 | the scratch graph gains exactly the given neighbours |
| Calculations.SetVerifier.AddSelfToDominatingSetGraph | src/main/java/graph/DominatingSetCalculations.java:302-306 | the scratch graph gains the candidate |
| Calculations.SetVerifier.CompareGraphs | src/main/java/graph/DominatingSetCalculations.java:308-316 | true exactly when every original vertex is in the scratch graph |
| Verifier.Verify | src/main/java/graph/DominatingSetVerifier.java:14-33 | the check fails with InvalidVertex exactly when a candidate or a neighbour it carries is negative; otherwise it answers whether those ids include every vertex of the graph |
| Verifier.AddIds | src/main/java/graph/DominatingSetVerifier.java:17-21 | all ids are added to the scratch graph when all are natural; otherwise InvalidVertex |
| Verifier.AddId | src/main/java/graph/DominatingSetVerifier.java:18-20 | an absent id is added, a present one left alone; a negative one is refused with InvalidVertex |
| Verifier.CompareVertexSets | src/main/java/graph/DominatingSetVerifier.java:26-32 | true exactly when every original vertex was gathered |
| Verifier.RefusedIds | src/main/java/graph/DominatingSetVerifier.java:19-23 | a refused id is a negative id among the candidates and their neighbours |
| Verifier.VerifyOwnVertices | src/main/java/graph/DominatingSetVerifier.java:14-33 | given the graph's own vertices the check never refuses an id and answers exactly whether they dominate the graph |
| OriginalCalculations.ConnectedGreedyResultDominates | src/main/java/graph/OriginalDominatingSetCalculations.java:58-63 | a non-empty returned set dominates the graph; for undirected graphs one is returned exactly when the graph is non-empty and connected |
| OriginalCalculations.ConnectedGreedyResultConnected | src/main/java/graph/OriginalDominatingSetCalculations.java:58-63 | a non-empty result, on a directed graph too, induces a subgraph in which the first pick reaches every member, and is built by growth from that pick |
| OriginalCalculations.ConnectedGreedyNonempty | src/main/java/graph/OriginalDominatingSetCalculations.java:136-142 | on a non-empty graph a successful connected greedy returns a non-empty set |
| OriginalCalculations.StuckRound | src/main/java/graph/OriginalDominatingSetCalculations.java:159-165 | when no covered vertex has an uncovered neighbour the round re-adds a covered vertex and changes nothing, so the loop cannot finish |
| OriginalCalculations.DominatingSetGenerator.constructor | src/main/java/graph/OriginalDominatingSetCalculations.java:36-42 | the generator works on a fresh clone of the seed and starts with the placeholder pick and empty sets |
| OriginalCalculations.DominatingSetGenerator.GenerateGreedy | src/main/java/graph/OriginalDominatingSetCalculations.java:44-47 | the result is the greedy result of the seed graph, the same as the current generator's |
| OriginalCalculations.DominatingSetGenerator.GenerateConnectedGreedy | src/main/java/graph/OriginalDominatingSetCalculations.java:58-63 | an empty graph fails with EmptyGraph, an unconnected one gives the empty set, a connected one the connected greedy without diversion |
| OriginalCalculations.DominatingSetGenerator.GenerateUnconnectedGreedyDominatingSet | src/main/java/graph/OriginalDominatingSetCalculations.java:65-72 | the set left in the generator is exactly the greedy result, or the failure is the greedy's failure |
| OriginalCalculations.DominatingSetGenerator.RemoveEgonetsUntilEmpty | src/main/java/graph/OriginalDominatingSetCalculations.java:67-71 | the loop adds exactly the greedy set of the graph it started with |
| OriginalCalculations.DominatingSetGenerator.GreedyRoundStep | src/main/java/graph/OriginalDominatingSetCalculations.java:68-70 | one round adds the vertex with most neighbours and deletes its egonet from the working graph |
| OriginalCalculations.DominatingSetGenerator.AddEdgesFromVerticesToThemselves | src/main/java/graph/OriginalDominatingSetCalculations.java:74-78 | it succeeds exactly on a graph without self-loops, turning it into its self-looped copy; otherwise DuplicateEdge |
| OriginalCalculations.DominatingSetGenerator.FindMostConnectedVertex | src/main/java/graph/OriginalDominatingSetCalculations.java:80-85 | after the scan the pick is the vertex with most neighbours, ties to the larger id |
| OriginalCalculations.DominatingSetGenerator.ResetMostConnectedVertex | src/main/java/graph/OriginalDominatingSetCalculations.java:87-90 | the pick is reset to the placeholder with count 0 and id 0 |
| OriginalCalculations.DominatingSetGenerator.CompareToMostConnectedVertex | src/main/java/graph/OriginalDominatingSetCalculations.java:92-102 | the returned vertex and the recorded count are the better of the kept pick and this vertex |
| OriginalCalculations.DominatingSetGenerator.CompareValues | src/main/java/graph/OriginalDominatingSetCalculations.java:104-110 | the result is the larger of the two ids |
| OriginalCalculations.DominatingSetGenerator.AddMostConnectedVertexToDominatingSet | src/main/java/graph/OriginalDominatingSetCalculations.java:112-114 | the pick joins the dominating set |
| OriginalCalculations.DominatingSetGenerator.RemoveMostConnectedVertexEgonetFromSeed | src/main/java/graph/OriginalDominatingSetCalculations.java:116-119 | the working graph loses exactly the pick's neighbours |
| OriginalCalculations.DominatingSetGenerator.FindAllNeighborsOfMostConnected | src/main/java/graph/OriginalDominatingSetCalculations.java:121-127 | the returned ids are exactly the pick's neighbours |
| OriginalCalculations.DominatingSetGenerator.RemoveVertices | src/main/java/graph/OriginalDominatingSetCalculations.java:129-133 | the working graph becomes the graph without those vertices and without any reference to them |
| OriginalCalculations.DominatingSetGenerator.GenerateConnectedGreedyDominatingSet | src/main/java/graph/OriginalDominatingSetCalculations.java:136-142 | the set built is exactly the connected greedy's answer without diversion, or the loop is stuck |
| OriginalCalculations.DominatingSetGenerator.AddMostConnectedVertex | src/main/java/graph/OriginalDominatingSetCalculations.java:144-147 | the pick joins the dominating set and its egonet the covered set |
| OriginalCalculations.DominatingSetGenerator.AddMostConnectedVertexEgonetToCoveredVerticesSet | src/main/java/graph/OriginalDominatingSetCalculations.java:149-153 | the pick and its neighbours join the covered set |
| OriginalCalculations.DominatingSetGenerator.AllVerticesCovered | src/main/java/graph/OriginalDominatingSetCalculations.java:155-157 | the size test answers exactly whether every vertex is covered |
| OriginalCalculations.DominatingSetGenerator.AddMostConnectedVertexFromCoveredVertices | src/main/java/graph/OriginalDominatingSetCalculations.java:159-165 | the pick is always added; the round either strictly grows the covered set without changing the answer, or changes no covered vertex and the loop is stuck |
| OriginalCalculations.DominatingSetGenerator.ScanCoveredVertices | src/main/java/graph/OriginalDominatingSetCalculations.java:160-163 | the pick is the covered vertex with most uncovered neighbours, ties to the larger id |
| OriginalCalculations.DominatingSetGenerator.CompareToMostConnected | src/main/java/graph/OriginalDominatingSetCalculations.java:169-179 | the pick becomes the better of the kept one and this vertex scored by its uncovered neighbours |
| OriginalCalculations.DominatingSetGenerator.CountUncoveredNeighbors | src/main/java/graph/OriginalDominatingSetCalculations.java:181-189 | the count is the number of neighbours not covered |
| OriginalCalculations.DominatingSetGenerator.NeighborHasNotBeenSeen | src/main/java/graph/OriginalDominatingSetCalculations.java:193-195 | a neighbour is unseen exactly when it is not covered; while every pick is covered this is also "neither picked nor covered" |
| OriginalCalculations.Greedy | src/main/java/graph/OriginalDominatingSetCalculations.java:15-18 | the result fails exactly on a graph with a self-loop, and otherwise is a dominating set of vertex ids |
| OriginalCalculations.ConnectedGreedy | src/main/java/graph/OriginalDominatingSetCalculations.java:21-24 | a non-empty returned set dominates the graph and induces a connected subgraph grown from its first pick; on an undirected graph one is returned exactly when the graph is non-empty and connected |
| SimplerCalculations.UpdateRound | src/main/java/graph/SimplerSlowerDominatingSetCalculations.java:107-127 | one round takes an uncovered pick, keeps uncovered and covered apart, shrinks the uncovered set and leaves the final answer unchanged |
| SimplerCalculations.DominatingSetGenerator.constructor | src/main/java/graph/SimplerSlowerDominatingSetCalculations.java:38-45 | the generator reads the graph's neighbour sets, every vertex starts uncovered and the other sets start empty |
| SimplerCalculations.DominatingSetGenerator.GenerateGreedy | src/main/java/graph/SimplerSlowerDominatingSetCalculations.java:47-50 | the result is the uncovered-set greedy of the starting sets |
| SimplerCalculations.DominatingSetGenerator.GenerateUnconnectedGreedyDominatingSet | src/main/java/graph/SimplerSlowerDominatingSetCalculations.java:52-57 | the loop ends with nothing uncovered and the dominating set extended by exactly the uncovered-set greedy |
| SimplerCalculations.DominatingSetGenerator.GreedyRoundStep | src/main/java/graph/SimplerSlowerDominatingSetCalculations.java:54-55 | one round adds the uncovered vertex with most uncovered neighbours and moves its egonet from uncovered to covered |
| SimplerCalculations.DominatingSetGenerator.AddVerticesToUncoveredSet | src/main/java/graph/SimplerSlowerDominatingSetCalculations.java:59-61 | every vertex of the graph becomes uncovered |
| SimplerCalculations.DominatingSetGenerator.FindMostConnectedVertex | src/main/java/graph/SimplerSlowerDominatingSetCalculations.java:63-68 | the pick is the uncovered vertex with most uncovered neighbours, ties to the larger id |
| SimplerCalculations.DominatingSetGenerator.ResetMostConnectedVertex | src/main/java/graph/SimplerSlowerDominatingSetCalculations.java:70-73 | the pick is reset to the placeholder with count 0 and id 0 |
| SimplerCalculations.DominatingSetGenerator.CompareToMostConnectedVertex | src/main/java/graph/SimplerSlowerDominatingSetCalculations.java:75-85 | the pick becomes the better of the kept one and this vertex scored by its uncovered neighbours |
| SimplerCalculations.DominatingSetGenerator.CountUncoveredNeighbors | src/main/java/graph/SimplerSlowerDominatingSetCalculations.java:87-95 | the count is the number of neighbours not covered |
| SimplerCalculations.DominatingSetGenerator.NeighborHasNotBeenSeen | src/main/java/graph/SimplerSlowerDominatingSetCalculations.java:97-99 | a neighbour is unseen exactly when it is not covered; while every pick is covered this is also "neither picked nor covered" |
| SimplerCalculations.DominatingSetGenerator.CompareValueToMostConnectedVertex | src/main/java/graph/SimplerSlowerDominatingSetCalculations.java:101-105 | the pick becomes the larger of the kept id and this id |
| SimplerCalculations.DominatingSetGenerator.UpdateSets | src/main/java/graph/SimplerSlowerDominatingSetCalculations.java:107-111 | the pick joins the dominating set and its egonet moves from uncovered to covered |
| SimplerCalculations.DominatingSetGenerator.AddMostConnectedVertexToDominatingSet | src/main/java/graph/SimplerSlowerDominatingSetCalculations.java:113-115 | the pick joins the dominating set |
| SimplerCalculations.DominatingSetGenerator.AddMostConnectedVertexEgonetToCoveredVertices | src/main/java/graph/SimplerSlowerDominatingSetCalculations.java:117-120 | the pick and its neighbours join the covered set |
| SimplerCalculations.DominatingSetGenerator.RemoveMostConnectedVertexEgonetFromUncoveredVertices | src/main/java/graph/SimplerSlowerDominatingSetCalculations.java:122-127 | the pick and its neighbours leave the uncovered set |
| SimplerCalculations.Greedy | src/main/java/graph/SimplerSlowerDominatingSetCalculations.java:17-20 | the result is the uncovered-set greedy over all vertices, and it is a dominating set of vertex ids |

## Left out

- Edge weights (`Edge.weight`, `setWeight`, the three-argument constructor) are not modelled; no operation of the core reads them.
- `toString`, `hashCode` and exception messages are not modelled. Each exception becomes a `Fail`/`Failure` carrying an `Error` constructor named after the check that throws it.
- `Vertex` objects are folded into the neighbour-id sets of `Graph.vertices`. Vertex equality is by id in the source, so sets of ids hold the same information.
- The start vertex of the breadth-first search is the least id. The source takes the first entry of a `HashMap`, whose order this model does not capture.
- `GraphClonerFactory` and the `GraphCloner` interface are not modelled. They only dispatch on the graph's kind and reject `null`; the model's `GraphCloner` reads the kind from the seed's `directed` field.
- The `clone()` overrides inside `UndirectedGraph` and `DirectedGraph` are not modelled. They call `addVerticesToClone` and `addEdgesToClone`, and neither helper is defined in `Graph.java`. The model gives `clone()` the semantics of the cloner classes (`GraphCloner.Clone`).
- `Application.java` (a demonstration `main`) is not part of this model.
- The connected greedy of `SimplerSlowerDominatingSetCalculations` (lines 141-182) is not modelled. Its loop body only scans the covered vertices: `compareToMostConnected` is empty and nothing leaves the uncovered set. So on any graph with a vertex the loop never ends.
- Calculations.DominatingSetGenerator.DivertToUncoveredVertices: when no uncovered vertex has a covered neighbour, the source adds the placeholder vertex 0 to both the dominating and the covered set and recurses. The size test `coveredVertices.size() == graph.getVertexMap().size()` can then pass although a real vertex is still uncovered. Example: a directed graph with vertices 1 and 2 and self-loops 1->1 and 2->2. The first pick is 2, nothing can be diverted to, 0 is added, and the sizes match. The source then returns {0, 2}, which holds a non-vertex and does not dominate 1. The model reports every such case as `Failure(NoProgress)` instead of following the placeholder.
- Calculations.DominatingSetGenerator.GenerateConnectedGreedy: on an empty graph the source starts from the placeholder vertex 0. The covered set never matches the empty vertex map, so `divertToUncoveredVertices` and `loopOverCoveredVertices` (lines 182-186 and 221-226) call each other until the stack overflows (`StackOverflowError`). The model reports `Failure(NoProgress)`.
- OriginalCalculations.DominatingSetGenerator.GenerateConnectedGreedyDominatingSet: when a round finds no covered vertex with an uncovered neighbour, the source repeats that round forever. The model stops and reports `Failure(NoProgress)`, after proving (`StuckRound`) that such a round changes nothing.
- Calculations.Verify: requires every candidate to be a vertex of the graph. The source looks up a missing vertex, gets null and crashes on it; the model does not represent that crash.
- Calculations.SetVerifier.VerifySet: has the same requirement as `Calculations.Verify`, for the same reason.
- Calculations.ConnectedGreedy: on a directed graph it states only that the result is built by growth, with each pick lying in or next to the covered part. It does not state that the result induces a connected subgraph, because that is false after a diversion: `DivertExampleResult` shows the generator returning {1, 3} on the graph 1->2, 3->2.
- `OriginalCalculations.DominatingSetGenerator.NeighborHasNotBeenSeen` and `SimplerCalculations.DominatingSetGenerator.NeighborHasNotBeenSeen` look up an `Integer` in a `Set<Vertex>`. That lookup can never match, so the model tests only the covered set. Every pick is also covered, so the answer is the same.
- The `found` and `considered` results of `FindMostConnectedUncoveredVertex` and `ProcessUncoveredVertex` are added by the model so that the contracts can speak of them; in the source those methods return nothing.
- `SimplerCalculations.DominatingSetGenerator` keeps the graph's neighbour sets as a constant map. The source only reads the graph, so nothing it does is lost.
- Vertex ids and counts are Java `int`; the model uses unbounded integers. No core operation does arithmetic on ids beyond comparison, and every count is at most the number of vertices, so no wrap-around can occur.
- Concurrency and the shared static `generator` and `verifier` fields are not modelled. Each call builds its own generator.
