/** The legacy generator, kept beside the current one for speed comparison. Its greedy is
    the current greedy step for step; its connected greedy runs only on a graph that a
    search finds connected, and never diverts: when no covered vertex has an uncovered
    neighbour it repeats the same round forever, which the model reports as no progress. */
module OriginalCalculations {
  import opened Paths
  import opened Graphs
  import opened Selection
  import opened Domination
  import opened Cloning
  import Calculations

  /** What the legacy connected greedy returns: the search of an empty graph is refused,
      a graph the search finds disconnected gets the empty set, any other graph the
      connected greedy without diversion. */
  ghost function ConnectedGreedyResult(adj: map<int, set<int>>): Result<set<int>>
    requires Ready(adj)
  {
    if adj == map[] then Failure(EmptyGraph)
    else if !AllReachableFrom(adj, Least(adj.Keys)) then Success({})
    else ConnectedGreedySpec(adj, false)
  }

  /** A nonempty set from the legacy connected greedy dominates the graph, and an
      undirected graph gets one exactly when it is nonempty and connected. */
  lemma ConnectedGreedyResultDominates(directed: bool, adj: map<int, set<int>>)
    requires Ready(adj) && (!directed ==> Symmetric(adj))
    ensures ConnectedGreedyResult(adj).Success? && ConnectedGreedyResult(adj).value != {} ==>
      ConnectedGreedyResult(adj).value <= adj.Keys && Dominates(adj, ConnectedGreedyResult(adj).value)
    ensures !directed ==>
      (ConnectedGreedyResult(adj).Success? && ConnectedGreedyResult(adj).value != {} <==>
       adj != map[] && AllReachableFrom(adj, Least(adj.Keys)))
  {
    ConnectedGreedyDominates(adj, false);
    if adj != map[] && AllReachableFrom(adj, Least(adj.Keys)) {
      ConnectedGreedyNonempty(adj);
      if !directed {
        ConnectedGreedySucceeds(adj, false);
      }
    }
  }

  /** A nonempty set from the legacy connected greedy, on any graph, induces a subgraph in
      which the first pick reaches every member, and is built by growth from that pick:
      without diversion each pick is a neighbour of an earlier one. */
  lemma ConnectedGreedyResultConnected(adj: map<int, set<int>>)
    requires Ready(adj)
    ensures ConnectedGreedyResult(adj).Success? && ConnectedGreedyResult(adj).value != {} ==>
      InducesConnected(adj, ConnectedGreedyResult(adj).value) && BuiltByGrowth(adj, ConnectedGreedyResult(adj).value)
  {
    ConnectedGreedyConnected(adj, false);
  }

  /** The connected greedy never returns an empty set: its first pick stays in it. */
  lemma ConnectedGreedyNonempty(adj: map<int, set<int>>)
    requires Ready(adj) && adj != map[]
    ensures ConnectedGreedySpec(adj, false).Success? ==> ConnectedGreedySpec(adj, false).value != {}
  {
    var p := DegreePick(adj);
    NeighborsWithin(adj, p);
    ConnectedFromGrows(adj, {p}, adj[p] + {p}, false);
  }

  /** A round that makes no progress: the best covered vertex has no uncovered
      neighbour, so adding it changes no covered vertex, and the next round is the same. */
  lemma StuckRound(adj: map<int, set<int>>, D: set<int>, C: set<int>)
    requires Ready(adj) && C <= adj.Keys && C != adj.Keys && C != {}
    requires MostConnected(UnseenCounts(adj, C), C).count == 0
    ensures MostConnected(UnseenCounts(adj, C), C).id in C
    ensures C + adj[MostConnected(UnseenCounts(adj, C), C).id] + {MostConnected(UnseenCounts(adj, C), C).id} == C
    ensures ConnectedFrom(adj, D, C, false) == Failure(NoProgress)
  {
    var scores := UnseenCounts(adj, C);
    MostConnectedIsScanned(scores, C);
    var p := MostConnected(scores, C).id;
    assert |adj[p] - C| == 0;
    assert adj[p] - C == {};
    Absorbed(C, adj[p], p);
    assert NextPick(adj, C, false) == Failure(NoProgress);
  }

  lemma Absorbed(C: set<int>, N: set<int>, p: int)
    requires N - C == {} && p in C
    ensures C + N + {p} == C
  {
    forall x | x in N
      ensures x in C
    {
      assert x !in N - C;
    }
    assert C + N + {p} == C;
  }

  class DominatingSetGenerator {
    /** the generator's own clone of the seed graph */
    const graph: Graph
    var largestOutDegree: int
    /** the id of the current pick; 0 is the placeholder Vertex(0) */
    var mostConnectedVertex: int
    var dominatingSet: set<int>
    var coveredVertices: set<int>

    constructor (seed: Graph)
      requires seed.Valid()
      ensures fresh(graph) && graph.Valid() && graph.directed == seed.directed
      ensures graph.vertices == seed.vertices && graph.E == seed.E
      ensures largestOutDegree == 0 && mostConnectedVertex == 0
      ensures dominatingSet == {} && coveredVertices == {}
    {
      var cloner := new GraphCloner(seed);
      var clone := cloner.Clone();
      graph := clone;
      largestOutDegree := 0;
      mostConnectedVertex := 0;
      dominatingSet := {};
      coveredVertices := {};
    }

    /** generateGreedy */
    method GenerateGreedy() returns (r: Result<set<int>>)
      requires graph.Valid() && dominatingSet == {}
      modifies this, graph
      ensures Ready(old(graph.vertices))
      ensures r == GreedyResult(old(graph.vertices))
    {
      ghost var V0 := graph.vertices;
      graph.NeighborsAreIds();
      assert Ready(V0);
      var o := GenerateUnconnectedGreedyDominatingSet();
      if o.Fail? {
        return Failure(o.error);
      }
      return Success(dominatingSet);
    }

    /** generateConnectedGreedy: the connected greedy runs only when the clone is
        connected; otherwise the dominating set stays empty. */
    method GenerateConnectedGreedy() returns (r: Result<set<int>>)
      requires graph.Valid() && dominatingSet == {} && coveredVertices == {}
      modifies this
      ensures Ready(graph.vertices)
      ensures r == ConnectedGreedyResult(graph.vertices)
    {
      graph.NeighborsAreIds();
      var connected := graph.IsConnected();
      if connected.Failure? {
        return Failure(connected.error);
      }
      if connected.value {
        var ok := GenerateConnectedGreedyDominatingSet();
        if !ok {
          return Failure(NoProgress);
        }
      }
      return Success(dominatingSet);
    }

    /** generateUnconnectedGreedyDominatingSet: self-loops first, then rounds of pick and
        delete until the graph is empty. */
    method GenerateUnconnectedGreedyDominatingSet() returns (o: Outcome)
      requires graph.Valid() && Ready(graph.vertices) && dominatingSet == {}
      modifies this, graph
      ensures o.Fail? ==> GreedyResult(old(graph.vertices)) == Failure(o.error)
      ensures o.Ok? ==> GreedyResult(old(graph.vertices)) == Success(dominatingSet)
    {
      ghost var V0 := graph.vertices;
      o := AddEdgesFromVerticesToThemselves();
      if o.Fail? {
        return;
      }
      SelfLoopsReady(V0);
      RemoveEgonetsUntilEmpty();
    }

    /** The main loop of generateUnconnectedGreedyDominatingSet. */
    method RemoveEgonetsUntilEmpty()
      requires graph.Valid() && Ready(graph.vertices) && SelfLooped(graph.vertices)
      modifies this, graph
      ensures dominatingSet == old(dominatingSet) + GreedySpec(old(graph.vertices))
    {
      ghost var L, D0 := graph.vertices, dominatingSet;
      while graph.vertices != map[]
        invariant graph.Valid() && Ready(graph.vertices) && SelfLooped(graph.vertices)
        invariant dominatingSet + GreedySpec(graph.vertices) == D0 + GreedySpec(L)
        decreases |graph.vertices.Keys|
      {
        ghost var A, D := graph.vertices, dominatingSet;
        var p := GreedyRoundStep();
        Calculations.GreedyRound(A, D, p, dominatingSet, graph.vertices);
      }
    }

    /** One round of the greedy loop: find, add, remove the egonet. */
    method GreedyRoundStep() returns (p: int)
      requires graph.Valid() && Ready(graph.vertices) && graph.vertices != map[]
      modifies this, graph
      ensures graph.Valid()
      ensures p == MostConnected(Degrees(old(graph.vertices)), old(graph.vertices).Keys).id && p in old(graph.vertices)
      ensures dominatingSet == old(dominatingSet) + {p}
      ensures graph.vertices == Domination.RemoveVertices(old(graph.vertices), old(graph.vertices)[p])
    {
      ghost var A := graph.vertices;
      FindMostConnectedVertex();
      Calculations.GreedyPickIn(A, mostConnectedVertex);
      AddMostConnectedVertexToDominatingSet();
      p := mostConnectedVertex;
      RemoveMostConnectedVertexEgonetFromSeed();
    }

    /** addEdgesFromVerticesToThemselves: edge (i, i) at every vertex; the graph store
        refuses it as a duplicate at a vertex that already has a self-loop. */
    method AddEdgesFromVerticesToThemselves() returns (o: Outcome)
      requires graph.Valid()
      modifies graph
      ensures graph.Valid() && graph.vertices.Keys == old(graph.vertices.Keys)
      ensures o.Ok? <==> SelfLoopFree(old(graph.vertices))
      ensures o.Ok? ==> graph.vertices == WithSelfLoops(old(graph.vertices))
      ensures o.Fail? ==> o.error == DuplicateEdge
    {
      ghost var V0 := graph.vertices;
      var rest := graph.vertices.Keys;
      while rest != {}
        invariant graph.Valid() && rest <= V0.Keys
        invariant Calculations.LoopsAdded(V0, graph.vertices, V0.Keys - rest)
        decreases |rest|
      {
        ghost var g := PickOne(rest);
        var i :| i in rest;
        ghost var V := graph.vertices;
        o := Calculations.DominatingSetGenerator.AddSelfLoop(graph, i);
        if o.Fail? {
          Calculations.LoopsAddedFails(V0, V, V0.Keys - rest, i);
          return;
        }
        Calculations.LoopsAddedStep(V0, V, V0.Keys - rest, i);
        Scanned(V0.Keys, rest, i);
        rest := rest - {i};
      }
      o := Ok;
      Calculations.LoopsAddedAll(V0, graph.vertices);
    }

    /** findMostConnectedVertex: a scan over every vertex by neighbour count. */
    method FindMostConnectedVertex()
      modifies this`largestOutDegree, this`mostConnectedVertex
      ensures Pick(largestOutDegree, mostConnectedVertex) == MostConnected(Degrees(graph.vertices), graph.vertices.Keys)
    {
      ghost var scores, S := Degrees(graph.vertices), graph.vertices.Keys;
      ResetMostConnectedVertex();
      NothingScanned(scores);
      var rest := graph.vertices.Keys;
      while rest != {}
        invariant rest <= S
        invariant IsMostConnected(scores, S - rest, Pick(largestOutDegree, mostConnectedVertex))
        decreases |rest|
      {
        ghost var g := PickOne(rest);
        var currentVertex :| currentVertex in rest;
        UpdateKeepsMostConnected(scores, S - rest, Pick(largestOutDegree, mostConnectedVertex), currentVertex);
        mostConnectedVertex := CompareToMostConnectedVertex(currentVertex);
        Scanned(S, rest, currentVertex);
        rest := rest - {currentVertex};
      }
      ScanIsMostConnected(scores, S, Pick(largestOutDegree, mostConnectedVertex));
    }

    /** resetMostConnectedVertex: back to count 0 and the placeholder Vertex(0). */
    method ResetMostConnectedVertex()
      modifies this`largestOutDegree, this`mostConnectedVertex
      ensures largestOutDegree == 0 && mostConnectedVertex == 0
    {
      largestOutDegree := 0;
      mostConnectedVertex := 0;
    }

    /** compareToMostConnectedVertex: a larger neighbour count wins and becomes the
        largest count, an equal count goes to the larger id; the winner is returned. */
    method CompareToMostConnectedVertex(currentVertex: int) returns (r: int)
      requires currentVertex in graph.vertices
      modifies this`largestOutDegree
      ensures Pick(largestOutDegree, r) ==
        Update(Pick(old(largestOutDegree), mostConnectedVertex), |graph.vertices[currentVertex]|, currentVertex)
    {
      var currentVertexOutDegree := |graph.vertices[currentVertex]|;
      if currentVertexOutDegree > largestOutDegree {
        largestOutDegree := currentVertexOutDegree;
        return currentVertex;
      } else if currentVertexOutDegree == largestOutDegree {
        return CompareValues(mostConnectedVertex, currentVertex);
      } else {
        return mostConnectedVertex;
      }
    }

    /** compareValues: the larger of the two ids. */
    static function CompareValues(mostConnectedVertex: int, currentVertex: int): (r: int)
      ensures r == currentVertex || r == mostConnectedVertex
      ensures r >= currentVertex && r >= mostConnectedVertex
    {
      if currentVertex > mostConnectedVertex then currentVertex else mostConnectedVertex
    }

    method AddMostConnectedVertexToDominatingSet()
      modifies this`dominatingSet
      ensures dominatingSet == old(dominatingSet) + {mostConnectedVertex}
    {
      dominatingSet := dominatingSet + {mostConnectedVertex};
    }

    /** removeMostConnectedVertexEgonetFromSeed: the pick's neighbour set is copied, then
        each of those vertices is removed from the graph. */
    method RemoveMostConnectedVertexEgonetFromSeed()
      requires graph.Valid() && mostConnectedVertex in graph.vertices
      requires graph.vertices[mostConnectedVertex] <= graph.vertices.Keys
      modifies graph
      ensures graph.Valid()
      ensures graph.vertices == Domination.RemoveVertices(old(graph.vertices), old(graph.vertices)[mostConnectedVertex])
    {
      var verticesToRemove := FindAllNeighborsOfMostConnected();
      RemoveVertices(verticesToRemove);
    }

    /** findAllNeighborsOfMostConnected: a copy of the pick's neighbour ids. */
    method FindAllNeighborsOfMostConnected() returns (verticesToRemove: set<int>)
      requires mostConnectedVertex in graph.vertices
      ensures verticesToRemove == graph.vertices[mostConnectedVertex]
    {
      verticesToRemove := {};
      var rest := graph.vertices[mostConnectedVertex];
      while rest != {}
        invariant rest <= graph.vertices[mostConnectedVertex]
        invariant verticesToRemove == graph.vertices[mostConnectedVertex] - rest
        decreases |rest|
      {
        ghost var g := PickOne(rest);
        var neighbor :| neighbor in rest;
        verticesToRemove := verticesToRemove + {neighbor};
        rest := rest - {neighbor};
      }
    }

    /** removeVertices: each id leaves the graph with its edges. */
    method RemoveVertices(verticesToRemove: set<int>)
      requires graph.Valid() && verticesToRemove <= graph.vertices.Keys
      modifies graph
      ensures graph.Valid()
      ensures graph.vertices == Domination.RemoveVertices(old(graph.vertices), verticesToRemove)
    {
      ghost var V0 := graph.vertices;
      var rest := verticesToRemove;
      assert verticesToRemove - rest == {};
      assert graph.vertices == Domination.RemoveVertices(V0, {}) by {
        assert forall u :: u in V0 ==> V0[u] - {} == V0[u];
      }
      while rest != {}
        invariant graph.Valid() && rest <= verticesToRemove
        invariant graph.vertices == Domination.RemoveVertices(V0, verticesToRemove - rest)
        decreases |rest|
      {
        ghost var g := PickOne(rest);
        var i :| i in rest;
        ghost var A := graph.vertices;
        assert i in A;
        var _ := graph.RemoveVertex(i);
        Calculations.RemoveOneVertex(A, i);
        RemoveOneMore(V0, verticesToRemove - rest, i);
        Scanned(verticesToRemove, rest, i);
        rest := rest - {i};
      }
      assert verticesToRemove - rest == verticesToRemove;
    }

    /** generateConnectedGreedyDominatingSet: the vertex with the most neighbours starts
        the covered set, then rounds over the covered set run until every vertex is
        covered. A round that adds no covered vertex would repeat forever; the model stops
        there. */
    method GenerateConnectedGreedyDominatingSet() returns (ok: bool)
      requires Ready(graph.vertices) && graph.vertices != map[] && dominatingSet == {} && coveredVertices == {}
      modifies this
      ensures ok ==> ConnectedGreedySpec(graph.vertices, false) == Success(dominatingSet)
      ensures !ok ==> ConnectedGreedySpec(graph.vertices, false) == Failure(NoProgress)
    {
      ghost var adj := graph.vertices;
      FindMostConnectedVertex();
      ghost var p := mostConnectedVertex;
      assert p == DegreePick(adj);
      NeighborsWithin(adj, p);
      AddMostConnectedVertex();
      assert dominatingSet == {p} && coveredVertices == adj[p] + {p};
      while !AllVerticesCovered()
        invariant coveredVertices <= adj.Keys && dominatingSet <= coveredVertices
        invariant mostConnectedVertex in dominatingSet
        invariant ConnectedFrom(adj, dominatingSet, coveredVertices, false) == ConnectedGreedySpec(adj, false)
        decreases |adj.Keys - coveredVertices|
      {
        var progress := AddMostConnectedVertexFromCoveredVertices();
        if !progress {
          return false;
        }
      }
      return true;
    }

    /** addMostConnectedVertex: the pick joins the dominating set and its egonet joins the
        covered set. */
    method AddMostConnectedVertex()
      requires mostConnectedVertex in graph.vertices
      modifies this`dominatingSet, this`coveredVertices
      ensures dominatingSet == old(dominatingSet) + {mostConnectedVertex}
      ensures coveredVertices == old(coveredVertices) + graph.vertices[mostConnectedVertex] + {mostConnectedVertex}
    {
      AddMostConnectedVertexToDominatingSet();
      AddMostConnectedVertexEgonetToCoveredVerticesSet();
    }

    method AddMostConnectedVertexEgonetToCoveredVerticesSet()
      requires mostConnectedVertex in graph.vertices
      modifies this`coveredVertices
      ensures coveredVertices == old(coveredVertices) + graph.vertices[mostConnectedVertex] + {mostConnectedVertex}
    {
      coveredVertices := coveredVertices + graph.vertices[mostConnectedVertex];
      coveredVertices := coveredVertices + {mostConnectedVertex};
    }

    /** allVerticesCovered: the covered set is as large as the vertex set. */
    function AllVerticesCovered(): (b: bool)
      requires coveredVertices <= graph.vertices.Keys
      reads this, graph
      ensures b <==> coveredVertices == graph.vertices.Keys
    {
      Calculations.CoveredCount(graph.vertices, coveredVertices);
      |coveredVertices| == |graph.vertices|
    }

    /** addMostConnectedVertexFromCoveredVertices: the covered vertex with the most
        uncovered neighbours is added. progress tells whether it had any; without, the
        round changes no covered vertex and the next one is the same. */
    method AddMostConnectedVertexFromCoveredVertices() returns (progress: bool)
      requires Ready(graph.vertices) && coveredVertices <= graph.vertices.Keys && dominatingSet <= coveredVertices
      requires coveredVertices != graph.vertices.Keys && coveredVertices != {}
      modifies this`largestOutDegree, this`mostConnectedVertex, this`dominatingSet, this`coveredVertices
      ensures coveredVertices <= graph.vertices.Keys && dominatingSet <= coveredVertices
      ensures mostConnectedVertex in dominatingSet
      ensures progress ==> |graph.vertices.Keys - coveredVertices| < |graph.vertices.Keys - old(coveredVertices)|
      ensures progress ==>
        ConnectedFrom(graph.vertices, dominatingSet, coveredVertices, false) ==
        ConnectedFrom(graph.vertices, old(dominatingSet), old(coveredVertices), false)
      ensures !progress ==> coveredVertices == old(coveredVertices)
      ensures !progress ==> ConnectedFrom(graph.vertices, old(dominatingSet), old(coveredVertices), false) == Failure(NoProgress)
    {
      ghost var adj, D0, C0 := graph.vertices, dominatingSet, coveredVertices;
      ScanCoveredVertices();
      ghost var p := mostConnectedVertex;
      if largestOutDegree == 0 {
        StuckRound(adj, D0, C0);
        progress := false;
      } else {
        PositiveIsScanned(UnseenCounts(adj, C0), C0);
        assert NextPick(adj, C0, false) == Success(p);
        ConnectedRound(adj, D0, C0, p, false);
        progress := true;
      }
      AddMostConnectedVertex();
    }

    /** The loop of addMostConnectedVertexFromCoveredVertices: every covered vertex, by
        its uncovered neighbours. */
    method ScanCoveredVertices()
      requires Ready(graph.vertices) && coveredVertices <= graph.vertices.Keys
      modifies this`largestOutDegree, this`mostConnectedVertex
      ensures Pick(largestOutDegree, mostConnectedVertex) ==
        MostConnected(UnseenCounts(graph.vertices, coveredVertices), coveredVertices)
    {
      ghost var adj, C := graph.vertices, coveredVertices;
      ghost var scores := UnseenCounts(adj, C);
      ResetMostConnectedVertex();
      NothingScanned(scores);
      var rest := coveredVertices;
      while rest != {}
        invariant rest <= C && coveredVertices == C
        invariant IsMostConnected(scores, C - rest, Pick(largestOutDegree, mostConnectedVertex))
        decreases |rest|
      {
        ghost var g := PickOne(rest);
        var currentVertex :| currentVertex in rest;
        Calculations.ScoreStep(adj, C, C - rest, Pick(largestOutDegree, mostConnectedVertex), currentVertex);
        CompareToMostConnected(currentVertex);
        Scanned(C, rest, currentVertex);
        rest := rest - {currentVertex};
      }
      ScanIsMostConnected(scores, C, Pick(largestOutDegree, mostConnectedVertex));
    }

    /** compareToMostConnected: a strictly larger current count keeps the best, a strictly
        larger uncovered count takes over, an equal count goes to the larger id. */
    method CompareToMostConnected(currentVertex: int)
      requires currentVertex in graph.vertices
      modifies this`largestOutDegree, this`mostConnectedVertex
      ensures Pick(largestOutDegree, mostConnectedVertex) ==
        Update(old(Pick(largestOutDegree, mostConnectedVertex)), |graph.vertices[currentVertex] - coveredVertices|, currentVertex)
    {
      var outDegreeCount := CountUncoveredNeighbors(currentVertex);
      if largestOutDegree > outDegreeCount {
        return;
      } else if outDegreeCount > largestOutDegree {
        largestOutDegree := outDegreeCount;
        mostConnectedVertex := currentVertex;
      } else if currentVertex > mostConnectedVertex {
        mostConnectedVertex := currentVertex;
      }
    }

    /** countUncoveredNeighbors: the neighbours that have not been seen. */
    method CountUncoveredNeighbors(vertex: int) returns (outDegreeCount: nat)
      requires vertex in graph.vertices
      ensures outDegreeCount == |graph.vertices[vertex] - coveredVertices|
    {
      ghost var N, seen := graph.vertices[vertex], coveredVertices;
      outDegreeCount := 0;
      var rest := graph.vertices[vertex];
      while rest != {}
        invariant rest <= N && coveredVertices == seen
        invariant outDegreeCount == |(N - rest) - seen|
        decreases |rest|
      {
        ghost var g := PickOne(rest);
        var neighbor :| neighbor in rest;
        Calculations.CountStep(N, rest, seen, neighbor);
        if NeighborHasNotBeenSeen(neighbor) {
          outDegreeCount := outDegreeCount + 1;
        }
        rest := rest - {neighbor};
      }
    }

    /** neighborHasNotBeenSeen: the source also looks the neighbour's Integer id up in the
        set of dominating Vertex objects, a lookup no Integer ever satisfies, so only the
        covered set decides. Since the dominating set lies inside the covered set, this is
        the test the generator means: in neither set. */
    function NeighborHasNotBeenSeen(neighbor: int): (b: bool)
      reads this
      ensures b <==> neighbor !in coveredVertices
      ensures dominatingSet <= coveredVertices ==> (b <==> !(neighbor in dominatingSet || neighbor in coveredVertices))
    {
      neighbor !in coveredVertices
    }
  }

  /** greedy: a fresh legacy generator on a clone of the graph. */
  method Greedy(graph: Graph) returns (r: Result<set<int>>)
    requires graph.Valid()
    ensures Ready(graph.vertices) && r == GreedyResult(graph.vertices)
    ensures r.Failure? <==> !SelfLoopFree(graph.vertices)
    ensures r.Success? ==> r.value <= graph.vertices.Keys && Dominates(graph.vertices, r.value)
  {
    var generator := new DominatingSetGenerator(graph);
    r := generator.GenerateGreedy();
    GreedyResultDominates(graph.vertices);
  }

  /** connectedGreedy: a fresh legacy generator on a clone of the graph. A nonempty result
      dominates the graph and induces a connected subgraph; on an undirected graph it comes
      exactly when the graph is nonempty and connected. */
  method ConnectedGreedy(graph: Graph) returns (r: Result<set<int>>)
    requires graph.Valid()
    ensures Ready(graph.vertices) && r == ConnectedGreedyResult(graph.vertices)
    ensures r.Success? && r.value != {} ==> r.value <= graph.vertices.Keys && Dominates(graph.vertices, r.value)
    ensures !graph.directed ==>
      (r.Success? && r.value != {} <==> graph.vertices != map[] && AllReachableFrom(graph.vertices, Least(graph.vertices.Keys)))
    ensures r.Success? && r.value != {} ==>
      InducesConnected(graph.vertices, r.value) && BuiltByGrowth(graph.vertices, r.value)
  {
    var generator := new DominatingSetGenerator(graph);
    r := generator.GenerateConnectedGreedy();
    if !graph.directed {
      graph.UndirectedIsSymmetric();
    }
    ConnectedGreedyResultDominates(graph.directed, graph.vertices);
    ConnectedGreedyResultConnected(graph.vertices);
  }
}
