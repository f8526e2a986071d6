/** The legacy generator that works on the caller's graph without cloning it: the graph
    is only read, and the greedy moves vertices from an uncovered set to a covered set,
    scoring each uncovered vertex by its neighbours that are not yet covered. */
module SimplerCalculations {
  import opened Paths
  import opened Graphs
  import opened Selection
  import opened Domination
  import Calculations

  /** The covered and uncovered sets stay apart, and the uncovered ones are vertices. */
  ghost predicate Partitioned(adj: map<int, set<int>>, uncovered: set<int>, covered: set<int>)
  {
    uncovered <= adj.Keys && uncovered * covered == {}
  }

  /** One round of the greedy keeps the sets apart and moves the result forward by the
      pick. */
  lemma UpdateRound(adj: map<int, set<int>>, U: set<int>, C: set<int>, D: set<int>, S: set<int>, p: int)
    requires Ready(adj) && Partitioned(adj, U, C) && U != {}
    requires p == MostConnected(UnseenCounts(adj, C), U).id
    requires D + CoverGreedy(adj, U, C) == S
    ensures p in U && p in adj
    ensures Partitioned(adj, U - ({p} + adj[p]), C + {p} + adj[p])
    ensures |U - ({p} + adj[p])| < |U|
    ensures D + {p} + CoverGreedy(adj, U - ({p} + adj[p]), C + {p} + adj[p]) == S
  {
    MostConnectedIsScanned(UnseenCounts(adj, C), U);
    FewerKeys(U, {p} + adj[p], p);
  }

  class DominatingSetGenerator {
    /** each vertex's neighbour ids, as the Vertex objects in the sets carry them */
    const neighbors: map<int, set<int>>
    var largestOutDegree: int
    /** the id of the current pick; 0 is the placeholder Vertex(0) */
    var mostConnectedVertex: int
    var uncoveredVertices: set<int>
    var coveredVertices: set<int>
    var dominatingSet: set<int>

    /** Every vertex of the graph starts uncovered. */
    constructor (graph: Graph)
      requires graph.Valid()
      ensures neighbors == graph.vertices && Ready(neighbors)
      ensures largestOutDegree == 0 && mostConnectedVertex == 0
      ensures uncoveredVertices == graph.vertices.Keys && coveredVertices == {} && dominatingSet == {}
    {
      graph.NeighborsAreIds();
      neighbors := graph.vertices;
      largestOutDegree := 0;
      mostConnectedVertex := 0;
      uncoveredVertices := {};
      coveredVertices := {};
      dominatingSet := {};
      new;
      AddVerticesToUncoveredSet(graph);
    }

    /** generateGreedy */
    method GenerateGreedy() returns (r: set<int>)
      requires Ready(neighbors) && Partitioned(neighbors, uncoveredVertices, coveredVertices)
      modifies this
      ensures r == old(dominatingSet) + CoverGreedy(neighbors, old(uncoveredVertices), old(coveredVertices))
    {
      GenerateUnconnectedGreedyDominatingSet();
      return dominatingSet;
    }

    /** generateUnconnectedGreedyDominatingSet: rounds of pick and update until no vertex
        is uncovered. */
    method GenerateUnconnectedGreedyDominatingSet()
      requires Ready(neighbors) && Partitioned(neighbors, uncoveredVertices, coveredVertices)
      modifies this
      ensures uncoveredVertices == {}
      ensures dominatingSet == old(dominatingSet) + CoverGreedy(neighbors, old(uncoveredVertices), old(coveredVertices))
    {
      ghost var S := dominatingSet + CoverGreedy(neighbors, uncoveredVertices, coveredVertices);
      while uncoveredVertices != {}
        invariant Partitioned(neighbors, uncoveredVertices, coveredVertices)
        invariant dominatingSet + CoverGreedy(neighbors, uncoveredVertices, coveredVertices) == S
        decreases |uncoveredVertices|
      {
        ghost var U, C, D := uncoveredVertices, coveredVertices, dominatingSet;
        ghost var p := GreedyRoundStep();
        UpdateRound(neighbors, U, C, D, S, p);
      }
    }

    /** One round of the loop: find the pick, then update the three sets. */
    method GreedyRoundStep() returns (ghost p: int)
      requires Ready(neighbors) && Partitioned(neighbors, uncoveredVertices, coveredVertices) && uncoveredVertices != {}
      modifies this
      ensures p == MostConnected(UnseenCounts(neighbors, old(coveredVertices)), old(uncoveredVertices)).id && p in neighbors
      ensures dominatingSet == old(dominatingSet) + {p}
      ensures coveredVertices == old(coveredVertices) + {p} + neighbors[p]
      ensures uncoveredVertices == old(uncoveredVertices) - ({p} + neighbors[p])
    {
      FindMostConnectedVertex();
      MostConnectedIsScanned(UnseenCounts(neighbors, coveredVertices), uncoveredVertices);
      p := mostConnectedVertex;
      UpdateSets();
    }

    /** addVerticesToUncoveredSet */
    method AddVerticesToUncoveredSet(graph: Graph)
      modifies this`uncoveredVertices
      ensures uncoveredVertices == old(uncoveredVertices) + graph.vertices.Keys
    {
      uncoveredVertices := uncoveredVertices + graph.vertices.Keys;
    }

    /** findMostConnectedVertex: a scan over the uncovered vertices by neighbours not yet
        covered. */
    method FindMostConnectedVertex()
      requires uncoveredVertices <= neighbors.Keys
      modifies this`largestOutDegree, this`mostConnectedVertex
      ensures Pick(largestOutDegree, mostConnectedVertex) ==
        MostConnected(UnseenCounts(neighbors, coveredVertices), uncoveredVertices)
    {
      ghost var U, C := uncoveredVertices, coveredVertices;
      ghost var scores := UnseenCounts(neighbors, C);
      ResetMostConnectedVertex();
      NothingScanned(scores);
      var rest := uncoveredVertices;
      while rest != {}
        invariant rest <= U && uncoveredVertices == U && coveredVertices == C
        invariant IsMostConnected(scores, U - rest, Pick(largestOutDegree, mostConnectedVertex))
        decreases |rest|
      {
        ghost var g := PickOne(rest);
        var currentVertex :| currentVertex in rest;
        Calculations.ScoreStep(neighbors, C, U - rest, Pick(largestOutDegree, mostConnectedVertex), currentVertex);
        CompareToMostConnectedVertex(currentVertex);
        Scanned(U, rest, currentVertex);
        rest := rest - {currentVertex};
      }
      ScanIsMostConnected(scores, U, Pick(largestOutDegree, mostConnectedVertex));
    }

    /** resetMostConnectedVertex: back to count 0 and the placeholder Vertex(0). */
    method ResetMostConnectedVertex()
      modifies this`largestOutDegree, this`mostConnectedVertex
      ensures largestOutDegree == 0 && mostConnectedVertex == 0
    {
      largestOutDegree := 0;
      mostConnectedVertex := 0;
    }

    /** compareToMostConnectedVertex: a strictly larger current count keeps the best, a
        strictly larger count takes over, an equal count goes to the larger id. */
    method CompareToMostConnectedVertex(currentVertex: int)
      requires currentVertex in neighbors
      modifies this`largestOutDegree, this`mostConnectedVertex
      ensures Pick(largestOutDegree, mostConnectedVertex) ==
        Update(old(Pick(largestOutDegree, mostConnectedVertex)), |neighbors[currentVertex] - coveredVertices|, currentVertex)
    {
      var currentVertexOutDegree := CountUncoveredNeighbors(currentVertex);
      if largestOutDegree > currentVertexOutDegree {
        return;
      } else if currentVertexOutDegree > largestOutDegree {
        largestOutDegree := currentVertexOutDegree;
        mostConnectedVertex := currentVertex;
      } else {
        CompareValueToMostConnectedVertex(currentVertex);
      }
    }

    /** countUncoveredNeighbors: the neighbours that have not been seen. */
    method CountUncoveredNeighbors(vertex: int) returns (outDegreeCount: nat)
      requires vertex in neighbors
      ensures outDegreeCount == |neighbors[vertex] - coveredVertices|
    {
      ghost var N, seen := neighbors[vertex], coveredVertices;
      outDegreeCount := 0;
      var rest := neighbors[vertex];
      while rest != {}
        invariant rest <= N && coveredVertices == seen
        invariant outDegreeCount == |(N - rest) - seen|
        decreases |rest|
      {
        ghost var g := PickOne(rest);
        var neighbor :| neighbor in rest;
        Calculations.CountStep(N, rest, seen, neighbor);
        if NeighborHasNotBeenSeen(neighbor) {
          outDegreeCount := outDegreeCount + 1;
        }
        rest := rest - {neighbor};
      }
    }

    /** neighborHasNotBeenSeen: the source also looks the neighbour's Integer id up in the
        set of dominating Vertex objects, a lookup no Integer ever satisfies, so only the
        covered set decides. Every pick is covered, so this is the test the generator
        means: in neither set. */
    function NeighborHasNotBeenSeen(neighbor: int): (b: bool)
      reads this
      ensures b <==> neighbor !in coveredVertices
      ensures dominatingSet <= coveredVertices ==> (b <==> !(neighbor in dominatingSet || neighbor in coveredVertices))
    {
      neighbor !in coveredVertices
    }

    /** compareValueToMostConnectedVertex: the larger id wins. */
    method CompareValueToMostConnectedVertex(currentVertex: int)
      modifies this`mostConnectedVertex
      ensures mostConnectedVertex == currentVertex || mostConnectedVertex == old(mostConnectedVertex)
      ensures mostConnectedVertex >= currentVertex && mostConnectedVertex >= old(mostConnectedVertex)
    {
      if currentVertex > mostConnectedVertex {
        mostConnectedVertex := currentVertex;
      }
    }

    /** updateSets: the pick joins the dominating set, it and its neighbours become
        covered and stop being uncovered. */
    method UpdateSets()
      requires mostConnectedVertex in neighbors
      modifies this`dominatingSet, this`coveredVertices, this`uncoveredVertices
      ensures dominatingSet == old(dominatingSet) + {mostConnectedVertex}
      ensures coveredVertices == old(coveredVertices) + {mostConnectedVertex} + neighbors[mostConnectedVertex]
      ensures uncoveredVertices == old(uncoveredVertices) - ({mostConnectedVertex} + neighbors[mostConnectedVertex])
    {
      AddMostConnectedVertexToDominatingSet();
      AddMostConnectedVertexEgonetToCoveredVertices();
      RemoveMostConnectedVertexEgonetFromUncoveredVertices();
    }

    method AddMostConnectedVertexToDominatingSet()
      modifies this`dominatingSet
      ensures dominatingSet == old(dominatingSet) + {mostConnectedVertex}
    {
      dominatingSet := dominatingSet + {mostConnectedVertex};
    }

    method AddMostConnectedVertexEgonetToCoveredVertices()
      requires mostConnectedVertex in neighbors
      modifies this`coveredVertices
      ensures coveredVertices == old(coveredVertices) + {mostConnectedVertex} + neighbors[mostConnectedVertex]
    {
      coveredVertices := coveredVertices + {mostConnectedVertex};
      coveredVertices := coveredVertices + neighbors[mostConnectedVertex];
    }

    /** removeMostConnectedVertexEgonetFromUncoveredVertices: the pick, then each of its
        neighbours, leaves the uncovered set. */
    method RemoveMostConnectedVertexEgonetFromUncoveredVertices()
      requires mostConnectedVertex in neighbors
      modifies this`uncoveredVertices
      ensures uncoveredVertices == old(uncoveredVertices) - ({mostConnectedVertex} + neighbors[mostConnectedVertex])
    {
      ghost var U0, N := uncoveredVertices, neighbors[mostConnectedVertex];
      uncoveredVertices := uncoveredVertices - {mostConnectedVertex};
      var rest := neighbors[mostConnectedVertex];
      while rest != {}
        invariant rest <= N
        invariant uncoveredVertices == U0 - {mostConnectedVertex} - (N - rest)
        decreases |rest|
      {
        ghost var g := PickOne(rest);
        var neighbor :| neighbor in rest;
        uncoveredVertices := uncoveredVertices - {neighbor};
        rest := rest - {neighbor};
      }
    }
  }

  /** greedy: a fresh generator over the graph's vertices. The graph is only read; the
      result dominates it. */
  method Greedy(graph: Graph) returns (r: set<int>)
    requires graph.Valid()
    ensures Ready(graph.vertices) && r == CoverGreedy(graph.vertices, graph.vertices.Keys, {})
    ensures r <= graph.vertices.Keys && Dominates(graph.vertices, r)
  {
    var generator := new DominatingSetGenerator(graph);
    r := generator.GenerateGreedy();
    CoverGreedyDominates(graph.vertices);
  }
}
