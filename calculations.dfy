/** The dominating-set generators and the checker of the current implementation. Each
    generator works on a clone of the caller's graph: the greedy adds a self-loop at every
    vertex and then repeatedly deletes the egonet of the vertex with the most neighbours;
    the connected greedy grows a covered set from the vertex with the most neighbours. */
module Calculations {
  import opened Edges
  import opened Paths
  import opened Graphs
  import opened Selection
  import opened Domination
  import opened Cloning

  /** A pick already in D whose egonet is already covered changes nothing. */
  lemma ConnectedDone(adj: map<int, set<int>>, D: set<int>, C: set<int>, p: int)
    requires Ready(adj) && C == adj.Keys && p in D && p in adj
    ensures D + {p} == D && C + adj[p] + {p} == C
    ensures ConnectedFrom(adj, D, C, true) == Success(D)
  {
    NeighborsWithin(adj, p);
  }

  /** The scan step by uncovered neighbours keeps the maximum. */
  lemma ScoreStep(adj: map<int, set<int>>, C: set<int>, S: set<int>, best: Pick, v: int)
    requires S <= adj.Keys && v in adj && IsMostConnected(UnseenCounts(adj, C), S, best)
    ensures IsMostConnected(UnseenCounts(adj, C), S + {v}, Update(best, |adj[v] - C|, v))
  {
    UpdateKeepsMostConnected(UnseenCounts(adj, C), S, best, v);
  }

  /** The scan step over all vertices that considers only the candidates of a diversion. */
  lemma CandidateStep(adj: map<int, set<int>>, C: set<int>, rest: set<int>, best: Pick, v: int)
    requires rest <= adj.Keys && v in rest
    requires IsMostConnected(UnseenCounts(adj, C), DivertCandidates(adj, C) - rest, best)
    ensures v in DivertCandidates(adj, C) ==>
      IsMostConnected(UnseenCounts(adj, C), DivertCandidates(adj, C) - (rest - {v}), Update(best, |adj[v] - C|, v))
    ensures v !in DivertCandidates(adj, C) ==>
      IsMostConnected(UnseenCounts(adj, C), DivertCandidates(adj, C) - (rest - {v}), best)
    ensures DivertCandidates(adj, C) - (rest - {v}) != {} <==> DivertCandidates(adj, C) - rest != {} || v in DivertCandidates(adj, C)
  {
    var cand := DivertCandidates(adj, C);
    if v in cand {
      UpdateKeepsMostConnected(UnseenCounts(adj, C), cand - rest, best, v);
      assert cand - (rest - {v}) == (cand - rest) + {v};
    } else {
      assert cand - (rest - {v}) == cand - rest;
    }
  }

  lemma CountStep(N: set<int>, rest: set<int>, seen: set<int>, n: int)
    requires n in rest && rest <= N
    ensures |(N - (rest - {n})) - seen| == |(N - rest) - seen| + (if n in seen then 0 else 1)
  {
    if n !in seen {
      assert (N - (rest - {n})) - seen == ((N - rest) - seen) + {n};
    } else {
      assert (N - (rest - {n})) - seen == (N - rest) - seen;
    }
  }

  lemma GrowStep(N: set<int>, rest: set<int>, n: int)
    requires n in rest && rest <= N
    ensures |N - (rest - {n})| == |N - rest| + 1
  {
    assert N - (rest - {n}) == (N - rest) + {n};
  }

  /** Some neighbour is seen exactly when fewer neighbours are unseen than there are
      neighbours. */
  lemma FewerUnseenIffSeen(N: set<int>, seen: set<int>)
    ensures |N - seen| < |N| <==> N * seen != {}
  {
    CardinalityOfRemoval(N, N * seen);
    assert N - seen == N - N * seen;
    if N * seen != {} {
      var w := PickOne(N * seen);
    }
  }

  /** One vertex leaving the graph, as the graph store does it, is RemoveVertices of that
      one vertex. */
  lemma RemoveOneVertex(adj: map<int, set<int>>, v: int)
    ensures (map u | u in adj && u != v :: adj[u] - {v}) == Domination.RemoveVertices(adj, {v})
  {
  }

  /** V is V0 with a self-loop added at every vertex of done, none of which had one. */
  ghost predicate LoopsAdded(V0: map<int, set<int>>, V: map<int, set<int>>, done: set<int>)
  {
    && V.Keys == V0.Keys
    && (forall v :: v in V0 && v !in done ==> V[v] == V0[v])
    && (forall v :: v in V0 && v in done ==> V[v] == V0[v] + {v} && v !in V0[v])
  }

  lemma LoopsAddedStep(V0: map<int, set<int>>, V: map<int, set<int>>, done: set<int>, i: int)
    requires LoopsAdded(V0, V, done) && i in V0 && i !in done && i !in V[i]
    ensures LoopsAdded(V0, V[i := V[i] + {i}], done + {i})
  {
  }

  lemma LoopsAddedFails(V0: map<int, set<int>>, V: map<int, set<int>>, done: set<int>, i: int)
    requires LoopsAdded(V0, V, done) && i in V0 && i !in done && i in V[i]
    ensures !SelfLoopFree(V0)
  {
  }

  lemma LoopsAddedAll(V0: map<int, set<int>>, V: map<int, set<int>>)
    requires LoopsAdded(V0, V, V0.Keys)
    ensures SelfLoopFree(V0) && V == WithSelfLoops(V0)
  {
    assert forall v :: v in V0 ==> V[v] == V0[v] + {v};
  }

  lemma GreedyPickIn(A: map<int, set<int>>, p: int)
    requires Ready(A) && A != map[] && p == MostConnected(Degrees(A), A.Keys).id
    ensures p in A && A[p] <= A.Keys
  {
    assert p == DegreePick(A);
    NeighborsWithin(A, p);
  }

  /** One round of the greedy loop: the pick joins D, its egonet leaves the graph, and
      what is still to be picked shrinks accordingly. */
  lemma GreedyRound(A: map<int, set<int>>, D: set<int>, p: int, D1: set<int>, B: map<int, set<int>>)
    requires Ready(A) && SelfLooped(A) && A != map[] && p in A && p == MostConnected(Degrees(A), A.Keys).id
    requires D1 == D + {p} && B == Domination.RemoveVertices(A, A[p])
    ensures Ready(B) && SelfLooped(B) && |B.Keys| < |A.Keys|
    ensures D1 + GreedySpec(B) == D + GreedySpec(A)
  {
    assert p == DegreePick(A);
    GreedyStep(A, p);
    RemovalKeepsReady(A, A[p]);
    FewerKeys(A.Keys, A[p], p);
  }

  /** The ids at either end of some edge of S. */
  ghost function Endpoints(S: set<Edge>): set<int>
  {
    (set e | e in S :: e.a) + (set e | e in S :: e.b)
  }

  /** The edges filed in the buckets of the ids of K. */
  ghost function Touching(E: set<Edge>, K: set<int>): set<Edge>
  {
    set e | e in E && (e.a in K || e.b in K)
  }

  lemma EndpointsUnion(S: set<Edge>, T: set<Edge>)
    ensures Endpoints(S + T) == Endpoints(S) + Endpoints(T)
  {
  }

  /** One more edge of bucket B read. */
  lemma EndpointsStep(B: set<Edge>, rest: set<Edge>, e: Edge)
    requires e in rest && rest <= B
    ensures Endpoints(B - (rest - {e})) == Endpoints(B - rest) + {e.a, e.b}
  {
    assert B - (rest - {e}) == (B - rest) + {e};
    EndpointsUnion(B - rest, {e});
    assert Endpoints({e}) == {e.a, e.b};
  }

  /** One more bucket read: a bucket holds exactly the edges touching its id. */
  lemma BucketStep(edges: map<int, set<Edge>>, E: set<Edge>, keys: set<int>, k: int, rest: set<Edge>)
    requires BucketsExact(edges, E) && keys <= edges.Keys && k in keys && rest == {}
    ensures Endpoints(Touching(E, edges.Keys - keys)) + Endpoints(edges[k] - rest) ==
      Endpoints(Touching(E, edges.Keys - (keys - {k})))
  {
    assert edges.Keys - (keys - {k}) == (edges.Keys - keys) + {k};
    assert Touching(E, edges.Keys - keys) + edges[k] == Touching(E, edges.Keys - (keys - {k}));
    assert edges[k] - rest == edges[k];
    EndpointsUnion(Touching(E, edges.Keys - keys), edges[k]);
  }

  /** Every edge has buckets at both ends, so the buckets of all ids hold every edge. */
  lemma TouchingAll(vertices: map<int, set<int>>, edges: map<int, set<Edge>>, E: set<Edge>, keys: set<int>)
    requires EndpointsPresent(vertices, edges, E) && keys == {}
    ensures Touching(E, edges.Keys - keys) == E
  {
    assert edges.Keys - keys == edges.Keys;
  }

  /** In a well-formed graph the vertices at the end of no edge are exactly the isolated
      ones. */
  lemma IsolatedIffNoEndpoint(directed: bool, vertices: map<int, set<int>>, edges: map<int, set<Edge>>, n: nat, E: set<Edge>)
    requires WellFormed(directed, vertices, edges, n, E)
    ensures Endpoints(E) <= vertices.Keys
    ensures forall v :: v in vertices ==> (v !in Endpoints(E) <==> Isolated(vertices, v))
  {
    forall v | v in vertices
      ensures v !in Endpoints(E) <==> Isolated(vertices, v)
    {
      if v in Endpoints(E) {
        var e :| e in E && (e.a == v || e.b == v);
        if e.a == v {
          assert Linked(directed, E, v, e.b);
          assert e.b in vertices[v];
        } else {
          assert Linked(directed, E, e.a, v);
          assert v in vertices[e.a];
        }
      } else {
        forall w
          ensures w !in vertices[v]
        {
          assert Edge(v, w) !in E && Edge(w, v) !in E;
        }
        forall u | u in vertices
          ensures v !in vertices[u]
        {
          assert Edge(u, v) !in E && Edge(v, u) !in E;
        }
      }
    }
  }

  /** The ids that touch an edge fall short of the vertex count exactly when some vertex is
      isolated. */
  lemma FewerEndpointsIffIsolated(vertices: map<int, set<int>>, A: set<int>)
    requires A <= vertices.Keys
    requires forall v :: v in vertices ==> (v !in A <==> Isolated(vertices, v))
    ensures |A| != |vertices| <==> HasIsolatedVertex(vertices)
  {
    assert |vertices| == |vertices.Keys|;
    if |A| == |vertices| {
      AllSeen(vertices.Keys, A);
    } else {
      var v := PickOutside(vertices.Keys, A);
      assert Isolated(vertices, v);
    }
  }

  /** The stop test of the covered-set loop: the covered set is as large as the vertex
      set exactly when it is all of it. */
  lemma CoveredCount(adj: map<int, set<int>>, C: set<int>)
    requires C <= adj.Keys
    ensures |C| == |adj| <==> C == adj.Keys
  {
    assert |adj| == |adj.Keys|;
    if |C| == |adj| {
      AllSeen(adj.Keys, C);
    }
  }

  /** The ids the connected generator's first step and its diversions may pick. */
  lemma CandidatePick(adj: map<int, set<int>>, C: set<int>)
    requires Ready(adj) && C <= adj.Keys && C != adj.Keys
    requires MostConnected(UnseenCounts(adj, C), C).count == 0 && DivertCandidates(adj, C) != {}
    ensures NextPick(adj, C, true) == Success(MostConnected(UnseenCounts(adj, C), DivertCandidates(adj, C)).id)
  {
  }

  class DominatingSetGenerator {
    /** the generator's own clone of the seed graph */
    const graph: Graph
    var largestOutDegree: int
    /** the id of the current pick; 0 is the placeholder Vertex(0) */
    var mostConnectedVertex: int
    var dominatingSet: set<int>
    var coveredVertices: set<int>
    var vertexHasCoveredNeighbor: bool

    constructor (seed: Graph)
      requires seed.Valid()
      ensures fresh(graph) && graph.Valid() && graph.directed == seed.directed
      ensures graph.vertices == seed.vertices && graph.E == seed.E
      ensures largestOutDegree == 0 && mostConnectedVertex == 0
      ensures dominatingSet == {} && coveredVertices == {} && !vertexHasCoveredNeighbor
    {
      var cloner := new GraphCloner(seed);
      var clone := cloner.Clone();
      graph := clone;
      largestOutDegree := 0;
      mostConnectedVertex := 0;
      dominatingSet := {};
      coveredVertices := {};
      vertexHasCoveredNeighbor := false;
    }

    /** generateGreedy */
    method GenerateGreedy() returns (r: Result<set<int>>)
      requires graph.Valid() && dominatingSet == {}
      modifies this, graph
      ensures Ready(old(graph.vertices))
      ensures r == GreedyResult(old(graph.vertices))
    {
      ghost var V0 := graph.vertices;
      graph.NeighborsAreIds();
      assert Ready(V0);
      var o := GenerateUnconnectedGreedyDominatingSet();
      if o.Fail? {
        return Failure(o.error);
      }
      return Success(dominatingSet);
    }

    /** generateUnconnectedGreedyDominatingSet: self-loops first, then rounds of pick and
        delete until the graph is empty. */
    method GenerateUnconnectedGreedyDominatingSet() returns (o: Outcome)
      requires graph.Valid() && Ready(graph.vertices) && dominatingSet == {}
      modifies this, graph
      ensures o.Fail? ==> GreedyResult(old(graph.vertices)) == Failure(o.error)
      ensures o.Ok? ==> GreedyResult(old(graph.vertices)) == Success(dominatingSet)
    {
      ghost var V0 := graph.vertices;
      o := AddEdgesFromVerticesToThemselves();
      if o.Fail? {
        return;
      }
      SelfLoopsReady(V0);
      RemoveEgonetsUntilEmpty();
    }

    /** The main loop of generateUnconnectedGreedyDominatingSet: pick, record, delete the
        egonet, until no vertex is left. */
    method RemoveEgonetsUntilEmpty()
      requires graph.Valid() && Ready(graph.vertices) && SelfLooped(graph.vertices)
      modifies this, graph
      ensures dominatingSet == old(dominatingSet) + GreedySpec(old(graph.vertices))
    {
      ghost var L, D0 := graph.vertices, dominatingSet;
      while graph.vertices != map[]
        invariant graph.Valid() && Ready(graph.vertices) && SelfLooped(graph.vertices)
        invariant dominatingSet + GreedySpec(graph.vertices) == D0 + GreedySpec(L)
        decreases |graph.vertices.Keys|
      {
        ghost var A, D := graph.vertices, dominatingSet;
        var p := GreedyRoundStep();
        GreedyRound(A, D, p, dominatingSet, graph.vertices);
      }
    }

    method GreedyRoundStep() returns (p: int)
      requires graph.Valid() && Ready(graph.vertices) && graph.vertices != map[]
      modifies this, graph
      ensures graph.Valid()
      ensures p == MostConnected(Degrees(old(graph.vertices)), old(graph.vertices).Keys).id && p in old(graph.vertices)
      ensures dominatingSet == old(dominatingSet) + {p}
      ensures graph.vertices == Domination.RemoveVertices(old(graph.vertices), old(graph.vertices)[p])
    {
      ghost var A := graph.vertices;
      FindMostConnectedVertex();
      GreedyPickIn(A, mostConnectedVertex);
      AddMostConnectedVertexToDominatingSet();
      p := mostConnectedVertex;
      RemoveMostConnectedVertexEgonetFromSeed();
    }

    /** addEdgesFromVerticesToThemselves: edge (i, i) at every vertex; the graph store
        refuses it as a duplicate at a vertex that already has a self-loop. */
    method AddEdgesFromVerticesToThemselves() returns (o: Outcome)
      requires graph.Valid()
      modifies graph
      ensures graph.Valid() && graph.vertices.Keys == old(graph.vertices.Keys)
      ensures o.Ok? <==> SelfLoopFree(old(graph.vertices))
      ensures o.Ok? ==> graph.vertices == WithSelfLoops(old(graph.vertices))
      ensures o.Fail? ==> o.error == DuplicateEdge
    {
      ghost var V0 := graph.vertices;
      var rest := graph.vertices.Keys;
      while rest != {}
        invariant graph.Valid() && rest <= V0.Keys
        invariant LoopsAdded(V0, graph.vertices, V0.Keys - rest)
        decreases |rest|
      {
        ghost var g := PickOne(rest);
        var i :| i in rest;
        ghost var V := graph.vertices;
        o := AddSelfLoop(graph, i);
        if o.Fail? {
          LoopsAddedFails(V0, V, V0.Keys - rest, i);
          return;
        }
        LoopsAddedStep(V0, V, V0.Keys - rest, i);
        assert V0.Keys - rest + {i} == V0.Keys - (rest - {i});
        rest := rest - {i};
      }
      o := Ok;
      LoopsAddedAll(V0, graph.vertices);
    }

    /** addEdge(i, i) on graph g. */
    static method AddSelfLoop(g: Graph, i: int) returns (o: Outcome)
      requires g.Valid() && i in g.vertices
      modifies g
      ensures g.Valid() && g.vertices.Keys == old(g.vertices.Keys)
      ensures o.Fail? <==> i in old(g.vertices)[i]
      ensures o.Fail? ==> o.error == DuplicateEdge && g.vertices == old(g.vertices)
      ensures o.Ok? ==> g.vertices == old(g.vertices)[i := old(g.vertices)[i] + {i}]
    {
      ghost var V0 := g.vertices;
      assert Linked(g.directed, g.E, i, i) <==> Edge(i, i) in g.E;
      assert CreateEdge(g.directed, i, i) == Edge(i, i);
      o := g.AddEdge(i, i);
      if o.Ok? {
        assert g.vertices == V0[i := V0[i] + {i}] by {
          forall v | v in g.vertices
            ensures g.vertices[v] == V0[i := V0[i] + {i}][v]
          {
            assert forall w :: w in g.vertices[v] <==> w in V0[v] || (v == i && w == i);
          }
        }
      }
    }

    /** findMostConnectedVertex: a scan over every vertex by neighbour count. */
    method FindMostConnectedVertex()
      modifies this`largestOutDegree, this`mostConnectedVertex
      ensures Pick(largestOutDegree, mostConnectedVertex) == MostConnected(Degrees(graph.vertices), graph.vertices.Keys)
    {
      ghost var scores, S := Degrees(graph.vertices), graph.vertices.Keys;
      ResetMostConnectedVertex();
      NothingScanned(scores);
      var rest := graph.vertices.Keys;
      while rest != {}
        invariant rest <= S
        invariant IsMostConnected(scores, S - rest, Pick(largestOutDegree, mostConnectedVertex))
        decreases |rest|
      {
        ghost var g := PickOne(rest);
        var v :| v in rest;
        UpdateKeepsMostConnected(scores, S - rest, Pick(largestOutDegree, mostConnectedVertex), v);
        UpdateMostConnectedVertex(|graph.vertices[v]|, v);
        assert S - rest + {v} == S - (rest - {v});
        rest := rest - {v};
      }
      ScanIsMostConnected(scores, S, Pick(largestOutDegree, mostConnectedVertex));
    }

    /** resetMostConnectedVertex: back to count 0 and the placeholder Vertex(0). */
    method ResetMostConnectedVertex()
      modifies this`largestOutDegree, this`mostConnectedVertex
      ensures largestOutDegree == 0 && mostConnectedVertex == 0
    {
      largestOutDegree := 0;
      mostConnectedVertex := 0;
    }

    /** updateMostConnectedVertex: a larger count wins, an equal count goes to the larger
        id. */
    method UpdateMostConnectedVertex(currentVertexOutDegree: int, currentVertex: int)
      modifies this`largestOutDegree, this`mostConnectedVertex
      ensures Pick(largestOutDegree, mostConnectedVertex) ==
        Update(old(Pick(largestOutDegree, mostConnectedVertex)), currentVertexOutDegree, currentVertex)
    {
      if currentVertexOutDegree > largestOutDegree {
        largestOutDegree := currentVertexOutDegree;
        mostConnectedVertex := currentVertex;
      } else if currentVertexOutDegree == largestOutDegree {
        mostConnectedVertex := CompareValues(currentVertex);
      }
    }

    /** compareValues: the larger of the two ids. */
    function CompareValues(currentVertex: int): (r: int)
      reads this
      ensures r == currentVertex || r == mostConnectedVertex
      ensures r >= currentVertex && r >= mostConnectedVertex
    {
      if currentVertex > mostConnectedVertex then currentVertex else mostConnectedVertex
    }

    method AddMostConnectedVertexToDominatingSet()
      modifies this`dominatingSet
      ensures dominatingSet == old(dominatingSet) + {mostConnectedVertex}
    {
      dominatingSet := dominatingSet + {mostConnectedVertex};
    }

    /** removeMostConnectedVertexEgonetFromSeed: the pick's neighbour set is copied, then
        each of those vertices is removed from the graph. */
    method RemoveMostConnectedVertexEgonetFromSeed()
      requires graph.Valid() && mostConnectedVertex in graph.vertices
      requires graph.vertices[mostConnectedVertex] <= graph.vertices.Keys
      modifies graph
      ensures graph.Valid()
      ensures graph.vertices == Domination.RemoveVertices(old(graph.vertices), old(graph.vertices)[mostConnectedVertex])
    {
      var verticesToRemove := FindAllNeighborsOfMostConnected();
      RemoveVertices(verticesToRemove);
    }

    /** findAllNeighborsOfMostConnected: a copy of the pick's neighbour ids. */
    method FindAllNeighborsOfMostConnected() returns (verticesToRemove: set<int>)
      requires mostConnectedVertex in graph.vertices
      ensures verticesToRemove == graph.vertices[mostConnectedVertex]
    {
      verticesToRemove := {};
      var rest := graph.vertices[mostConnectedVertex];
      while rest != {}
        invariant rest <= graph.vertices[mostConnectedVertex]
        invariant verticesToRemove == graph.vertices[mostConnectedVertex] - rest
        decreases |rest|
      {
        ghost var g := PickOne(rest);
        var n :| n in rest;
        verticesToRemove := verticesToRemove + {n};
        rest := rest - {n};
      }
    }

    /** removeVertices: each id leaves the graph with its edges. */
    method RemoveVertices(verticesToRemove: set<int>)
      requires graph.Valid() && verticesToRemove <= graph.vertices.Keys
      modifies graph
      ensures graph.Valid()
      ensures graph.vertices == Domination.RemoveVertices(old(graph.vertices), verticesToRemove)
    {
      ghost var V0 := graph.vertices;
      var rest := verticesToRemove;
      assert verticesToRemove - rest == {};
      assert graph.vertices == Domination.RemoveVertices(V0, {}) by {
        assert forall u :: u in V0 ==> V0[u] - {} == V0[u];
      }
      while rest != {}
        invariant graph.Valid() && rest <= verticesToRemove
        invariant graph.vertices == Domination.RemoveVertices(V0, verticesToRemove - rest)
        decreases |rest|
      {
        ghost var g := PickOne(rest);
        var i :| i in rest;
        ghost var A := graph.vertices;
        assert i in A;
        var _ := graph.RemoveVertex(i);
        RemoveOneVertex(A, i);
        RemoveOneMore(V0, verticesToRemove - rest, i);
        assert verticesToRemove - rest + {i} == verticesToRemove - (rest - {i});
        rest := rest - {i};
      }
      assert verticesToRemove - rest == verticesToRemove;
    }

    /** generateConnectedGreedy: a directed graph with an isolated vertex has no connected
        dominating set; any other graph goes to the connected greedy. */
    method GenerateConnectedGreedy() returns (r: Result<set<int>>)
      requires graph.Valid() && dominatingSet == {} && coveredVertices == {} && !vertexHasCoveredNeighbor
      modifies this
      ensures Ready(graph.vertices)
      ensures r == ConnectedResult(graph.directed, graph.vertices)
    {
      graph.NeighborsAreIds();
      var isolated := GraphIsDirectedWithIsolatedVertices();
      if isolated {
        return Failure(NoConnectedSet);
      }
      var ok := GenerateConnectedGreedyDominatingSet();
      if !ok {
        return Failure(NoProgress);
      }
      return Success(dominatingSet);
    }

    /** graphIsDirectedWithIsolatedVertices: an undirected graph never is; a directed one
        is when fewer ids touch an edge than there are vertices. */
    method GraphIsDirectedWithIsolatedVertices() returns (b: bool)
      requires graph.Valid()
      ensures b <==> graph.directed && HasIsolatedVertex(graph.vertices)
    {
      if !graph.directed {
        return false;
      }
      var accessibleVertices := PopulateAccessibleVertices();
      IsolatedIffNoEndpoint(graph.directed, graph.vertices, graph.edges, graph.numEdges, graph.E);
      FewerEndpointsIffIsolated(graph.vertices, accessibleVertices);
      b := |accessibleVertices| != |graph.vertices|;
    }

    /** populateAccessibleVertices: both endpoints of every edge in every bucket. */
    method PopulateAccessibleVertices() returns (accessibleVertices: set<int>)
      requires graph.Valid()
      ensures accessibleVertices == Endpoints(graph.E)
    {
      ghost var E, edges := graph.E, graph.edges;
      assert BucketsExact(edges, E) && EndpointsPresent(graph.vertices, edges, E);
      accessibleVertices := {};
      var keys := graph.edges.Keys;
      while keys != {}
        invariant keys <= edges.Keys
        invariant accessibleVertices == Endpoints(Touching(E, edges.Keys - keys))
        decreases |keys|
      {
        ghost var g := PickOne(keys);
        var k :| k in keys;
        ghost var before := accessibleVertices;
        var rest := graph.edges[k];
        while rest != {}
          invariant rest <= edges[k]
          invariant accessibleVertices == before + Endpoints(edges[k] - rest)
          decreases |rest|
        {
          ghost var h := PickOne(rest);
          var e :| e in rest;
          EndpointsStep(edges[k], rest, e);
          accessibleVertices := accessibleVertices + {e.a, e.b};
          rest := rest - {e};
        }
        BucketStep(edges, E, keys, k, rest);
        keys := keys - {k};
      }
      TouchingAll(graph.vertices, edges, E, keys);
    }

    /** generateConnectedGreedyDominatingSet: the vertex with the most neighbours starts
        the covered set, then the covered set grows until it holds every vertex. On an
        empty graph the source picks the placeholder forever; the model stops. */
    method GenerateConnectedGreedyDominatingSet() returns (ok: bool)
      requires Ready(graph.vertices) && dominatingSet == {} && coveredVertices == {}
      modifies this
      ensures ok ==> ConnectedGreedySpec(graph.vertices, true) == Success(dominatingSet)
      ensures !ok ==> ConnectedGreedySpec(graph.vertices, true) == Failure(NoProgress)
    {
      if graph.vertices == map[] {
        return false;
      }
      FindMostConnectedVertex();
      ghost var p := mostConnectedVertex;
      assert p == DegreePick(graph.vertices);
      NeighborsWithin(graph.vertices, p);
      AddMostConnectedVertex();
      assert dominatingSet == {p} && coveredVertices == graph.vertices[p] + {p};
      ok := LoopOverCoveredVertices();
    }

    /** addMostConnectedVertex: the pick joins the dominating set and its egonet joins the
        covered set. */
    method AddMostConnectedVertex()
      requires mostConnectedVertex in graph.vertices
      modifies this`dominatingSet, this`coveredVertices
      ensures dominatingSet == old(dominatingSet) + {mostConnectedVertex}
      ensures coveredVertices == old(coveredVertices) + graph.vertices[mostConnectedVertex] + {mostConnectedVertex}
    {
      AddMostConnectedVertexToDominatingSet();
      AddMostConnectedVertexEgonetToCoveredVerticesSet();
    }

    method AddMostConnectedVertexEgonetToCoveredVerticesSet()
      requires mostConnectedVertex in graph.vertices
      modifies this`coveredVertices
      ensures coveredVertices == old(coveredVertices) + graph.vertices[mostConnectedVertex] + {mostConnectedVertex}
    {
      coveredVertices := coveredVertices + graph.vertices[mostConnectedVertex];
      coveredVertices := coveredVertices + {mostConnectedVertex};
    }

    /** allVerticesCovered: the covered set is as large as the vertex set. */
    function AllVerticesCovered(): (b: bool)
      requires coveredVertices <= graph.vertices.Keys
      reads this, graph
      ensures b <==> coveredVertices == graph.vertices.Keys
    {
      CoveredCount(graph.vertices, coveredVertices);
      |coveredVertices| == |graph.vertices|
    }

    /** loopOverCoveredVertices: add picks until every vertex is covered. A pick comes from
        the covered set, or, through a diversion that runs this loop itself, from the
        uncovered vertices next to it. */
    method LoopOverCoveredVertices() returns (ok: bool)
      requires Ready(graph.vertices) && coveredVertices <= graph.vertices.Keys && dominatingSet <= coveredVertices
      requires mostConnectedVertex in dominatingSet
      modifies this
      ensures ok ==> coveredVertices == graph.vertices.Keys && dominatingSet <= coveredVertices
      ensures ok ==> mostConnectedVertex in dominatingSet
      ensures ok ==> ConnectedFrom(graph.vertices, old(dominatingSet), old(coveredVertices), true) == Success(dominatingSet)
      ensures !ok ==> ConnectedFrom(graph.vertices, old(dominatingSet), old(coveredVertices), true) == Failure(NoProgress)
      decreases |graph.vertices.Keys - coveredVertices|, 2
    {
      ghost var adj, D0, C0 := graph.vertices, dominatingSet, coveredVertices;
      while !AllVerticesCovered()
        invariant coveredVertices <= adj.Keys && dominatingSet <= coveredVertices
        invariant mostConnectedVertex in dominatingSet
        invariant |adj.Keys - coveredVertices| <= |adj.Keys - C0|
        invariant ConnectedFrom(adj, dominatingSet, coveredVertices, true) == ConnectedFrom(adj, D0, C0, true)
        decreases |adj.Keys - coveredVertices|
      {
        var progress := AddMostConnectedVertexFromCoveredVertices();
        if !progress {
          return false;
        }
      }
      return true;
    }

    /** addMostConnectedVertexFromCoveredVertices: the covered vertex with the most
        uncovered neighbours is the next pick; when none has any, the generator diverts to
        the uncovered vertices. */
    method AddMostConnectedVertexFromCoveredVertices() returns (progress: bool)
      requires Ready(graph.vertices) && coveredVertices <= graph.vertices.Keys && dominatingSet <= coveredVertices
      requires coveredVertices != graph.vertices.Keys
      modifies this
      ensures progress ==> coveredVertices <= graph.vertices.Keys && dominatingSet <= coveredVertices
      ensures progress ==> mostConnectedVertex in dominatingSet
      ensures progress ==> |graph.vertices.Keys - coveredVertices| < |graph.vertices.Keys - old(coveredVertices)|
      ensures progress ==>
        ConnectedFrom(graph.vertices, dominatingSet, coveredVertices, true) ==
        ConnectedFrom(graph.vertices, old(dominatingSet), old(coveredVertices), true)
      ensures !progress ==> ConnectedFrom(graph.vertices, old(dominatingSet), old(coveredVertices), true) == Failure(NoProgress)
      decreases |graph.vertices.Keys - coveredVertices|, 1
    {
      ghost var adj, D0, C0 := graph.vertices, dominatingSet, coveredVertices;
      ScanCoveredVertices();
      if largestOutDegree == 0 {
        var ok := DivertToUncoveredVertices();
        if !ok {
          return false;
        }
        ConnectedDone(adj, dominatingSet, coveredVertices, mostConnectedVertex);
        AddMostConnectedVertex();
        ghost var u := PickOutside(adj.Keys, C0);
        assert u in adj.Keys - C0;
        return true;
      }
      PositiveIsScanned(UnseenCounts(adj, C0), C0);
      ghost var p := mostConnectedVertex;
      assert NextPick(adj, C0, true) == Success(p);
      ConnectedRound(adj, D0, C0, p, true);
      AddMostConnectedVertex();
      progress := true;
    }

    /** The scan of addMostConnectedVertexFromCoveredVertices: every covered vertex, by
        its uncovered neighbours. */
    method ScanCoveredVertices()
      requires Ready(graph.vertices) && coveredVertices <= graph.vertices.Keys && dominatingSet <= coveredVertices
      modifies this`largestOutDegree, this`mostConnectedVertex
      ensures Pick(largestOutDegree, mostConnectedVertex) ==
        MostConnected(UnseenCounts(graph.vertices, coveredVertices), coveredVertices)
    {
      ghost var adj, C := graph.vertices, coveredVertices;
      ghost var scores := UnseenCounts(adj, C);
      ResetMostConnectedVertex();
      NothingScanned(scores);
      var rest := coveredVertices;
      while rest != {}
        invariant rest <= C && dominatingSet + coveredVertices == C
        invariant IsMostConnected(scores, C - rest, Pick(largestOutDegree, mostConnectedVertex))
        decreases |rest|
      {
        ghost var g := PickOne(rest);
        var v :| v in rest;
        ScoreStep(adj, C, C - rest, Pick(largestOutDegree, mostConnectedVertex), v);
        CompareToMostConnected(v);
        Scanned(C, rest, v);
        rest := rest - {v};
      }
      ScanIsMostConnected(scores, C, Pick(largestOutDegree, mostConnectedVertex));
    }

    /** compareToMostConnected: the scan step over the covered set, by uncovered
        neighbours. */
    method CompareToMostConnected(currentVertex: int)
      requires currentVertex in graph.vertices
      modifies this`largestOutDegree, this`mostConnectedVertex
      ensures Pick(largestOutDegree, mostConnectedVertex) ==
        Update(old(Pick(largestOutDegree, mostConnectedVertex)), |graph.vertices[currentVertex] - (dominatingSet + coveredVertices)|, currentVertex)
    {
      var currentVertexOutDegree := CountUncoveredNeighbors(currentVertex);
      UpdateMostConnectedVertex(currentVertexOutDegree, currentVertex);
    }

    /** countUncoveredNeighbors: the neighbours in neither the dominating nor the covered
        set. */
    method CountUncoveredNeighbors(vertex: int) returns (outDegreeCount: nat)
      requires vertex in graph.vertices
      ensures outDegreeCount == |graph.vertices[vertex] - (dominatingSet + coveredVertices)|
    {
      ghost var N, seen := graph.vertices[vertex], dominatingSet + coveredVertices;
      outDegreeCount := 0;
      var rest := graph.vertices[vertex];
      while rest != {}
        invariant rest <= N
        invariant outDegreeCount == |(N - rest) - seen|
        decreases |rest|
      {
        ghost var g := PickOne(rest);
        var neighbor :| neighbor in rest;
        CountStep(N, rest, seen, neighbor);
        if !(neighbor in dominatingSet || neighbor in coveredVertices) {
          outDegreeCount := outDegreeCount + 1;
        }
        rest := rest - {neighbor};
      }
    }

    /** divertToUncoveredVertices: the best uncovered vertex next to the covered set is
        added, and the covered-set loop resumes from there. The call that clears
        vertexHasCoveredNeighbor is the model's own: the source does not clear the flag
        here, but every processUncoveredVertex leaves it false, so the call changes
        nothing. */
    method DivertToUncoveredVertices() returns (ok: bool)
      requires Ready(graph.vertices) && coveredVertices <= graph.vertices.Keys && dominatingSet <= coveredVertices
      requires coveredVertices != graph.vertices.Keys
      requires MostConnected(UnseenCounts(graph.vertices, coveredVertices), coveredVertices).count == 0
      modifies this
      ensures ok ==> coveredVertices == graph.vertices.Keys && dominatingSet <= coveredVertices
      ensures ok ==> mostConnectedVertex in dominatingSet
      ensures ok ==> ConnectedFrom(graph.vertices, old(dominatingSet), old(coveredVertices), true) == Success(dominatingSet)
      ensures !ok ==> ConnectedFrom(graph.vertices, old(dominatingSet), old(coveredVertices), true) == Failure(NoProgress)
      decreases |graph.vertices.Keys - coveredVertices|, 0
    {
      ghost var adj, D0, C0 := graph.vertices, dominatingSet, coveredVertices;
      ResetMostConnectedVertex();
      ResetHasCoveredNeighborField();
      var found := FindMostConnectedUncoveredVertex();
      if !found {
        return false;
      }
      ghost var cand := DivertCandidates(adj, C0);
      MostConnectedIsScanned(UnseenCounts(adj, C0), cand);
      CandidatePick(adj, C0);
      ghost var p := mostConnectedVertex;
      CoverGrows(adj, C0, p);
      AddMostConnectedVertex();
      ok := LoopOverCoveredVertices();
    }

    /** findMostConnectedUncoveredVertex: a scan over every vertex that considers only the
        uncovered ones with a covered neighbour. found records whether any was considered;
        the source then carries on with the placeholder Vertex(0), which the model treats
        as no progress. */
    method FindMostConnectedUncoveredVertex() returns (found: bool)
      requires Ready(graph.vertices) && dominatingSet <= coveredVertices
      requires largestOutDegree == 0 && mostConnectedVertex == 0 && !vertexHasCoveredNeighbor
      modifies this`largestOutDegree, this`mostConnectedVertex, this`vertexHasCoveredNeighbor
      ensures !vertexHasCoveredNeighbor
      ensures found <==> DivertCandidates(graph.vertices, coveredVertices) != {}
      ensures Pick(largestOutDegree, mostConnectedVertex) ==
        MostConnected(UnseenCounts(graph.vertices, coveredVertices), DivertCandidates(graph.vertices, coveredVertices))
    {
      ghost var adj, C := graph.vertices, coveredVertices;
      ghost var scores, cand := UnseenCounts(adj, C), DivertCandidates(adj, C);
      found := false;
      NothingScanned(scores);
      var rest := graph.vertices.Keys;
      assert cand - rest == {};
      while rest != {}
        invariant rest <= adj.Keys && !vertexHasCoveredNeighbor && coveredVertices == C
        invariant found <==> cand - rest != {}
        invariant IsMostConnected(scores, cand - rest, Pick(largestOutDegree, mostConnectedVertex))
        decreases |rest|
      {
        ghost var g := PickOne(rest);
        var currentVertex :| currentVertex in rest;
        CandidateStep(adj, C, rest, Pick(largestOutDegree, mostConnectedVertex), currentVertex);
        var considered := ProcessUncoveredVertex(currentVertex);
        found := found || considered;
        rest := rest - {currentVertex};
      }
      ScanIsMostConnected(scores, cand, Pick(largestOutDegree, mostConnectedVertex));
    }

    /** processUncoveredVertex: a covered vertex is skipped, so is one without a covered
        neighbour; any other is scored by its uncovered neighbours. considered tells which. */
    method ProcessUncoveredVertex(currentVertex: int) returns (considered: bool)
      requires Ready(graph.vertices) && currentVertex in graph.vertices && dominatingSet <= coveredVertices
      requires !vertexHasCoveredNeighbor
      modifies this`largestOutDegree, this`mostConnectedVertex, this`vertexHasCoveredNeighbor
      ensures !vertexHasCoveredNeighbor
      ensures considered <==> currentVertex in DivertCandidates(graph.vertices, coveredVertices)
      ensures Pick(largestOutDegree, mostConnectedVertex) ==
        if considered then Update(old(Pick(largestOutDegree, mostConnectedVertex)), |graph.vertices[currentVertex] - coveredVertices|, currentVertex)
        else old(Pick(largestOutDegree, mostConnectedVertex))
    {
      assert dominatingSet + coveredVertices == coveredVertices;
      if currentVertex in coveredVertices {
        return false;
      }
      var currentVertexOutDegree := EvaluateNeighbors(currentVertex);
      if !vertexHasCoveredNeighbor {
        return false;
      }
      UpdateMostConnectedVertex(currentVertexOutDegree, currentVertex);
      ResetHasCoveredNeighborField();
      return true;
    }

    /** evaluateNeighbors: counts the unseen neighbours and raises the flag at the first
        seen one. */
    method EvaluateNeighbors(vertex: int) returns (outDegreeCount: nat)
      requires vertex in graph.vertices && !vertexHasCoveredNeighbor
      modifies this`vertexHasCoveredNeighbor
      ensures outDegreeCount == |graph.vertices[vertex] - (dominatingSet + coveredVertices)|
      ensures vertexHasCoveredNeighbor <==> graph.vertices[vertex] * (dominatingSet + coveredVertices) != {}
    {
      ghost var N, seen := graph.vertices[vertex], dominatingSet + coveredVertices;
      var hasCoveredNeighbor := vertexHasCoveredNeighbor;
      outDegreeCount := 0;
      var rest := graph.vertices[vertex];
      while rest != {}
        invariant rest <= N
        invariant outDegreeCount == |(N - rest) - seen|
        invariant hasCoveredNeighbor <==> outDegreeCount < |N - rest|
        decreases |rest|
      {
        ghost var g := PickOne(rest);
        var neighbor :| neighbor in rest;
        CountStep(N, rest, seen, neighbor);
        GrowStep(N, rest, neighbor);
        if !(neighbor in dominatingSet || neighbor in coveredVertices) {
          outDegreeCount := outDegreeCount + 1;
        } else if hasCoveredNeighbor == false {
          hasCoveredNeighbor := true;
        }
        rest := rest - {neighbor};
      }
      vertexHasCoveredNeighbor := hasCoveredNeighbor;
      assert N - rest == N;
      FewerUnseenIffSeen(N, seen);
    }

    /** resetHasCoveredNeighborField */
    method ResetHasCoveredNeighborField()
      modifies this`vertexHasCoveredNeighbor
      ensures !vertexHasCoveredNeighbor
    {
      vertexHasCoveredNeighbor := false;
    }
  }

  /** greedy: a fresh generator on a clone of the graph; the caller's graph is untouched.
      The result dominates the graph, or the graph already had a self-loop. */
  method Greedy(graph: Graph) returns (r: Result<set<int>>)
    requires graph.Valid()
    ensures Ready(graph.vertices) && r == GreedyResult(graph.vertices)
    ensures r.Failure? <==> !SelfLoopFree(graph.vertices)
    ensures r.Success? ==> r.value <= graph.vertices.Keys && Dominates(graph.vertices, r.value)
  {
    var generator := new DominatingSetGenerator(graph);
    r := generator.GenerateGreedy();
    GreedyResultDominates(graph.vertices);
  }

  /** connectedGreedy: a fresh generator on a clone of the graph. Any set it returns
      dominates the graph and is built by growth from its first pick; on an undirected
      graph it induces a connected subgraph, and a nonempty connected undirected graph
      always gets one. */
  method ConnectedGreedy(graph: Graph) returns (r: Result<set<int>>)
    requires graph.Valid()
    ensures Ready(graph.vertices) && r == ConnectedResult(graph.directed, graph.vertices)
    ensures r.Success? ==> r.value <= graph.vertices.Keys && Dominates(graph.vertices, r.value)
    ensures !graph.directed && graph.vertices != map[] && AllReachableFrom(graph.vertices, Least(graph.vertices.Keys)) ==>
      r.Success?
    ensures r.Success? ==> BuiltByGrowth(graph.vertices, r.value)
    ensures r.Success? && !graph.directed ==> InducesConnected(graph.vertices, r.value)
  {
    var generator := new DominatingSetGenerator(graph);
    r := generator.GenerateConnectedGreedy();
    if !graph.directed {
      graph.UndirectedIsSymmetric();
    }
    ConnectedResultDominates(graph.directed, graph.vertices);
    ConnectedResultConnected(graph.directed, graph.vertices);
  }

  /** verify: a verifier over a fresh scratch graph answers whether the set dominates. */
  method Verify(dominatingSet: set<int>, graph: Graph) returns (b: bool)
    requires graph.Valid() && dominatingSet <= graph.vertices.Keys
    ensures b <==> Dominates(graph.vertices, dominatingSet)
  {
    var verifier := new SetVerifier(dominatingSet, graph);
    b := verifier.VerifySet();
  }

  /** The checker: the candidates and all their neighbours are gathered as the vertices of
      a scratch undirected graph, which must then hold every vertex of the original. */
  class SetVerifier {
    const dominatingSet: set<int>
    const originalGraph: Graph
    const dominatingSetGraph: Graph

    constructor (dominatingSet: set<int>, originalGraph: Graph)
      ensures this.dominatingSet == dominatingSet && this.originalGraph == originalGraph
      ensures fresh(dominatingSetGraph) && dominatingSetGraph.Valid() && dominatingSetGraph.vertices == map[]
    {
      this.dominatingSet := dominatingSet;
      this.originalGraph := originalGraph;
      var scratch := new Graph(false);
      dominatingSetGraph := scratch;
    }

    /** verifySet */
    method VerifySet() returns (b: bool)
      requires originalGraph.Valid() && dominatingSet <= originalGraph.vertices.Keys
      requires dominatingSetGraph.Valid() && dominatingSetGraph.vertices == map[] && dominatingSetGraph != originalGraph
      modifies dominatingSetGraph
      ensures b <==> Dominates(originalGraph.vertices, dominatingSet)
    {
      BuildDominatingSetGraph();
      b := CompareGraphs();
      DominatedIff(originalGraph.vertices, dominatingSet);
    }

    /** buildDominatingSetGraph: every candidate's neighbours, then the candidate itself. */
    method BuildDominatingSetGraph()
      requires originalGraph.Valid() && dominatingSet <= originalGraph.vertices.Keys
      requires dominatingSetGraph.Valid() && dominatingSetGraph.vertices == map[] && dominatingSetGraph != originalGraph
      modifies dominatingSetGraph
      ensures dominatingSetGraph.Valid()
      ensures dominatingSetGraph.vertices.Keys == Dominated(originalGraph.vertices, dominatingSet)
    {
      ghost var adj := originalGraph.vertices;
      originalGraph.NeighborsAreIds();
      assert IdsNatural(adj);
      var rest := dominatingSet;
      assert Dominated(adj, {}) == {};
      assert dominatingSet - rest == {};
      while rest != {}
        invariant rest <= dominatingSet && dominatingSetGraph.Valid()
        invariant dominatingSetGraph.vertices.Keys == Dominated(adj, dominatingSet - rest)
        decreases |rest|
      {
        ghost var g := PickOne(rest);
        var vertex :| vertex in rest;
        ghost var done := dominatingSet - rest;
        var originalGraphVertex := originalGraph.vertices[vertex];
        NeighborsWithin(adj, vertex);
        AddNeighborsToDominatingSetGraph(originalGraphVertex);
        AddSelfToDominatingSetGraph(vertex);
        DominatedStep(adj, done, vertex);
        Scanned(dominatingSet, rest, vertex);
        rest := rest - {vertex};
      }
      assert dominatingSet - rest == dominatingSet;
    }

    /** addNeighborsToDominatingSetGraph: each neighbour not yet present becomes a vertex,
        by the same test and addVertex call as addSelfToDominatingSetGraph. */
    method AddNeighborsToDominatingSetGraph(neighbors: set<int>)
      requires dominatingSetGraph.Valid() && forall n :: n in neighbors ==> n >= 0
      modifies dominatingSetGraph
      ensures dominatingSetGraph.Valid()
      ensures dominatingSetGraph.vertices.Keys == old(dominatingSetGraph.vertices.Keys) + neighbors
    {
      ghost var K0 := dominatingSetGraph.vertices.Keys;
      var rest := neighbors;
      while rest != {}
        invariant rest <= neighbors && dominatingSetGraph.Valid()
        invariant dominatingSetGraph.vertices.Keys == K0 + (neighbors - rest)
        decreases |rest|
      {
        ghost var g := PickOne(rest);
        var neighbor :| neighbor in rest;
        AddedStep(dominatingSetGraph.vertices.Keys, K0, neighbors, rest, neighbor);
        AddSelfToDominatingSetGraph(neighbor);
        rest := rest - {neighbor};
      }
    }

    /** addSelfToDominatingSetGraph */
    method AddSelfToDominatingSetGraph(vertex: int)
      requires dominatingSetGraph.Valid() && vertex >= 0
      modifies dominatingSetGraph
      ensures dominatingSetGraph.Valid()
      ensures dominatingSetGraph.vertices.Keys == old(dominatingSetGraph.vertices.Keys) + {vertex}
    {
      if vertex !in dominatingSetGraph.vertices {
        var _ := dominatingSetGraph.AddVertex(vertex);
      }
    }

    /** compareGraphs: false at the first original vertex missing from the scratch graph. */
    method CompareGraphs() returns (b: bool)
      ensures b <==> originalGraph.vertices.Keys <= dominatingSetGraph.vertices.Keys
    {
      var rest := originalGraph.vertices.Keys;
      while rest != {}
        invariant rest <= originalGraph.vertices.Keys
        invariant originalGraph.vertices.Keys - rest <= dominatingSetGraph.vertices.Keys
        decreases |rest|
      {
        ghost var g := PickOne(rest);
        var vertex :| vertex in rest;
        if vertex !in dominatingSetGraph.vertices {
          return false;
        }
        rest := rest - {vertex};
      }
      return true;
    }
  }
}
