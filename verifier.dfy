/** The stand-alone checker of a proposed dominating set. The candidates come with their
    own neighbour sets: every candidate and every neighbour it carries becomes a vertex of
    a scratch undirected graph, which must then hold every vertex of the original graph. */
module Verifier {
  import opened Paths
  import opened Graphs
  import opened Domination

  /** Every id of S is a valid vertex id. */
  ghost predicate AllNatural(S: set<int>)
  {
    forall v :: v in S ==> v >= 0
  }

  /** The candidates as the original graph's own vertices carry them. */
  function OwnVertices(adj: map<int, set<int>>, D: set<int>): (candidates: map<int, set<int>>)
    requires D <= adj.Keys
    ensures candidates.Keys == D
    ensures forall d :: d in D ==> candidates[d] == adj[d]
  {
    map d | d in D :: adj[d]
  }

  /** verify: the scratch graph refuses a negative id, which ends the check with that
      error; otherwise the answer is whether the candidates and their neighbours cover
      every vertex of the original graph. */
  method Verify(candidates: map<int, set<int>>, originalGraph: Graph) returns (r: Result<bool>)
    requires originalGraph.Valid()
    ensures r.Failure? <==> !AllNatural(Dominated(candidates, candidates.Keys))
    ensures r.Failure? ==> r.error == InvalidVertex
    ensures r.Success? ==> r.value == (originalGraph.vertices.Keys <= Dominated(candidates, candidates.Keys))
  {
    var dominatingSetGraph := new Graph(false);
    var rest := candidates.Keys;
    assert candidates.Keys - rest == {};
    assert Dominated(candidates, {}) == {};
    while rest != {}
      invariant rest <= candidates.Keys && dominatingSetGraph.Valid() && fresh(dominatingSetGraph)
      invariant dominatingSetGraph.vertices.Keys == Dominated(candidates, candidates.Keys - rest)
      decreases |rest|
    {
      ghost var g := PickOne(rest);
      var vertex :| vertex in rest;
      ghost var done := candidates.Keys - rest;
      var o := AddIds(dominatingSetGraph, candidates[vertex]);
      if o.Fail? {
        RefusedIds(candidates, vertex, candidates[vertex]);
        return Failure(o.error);
      }
      o := AddIds(dominatingSetGraph, {vertex});
      if o.Fail? {
        RefusedIds(candidates, vertex, {vertex});
        return Failure(o.error);
      }
      DominatedStep(candidates, done, vertex);
      Scanned(candidates.Keys, rest, vertex);
      rest := rest - {vertex};
    }
    assert candidates.Keys - rest == candidates.Keys;
    assert AllNatural(dominatingSetGraph.vertices.Keys);
    var covered := CompareVertexSets(originalGraph.vertices.Keys, dominatingSetGraph.vertices.Keys);
    return Success(covered);
  }

  /** The insertion step of verify: each id not yet a vertex of the scratch graph is added,
      and the first negative one is refused. */
  method AddIds(g: Graph, ids: set<int>) returns (o: Outcome)
    requires g.Valid()
    modifies g
    ensures g.Valid()
    ensures o.Ok? <==> AllNatural(ids)
    ensures o.Fail? ==> o.error == InvalidVertex
    ensures o.Ok? ==> g.vertices.Keys == old(g.vertices.Keys) + ids
  {
    ghost var K0 := g.vertices.Keys;
    var rest := ids;
    while rest != {}
      invariant rest <= ids && g.Valid()
      invariant g.vertices.Keys == K0 + (ids - rest)
      invariant AllNatural(ids - rest)
      decreases |rest|
    {
      ghost var h := PickOne(rest);
      var id :| id in rest;
      AddedStep(g.vertices.Keys, K0, ids, rest, id);
      o := AddId(g, id);
      if o.Fail? {
        return;
      }
      NaturalStep(ids, rest, id);
      Scanned(ids, rest, id);
      rest := rest - {id};
    }
    assert ids - rest == ids;
    return Ok;
  }

  /** The test-and-add of one id: a vertex already present is left alone. */
  method AddId(g: Graph, id: int) returns (o: Outcome)
    requires g.Valid()
    modifies g
    ensures g.Valid()
    ensures o.Ok? <==> id >= 0
    ensures o.Fail? ==> o.error == InvalidVertex
    ensures o.Ok? ==> g.vertices.Keys == old(g.vertices.Keys) + {id}
  {
    if id !in g.vertices {
      o := g.AddVertex(id);
    } else {
      assert IdsNatural(g.vertices);
      o := Ok;
    }
  }

  /** One more natural id scanned. */
  lemma NaturalStep(ids: set<int>, rest: set<int>, id: int)
    requires rest <= ids && id in rest && AllNatural(ids - rest) && id >= 0
    ensures AllNatural(ids - (rest - {id}))
  {
    assert ids - (rest - {id}) == (ids - rest) + {id};
  }

  /** The final loop of verify: false at the first original vertex missing from the
      scratch graph. */
  method CompareVertexSets(original: set<int>, gathered: set<int>) returns (b: bool)
    ensures b <==> original <= gathered
  {
    var rest := original;
    while rest != {}
      invariant rest <= original
      invariant original - rest <= gathered
      decreases |rest|
    {
      ghost var g := PickOne(rest);
      var vertex :| vertex in rest;
      if vertex !in gathered {
        return false;
      }
      rest := rest - {vertex};
    }
    return true;
  }

  /** A refused id is negative and belongs to the candidates with their neighbours. */
  lemma RefusedIds(candidates: map<int, set<int>>, vertex: int, S: set<int>)
    requires vertex in candidates && S <= candidates[vertex] + {vertex}
    requires !AllNatural(S)
    ensures !AllNatural(Dominated(candidates, candidates.Keys))
  {
    var id :| id in S && id < 0;
    assert id in Dominated(candidates, candidates.Keys);
  }

  /** Checking the original graph's own vertices answers exactly whether they dominate
      it: the scratch graph never sees a negative id, and the cover test is domination. */
  lemma {:induction false} VerifyOwnVertices(adj: map<int, set<int>>, D: set<int>)
    requires Ready(adj) && D <= adj.Keys
    ensures AllNatural(Dominated(OwnVertices(adj, D), D))
    ensures adj.Keys <= Dominated(OwnVertices(adj, D), D) <==> Dominates(adj, D)
  {
    var candidates := OwnVertices(adj, D);
    assert Dominated(candidates, D) == Dominated(adj, D) by {
      forall v
        ensures v in Dominated(candidates, D) <==> v in Dominated(adj, D)
      {
        if v in Dominated(adj, D) && v !in D {
          var d :| d in D && d in adj && v in adj[d];
          assert v in candidates[d];
        }
      }
    }
    forall v | v in Dominated(adj, D)
      ensures v >= 0
    {
      if v !in D {
        var d :| d in D && d in adj && v in adj[d];
        NeighborsWithin(adj, d);
      }
    }
    DominatedIff(adj, D);
  }
}
