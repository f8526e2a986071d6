/** The graph store: vertices keyed by id, each with its set of neighbour ids, and edges
    filed under both of their endpoints. One class covers both variants; `directed`
    selects how edges are built and which neighbour references they register. */
module Graphs {
  import opened Edges
  import opened Paths

  /** The reasons an operation refuses its arguments. The last two belong to the
      dominating-set generators: NoConnectedSet is the empty answer of the connected
      generator, NoProgress a state in which no vertex can be picked. */
  datatype Error =
    | InvalidVertex
    | DuplicateVertex
    | UnknownVertex
    | DuplicateEdge
    | UnknownEdge
    | EmptyGraph
    | NoConnectedSet
    | NoProgress

  datatype Outcome = Ok | Fail(error: Error)

  datatype Result<T> = Success(value: T) | Failure(error: Error)

  /** w is a neighbour of u under edge set E. */
  ghost predicate Linked(directed: bool, E: set<Edge>, u: int, w: int)
  {
    Edge(u, w) in E || (!directed && Edge(w, u) in E)
  }

  /** The edges that touch v. */
  ghost function Incident(E: set<Edge>, v: int): set<Edge>
  {
    set e | e in E && (e.a == v || e.b == v)
  }

  /** The least element of a nonempty set of ids. */
  ghost function Least(s: set<int>): (m: int)
    requires s != {}
    ensures m in s && forall k :: k in s ==> m <= k
  {
    LeastExists(s);
    var m :| m in s && forall k :: k in s ==> m <= k;
    m
  }

  lemma LeastExists(s: set<int>)
    requires s != {}
    ensures exists m :: m in s && forall k :: k in s ==> m <= k
  {
    var m := LeastOf(s);
    assert m in s && forall k :: k in s ==> m <= k;
  }

  lemma {:induction false} LeastOf(s: set<int>) returns (m: int)
    requires s != {}
    ensures m in s && forall k :: k in s ==> m <= k
    decreases |s|
  {
    var x := PickOne(s);
    if s == {x} {
      m := x;
    } else {
      var rest := s - {x};
      assert rest != {} by {
        var y := PickOutside(s, {x});
        assert y in rest;
      }
      var r := LeastOf(rest);
      m := if x <= r then x else r;
      forall k | k in s
        ensures m <= k
      {
        if k != x {
          assert k in rest;
        }
      }
    }
  }

  /** Vertex ids are never negative. */
  ghost predicate IdsNatural(vertices: map<int, set<int>>)
  {
    forall v :: v in vertices ==> v >= 0
  }

  /** Both endpoints of every edge are vertices and have buckets. */
  ghost predicate EndpointsPresent(vertices: map<int, set<int>>, edges: map<int, set<Edge>>, E: set<Edge>)
  {
    forall e :: e in E ==> e.a in vertices && e.b in vertices && e.a in edges && e.b in edges
  }

  /** Undirected edges are stored as (min, max). */
  ghost predicate Normalised(E: set<Edge>)
  {
    forall e :: e in E ==> e.a <= e.b
  }

  /** A bucket holds exactly the edges that touch its id. */
  ghost predicate BucketsExact(edges: map<int, set<Edge>>, E: set<Edge>)
  {
    forall k, e :: k in edges ==> (e in edges[k] <==> e in E && (e.a == k || e.b == k))
  }

  /** A neighbour set holds exactly the ids its vertex is linked to. */
  ghost predicate NeighborsExact(directed: bool, vertices: map<int, set<int>>, E: set<Edge>)
  {
    forall v, w :: v in vertices ==> (w in vertices[v] <==> Linked(directed, E, v, w))
  }

  /** The invariant of a graph: natural ids, present endpoints, normalised undirected
      edges, exact buckets and neighbour sets, and an edge count equal to the number of
      distinct edges. */
  ghost predicate WellFormed(directed: bool, vertices: map<int, set<int>>, edges: map<int, set<Edge>>, numEdges: nat, E: set<Edge>)
  {
    && IdsNatural(vertices)
    && EndpointsPresent(vertices, edges, E)
    && (!directed ==> Normalised(E))
    && BucketsExact(edges, E)
    && NeighborsExact(directed, vertices, E)
    && numEdges == |E|
  }

  /** Adding a new edge whose buckets and neighbour references are in place keeps a
      graph well formed, with one more edge counted. */
  lemma AddKeepsWellFormed(directed: bool, vertices0: map<int, set<int>>, edges0: map<int, set<Edge>>, n0: nat, E0: set<Edge>,
                           vertices1: map<int, set<int>>, edges1: map<int, set<Edge>>, e: Edge)
    requires WellFormed(directed, vertices0, edges0, n0, E0)
    requires e !in E0 && e.a in vertices0 && e.b in vertices0 && (!directed ==> e.a <= e.b)
    requires vertices1.Keys == vertices0.Keys && edges1.Keys == edges0.Keys + {e.a, e.b}
    requires BucketsExact(edges1, E0 + {e}) && NeighborsExact(directed, vertices1, E0 + {e})
    ensures WellFormed(directed, vertices1, edges1, n0 + 1, E0 + {e})
  {
  }

  /** Removing a present edge whose buckets and neighbour references are cleared keeps a
      graph well formed, with one edge fewer counted. */
  lemma RemoveKeepsWellFormed(directed: bool, vertices0: map<int, set<int>>, edges0: map<int, set<Edge>>, n0: nat, E0: set<Edge>,
                              vertices1: map<int, set<int>>, edges1: map<int, set<Edge>>, e: Edge)
    requires WellFormed(directed, vertices0, edges0, n0, E0)
    requires e in E0
    requires vertices1.Keys == vertices0.Keys && edges1.Keys == edges0.Keys
    requires BucketsExact(edges1, E0 - {e}) && NeighborsExact(directed, vertices1, E0 - {e})
    ensures n0 >= 1 && WellFormed(directed, vertices1, edges1, n0 - 1, E0 - {e})
  {
  }

  /** The buckets after e has been filed under both of its endpoints. */
  lemma BucketsAfterAdd(edges0: map<int, set<Edge>>, edges1: map<int, set<Edge>>, E: set<Edge>, e: Edge)
    requires BucketsExact(edges0, E)
    requires forall f :: f in E ==> f.a in edges0 && f.b in edges0
    requires edges1.Keys == edges0.Keys + {e.a, e.b}
    requires forall k :: k in edges1 ==>
      edges1[k] == (if k in edges0 then edges0[k] else {}) + (if k == e.a || k == e.b then {e} else {})
    ensures BucketsExact(edges1, E + {e})
  {
  }

  /** The buckets after e has been taken out of the buckets of both of its endpoints. */
  lemma BucketsAfterRemove(edges0: map<int, set<Edge>>, edges1: map<int, set<Edge>>, E: set<Edge>, e: Edge)
    requires BucketsExact(edges0, E)
    requires edges1.Keys == edges0.Keys
    requires forall k :: k in edges1 ==> edges1[k] == edges0[k] - (if k == e.a || k == e.b then {e} else {})
    ensures BucketsExact(edges1, E - {e})
  {
  }

  /** The neighbour sets after e has been registered. */
  lemma NeighborsAfterAdd(directed: bool, vertices0: map<int, set<int>>, vertices1: map<int, set<int>>, E: set<Edge>, e: Edge)
    requires NeighborsExact(directed, vertices0, E)
    requires vertices1.Keys == vertices0.Keys
    requires forall v, w :: v in vertices1 ==>
      (w in vertices1[v] <==> w in vertices0[v] || (v == e.a && w == e.b) || (!directed && v == e.b && w == e.a))
    ensures NeighborsExact(directed, vertices1, E + {e})
  {
    forall v, w | v in vertices1
      ensures w in vertices1[v] <==> Linked(directed, E + {e}, v, w)
    {
      assert w in vertices0[v] <==> Linked(directed, E, v, w);
    }
  }

  /** The neighbour sets after the references of e have been dropped; e must be the only
      edge linking its endpoints, which normalisation guarantees. */
  lemma NeighborsAfterRemove(directed: bool, vertices0: map<int, set<int>>, vertices1: map<int, set<int>>, E: set<Edge>, e: Edge)
    requires NeighborsExact(directed, vertices0, E)
    requires e in E && (!directed ==> Normalised(E))
    requires vertices1.Keys == vertices0.Keys
    requires forall v, w :: v in vertices1 ==>
      (w in vertices1[v] <==> w in vertices0[v] && !(v == e.a && w == e.b) && !(!directed && v == e.b && w == e.a))
    ensures NeighborsExact(directed, vertices1, E - {e})
  {
    forall v, w | v in vertices1
      ensures w in vertices1[v] <==> Linked(directed, E - {e}, v, w)
    {
      assert w in vertices0[v] <==> Linked(directed, E, v, w);
      if !directed && Edge(w, v) in E && Edge(v, w) in E {
        assert v == w;
      }
    }
  }

  /** The neighbour sets once every edge touching v is gone and v itself is dropped. */
  lemma NeighborsAfterVertexRemoval(directed: bool, vertices0: map<int, set<int>>, E0: set<Edge>, v: int)
    requires NeighborsExact(directed, vertices0, E0)
    ensures NeighborsExact(directed, map u | u in vertices0 && u != v :: vertices0[u] - {v}, E0 - Incident(E0, v))
  {
    var vertices1 := map u | u in vertices0 && u != v :: vertices0[u] - {v};
    forall u, w | u in vertices1
      ensures w in vertices1[u] <==> Linked(directed, E0 - Incident(E0, v), u, w)
    {
      assert w in vertices0[u] <==> Linked(directed, E0, u, w);
      assert Edge(u, w) in Incident(E0, v) <==> Edge(u, w) in E0 && w == v;
      assert Edge(w, u) in Incident(E0, v) <==> Edge(w, u) in E0 && w == v;
    }
  }

  /** Once every edge touching v is gone, dropping v keeps the graph well formed, and
      every other vertex has lost exactly v from its neighbours. */
  lemma VertexRemovalKeepsWellFormed(directed: bool, vertices0: map<int, set<int>>, E0: set<Edge>,
                                     vertices1: map<int, set<int>>, edges1: map<int, set<Edge>>, n1: nat, E1: set<Edge>, v: int)
    requires NeighborsExact(directed, vertices0, E0)
    requires WellFormed(directed, vertices1, edges1, n1, E1)
    requires vertices1.Keys == vertices0.Keys && E1 == E0 - Incident(E0, v)
    ensures WellFormed(directed, map u | u in vertices1 && u != v :: vertices1[u], edges1, n1, E1)
    ensures (map u | u in vertices1 && u != v :: vertices1[u]) == (map u | u in vertices0 && u != v :: vertices0[u] - {v})
  {
    var vertices2 := map u | u in vertices1 && u != v :: vertices1[u];
    NeighborsAfterVertexRemoval(directed, vertices0, E0, v);
    NeighborsDetermined(directed, vertices2, map u | u in vertices0 && u != v :: vertices0[u] - {v}, E1);
    forall e | e in E1
      ensures e.a in vertices2 && e.b in vertices2
    {
      assert e !in Incident(E0, v);
    }
  }

  /** Neighbour sets are fixed by the vertex ids and the edge set. */
  lemma NeighborsDetermined(directed: bool, vertices0: map<int, set<int>>, vertices1: map<int, set<int>>, E: set<Edge>)
    requires vertices0.Keys == vertices1.Keys
    requires NeighborsExact(directed, vertices0, E) && NeighborsExact(directed, vertices1, E)
    ensures vertices0 == vertices1
  {
    forall v | v in vertices0
      ensures vertices0[v] == vertices1[v]
    {
      assert forall w :: w in vertices0[v] <==> w in vertices1[v];
    }
  }

  /** The bucket of v (none at all counts as empty) is the set of edges touching v. */
  lemma BucketIsIncident(edges: map<int, set<Edge>>, vertices: map<int, set<int>>, E: set<Edge>, v: int)
    requires BucketsExact(edges, E) && EndpointsPresent(vertices, edges, E)
    ensures (if v in edges then edges[v] else {}) == Incident(E, v)
  {
    if v !in edges {
      forall e | e in E
        ensures e !in Incident(E, v)
      {
        assert e.a in edges && e.b in edges;
      }
    }
  }

  lemma RemovalStep<T>(A: set<T>, I: set<T>, R: set<T>, e: T)
    requires R <= I && e in R
    ensures (A - (I - R)) - {e} == A - (I - (R - {e}))
  {
  }

  /** Once nothing is left to remove, exactly the incident edges are gone and the count
      has dropped by their number. */
  lemma RemovedIncident(E0: set<Edge>, E1: set<Edge>, inc: set<Edge>, rest: set<Edge>, incident: set<Edge>, n0: nat, n1: nat)
    requires inc == incident && inc <= E0 && rest == {}
    requires E1 == E0 - (inc - rest) && n0 == |E0| && n1 == |E1|
    ensures E1 == E0 - incident && n1 == n0 - |incident|
  {
    CardinalityOfRemoval(E0, inc);
  }

  /** A part of K as large as K is all of K. */
  lemma AllSeen<T>(K: set<T>, S: set<T>)
    requires S <= K && |S| == |K|
    ensures S == K
  {
    CardinalityOfRemoval(K, S);
    assert K - S == {};
  }

  /** One more element of S scanned. */
  lemma Scanned(S: set<int>, rest: set<int>, x: int)
    requires x in rest && rest <= S
    ensures S - rest + {x} == S - (rest - {x})
  {
  }

  /** One more id added to a set that already holds K0 and the scanned part of N. */
  lemma AddedStep(K: set<int>, K0: set<int>, N: set<int>, rest: set<int>, n: int)
    requires K == K0 + (N - rest) && n in rest && rest <= N
    ensures K + {n} == K0 + (N - (rest - {n}))
  {
  }

  /** Growing S inside K shrinks what is left of K. */
  lemma ShrinkingComplement<T>(K: set<T>, S0: set<T>, S1: set<T>)
    requires S0 <= S1 <= K && S0 != S1
    ensures |K - S1| < |K - S0|
  {
    var t := PickOutside(S1, S0);
    assert K - S1 == (K - S0) - (S1 - S0);
    CardinalityOfRemoval(K - S0, S1 - S0);
    assert |S1 - S0| > 0 by {
      assert t in S1 - S0;
    }
  }

  lemma CardinalityOfRemoval<T>(A: set<T>, B: set<T>)
    requires B <= A
    ensures |A - B| == |A| - |B|
  {
    assert A * B == B;
  }

  class Graph {
    const directed: bool
    /** id -> ids of the neighbours (the out-neighbours of a directed graph) */
    var vertices: map<int, set<int>>
    /** id -> the edges filed under that id; a bucket outlives the removal of its vertex */
    var edges: map<int, set<Edge>>
    var numEdges: nat
    /** the edges of the graph */
    ghost var E: set<Edge>

    ghost predicate Valid()
      reads this
    {
      WellFormed(directed, vertices, edges, numEdges, E)
    }

    constructor (directed: bool)
      ensures Valid() && this.directed == directed
      ensures vertices == map[] && edges == map[] && numEdges == 0 && E == {}
    {
      this.directed := directed;
      vertices := map[];
      edges := map[];
      numEdges := 0;
      E := {};
    }

    /** Every neighbour id is the id of a vertex of the graph. */
    lemma NeighborsAreIds()
      requires Valid()
      ensures NeighborsAreVertices(vertices)
    {
      forall v, w | v in vertices && w in vertices[v]
        ensures w in vertices
      {
        assert Linked(directed, E, v, w);
      }
    }

    /** An undirected graph's neighbour sets go both ways. */
    lemma UndirectedIsSymmetric()
      requires Valid() && !directed
      ensures Symmetric(vertices)
    {
      forall v, w | v in vertices && w in vertices[v]
        ensures w in vertices && v in vertices[w]
      {
        assert Linked(directed, E, v, w);
        assert Linked(directed, E, w, v);
      }
    }

    /** Each edge sits in the buckets of both of its endpoints. */
    lemma EdgeInBothBuckets(e: Edge)
      requires Valid() && e in E
      ensures e.a in edges && e in edges[e.a] && e.b in edges && e in edges[e.b]
    {
    }

    /** addVertex: a duplicate id is refused first, then a negative one; otherwise the id
        gets an empty neighbour set and nothing else changes. */
    method AddVertex(value: int) returns (r: Outcome)
      requires Valid()
      modifies this
      ensures Valid()
      ensures value in old(vertices) ==> r == Fail(DuplicateVertex) && unchanged(this)
      ensures value !in old(vertices) && value < 0 ==> r == Fail(InvalidVertex) && unchanged(this)
      ensures value !in old(vertices) && value >= 0 ==>
        && r == Ok
        && vertices == old(vertices)[value := {}]
        && edges == old(edges) && E == old(E) && numEdges == old(numEdges)
    {
      if value in vertices {
        return Fail(DuplicateVertex);
      }
      if value < 0 {
        return Fail(InvalidVertex);
      }
      vertices := vertices[value := {}];
      r := Ok;
      forall v, w | v in vertices
        ensures w in vertices[v] <==> Linked(directed, E, v, w)
      {
        if v == value {
          assert !(Edge(v, w) in E) && !(Edge(w, v) in E);
        }
      }
    }

    /** edgeIsInMap: false when either endpoint has no bucket, otherwise membership in
        one of the two buckets; this is exactly membership in the edge set. */
    function EdgeIsInMap(e: Edge): (r: bool)
      requires Valid()
      reads this
      ensures r <==> e in E
    {
      if e.a !in edges || e.b !in edges then false
      else e in edges[e.a] || e in edges[e.b]
    }

    /** addReferenceToMap: file e under `reference`, creating the bucket if needed. */
    method AddReferenceToMap(reference: int, e: Edge)
      modifies this`edges
      ensures edges.Keys == old(edges.Keys) + {reference}
      ensures edges[reference] == (if reference in old(edges) then old(edges)[reference] else {}) + {e}
      ensures forall k :: k in edges && k != reference ==> edges[k] == old(edges)[k]
    {
      var bucket := if reference in edges then edges[reference] else {};
      edges := edges[reference := bucket + {e}];
    }

    /** addEdgeToMap: e joins the buckets of both endpoints (one bucket for a self-loop). */
    method AddEdgeToMap(e: Edge)
      requires BucketsExact(edges, E) && forall f :: f in E ==> f.a in edges && f.b in edges
      modifies this`edges
      ensures edges.Keys == old(edges.Keys) + {e.a, e.b}
      ensures forall k :: k in edges ==>
        edges[k] == (if k in old(edges) then old(edges)[k] else {}) + (if k == e.a || k == e.b then {e} else {})
      ensures BucketsExact(edges, E + {e})
    {
      AddReferenceToMap(e.a, e);
      AddReferenceToMap(e.b, e);
      BucketsAfterAdd(old(edges), edges, E, e);
    }

    /** addNeighborToVertices: b becomes a neighbour of a, and for an undirected graph a
        also becomes a neighbour of b. */
    method AddNeighborToVertices(e: Edge)
      requires e.a in vertices && e.b in vertices && NeighborsExact(directed, vertices, E)
      modifies this`vertices
      ensures vertices.Keys == old(vertices.Keys)
      ensures forall v, w :: v in vertices ==>
        (w in vertices[v] <==> w in old(vertices)[v] || (v == e.a && w == e.b) || (!directed && v == e.b && w == e.a))
      ensures NeighborsExact(directed, vertices, E + {e})
    {
      vertices := vertices[e.a := vertices[e.a] + {e.b}];
      if !directed {
        vertices := vertices[e.b := vertices[e.b] + {e.a}];
      }
      NeighborsAfterAdd(directed, old(vertices), vertices, E, e);
    }

    /** addEdgeToGraph: file e in the buckets and register its neighbour references. */
    method AddEdgeToGraph(e: Edge)
      requires Valid() && e !in E && e.a in vertices && e.b in vertices && (!directed ==> e.a <= e.b)
      modifies this`edges, this`vertices
      ensures WellFormed(directed, vertices, edges, numEdges + 1, E + {e})
      ensures edges.Keys == old(edges.Keys) + {e.a, e.b}
      ensures vertices.Keys == old(vertices.Keys)
      ensures forall v, w :: v in vertices ==>
        (w in vertices[v] <==> w in old(vertices)[v] || (v == e.a && w == e.b) || (!directed && v == e.b && w == e.a))
    {
      ghost var vertices0, edges0 := vertices, edges;
      assert WellFormed(directed, vertices0, edges0, numEdges, E);
      AddEdgeToMap(e);
      AddNeighborToVertices(e);
      AddKeepsWellFormed(directed, vertices0, edges0, numEdges, E, vertices, edges, e);
    }

    /** addEdge: the endpoints must exist (a checked before b) and the edge must be new;
        a refused edge changes nothing. */
    method AddEdge(start: int, end: int) returns (r: Outcome)
      requires Valid()
      modifies this
      ensures Valid()
      ensures var e := CreateEdge(directed, start, end);
        if e.a !in old(vertices) || e.b !in old(vertices) then
          r == Fail(UnknownVertex) && unchanged(this)
        else if e in old(E) then
          r == Fail(DuplicateEdge) && unchanged(this)
        else
          && r == Ok
          && E == old(E) + {e}
          && numEdges == old(numEdges) + 1
          && edges.Keys == old(edges.Keys) + {e.a, e.b}
          && vertices.Keys == old(vertices.Keys)
          && (forall v, w :: v in vertices ==>
                (w in vertices[v] <==> w in old(vertices)[v] || (v == e.a && w == e.b) || (!directed && v == e.b && w == e.a)))
    {
      var e := CreateEdge(directed, start, end);
      if e.a !in vertices || e.b !in vertices {
        return Fail(UnknownVertex);
      }
      if EdgeIsInMap(e) {
        return Fail(DuplicateEdge);
      }
      AddEdgeToGraph(e);
      numEdges := numEdges + 1;
      E := E + {e};
      r := Ok;
    }

    /** removeEdgeFromMap: e leaves both endpoint buckets; the buckets themselves stay. */
    method RemoveEdgeFromMap(e: Edge)
      requires e.a in edges && e.b in edges && BucketsExact(edges, E)
      modifies this`edges
      ensures edges.Keys == old(edges.Keys)
      ensures forall k :: k in edges ==> edges[k] == old(edges)[k] - (if k == e.a || k == e.b then {e} else {})
      ensures BucketsExact(edges, E - {e})
    {
      edges := edges[e.a := edges[e.a] - {e}];
      edges := edges[e.b := edges[e.b] - {e}];
      BucketsAfterRemove(old(edges), edges, E, e);
    }

    /** removeNeighborReferenceFromVertices: b leaves a's neighbours, and for an
        undirected graph a also leaves b's. */
    method RemoveNeighborReferenceFromVertices(e: Edge)
      requires e.a in vertices && e.b in vertices
      requires NeighborsExact(directed, vertices, E) && e in E && (!directed ==> Normalised(E))
      modifies this`vertices
      ensures vertices.Keys == old(vertices.Keys)
      ensures forall v, w :: v in vertices ==>
        (w in vertices[v] <==> w in old(vertices)[v] && !(v == e.a && w == e.b) && !(!directed && v == e.b && w == e.a))
      ensures NeighborsExact(directed, vertices, E - {e})
    {
      vertices := vertices[e.a := vertices[e.a] - {e.b}];
      if !directed {
        vertices := vertices[e.b := vertices[e.b] - {e.a}];
      }
      NeighborsAfterRemove(directed, old(vertices), vertices, E, e);
    }

    /** removeEdgeFromGraph: take e out of the buckets and drop its neighbour references. */
    method RemoveEdgeFromGraph(e: Edge)
      requires Valid() && e in E
      modifies this`edges, this`vertices
      ensures numEdges >= 1 && WellFormed(directed, vertices, edges, numEdges - 1, E - {e})
      ensures edges.Keys == old(edges.Keys)
      ensures vertices.Keys == old(vertices.Keys)
      ensures forall v, w :: v in vertices ==>
        (w in vertices[v] <==> w in old(vertices)[v] && !(v == e.a && w == e.b) && !(!directed && v == e.b && w == e.a))
    {
      ghost var vertices0, edges0 := vertices, edges;
      assert WellFormed(directed, vertices0, edges0, numEdges, E);
      RemoveEdgeFromMap(e);
      RemoveNeighborReferenceFromVertices(e);
      RemoveKeepsWellFormed(directed, vertices0, edges0, numEdges, E, vertices, edges, e);
    }

    /** removeEdge: the arguments are turned into an edge the way addEdge does it (kept
        in order for a directed graph, normalised otherwise); an absent edge is refused. */
    method RemoveEdge(start: int, end: int) returns (r: Outcome)
      requires Valid()
      modifies this
      ensures Valid()
      ensures var e := CreateEdge(directed, start, end);
        if e !in old(E) then
          r == Fail(UnknownEdge) && unchanged(this)
        else
          && r == Ok
          && E == old(E) - {e}
          && numEdges == old(numEdges) - 1
          && edges.Keys == old(edges.Keys)
          && vertices.Keys == old(vertices.Keys)
          && (forall v, w :: v in vertices ==>
                (w in vertices[v] <==> w in old(vertices)[v] && !(v == e.a && w == e.b) && !(!directed && v == e.b && w == e.a)))
    {
      var e := CreateEdge(directed, start, end);
      if !EdgeIsInMap(e) {
        return Fail(UnknownEdge);
      }
      RemoveEdgeFromGraph(e);
      numEdges := numEdges - 1;
      E := E - {e};
      r := Ok;
    }

    /** removeAllConnectedEdges: every edge in v's bucket is removed through RemoveEdge,
        one at a time, from a copy of the bucket. */
    method RemoveAllConnectedEdges(v: int)
      requires Valid()
      modifies this
      ensures Valid()
      ensures E == old(E) - Incident(old(E), v)
      ensures numEdges == old(numEdges) - |Incident(old(E), v)|
      ensures vertices.Keys == old(vertices.Keys) && edges.Keys == old(edges.Keys)
    {
      var toRemove: set<Edge> := if v in edges then edges[v] else {};
      ghost var inc := toRemove;
      BucketIsIncident(edges, vertices, E, v);
      assert inc <= E;
      while toRemove != {}
        invariant Valid()
        invariant toRemove <= inc
        invariant E == old(E) - (inc - toRemove)
        invariant vertices.Keys == old(vertices.Keys) && edges.Keys == old(edges.Keys)
        decreases |toRemove|
      {
        ghost var g := PickOne(toRemove);
        var e :| e in toRemove;
        RemoveStoredEdge(e);
        RemovalStep(old(E), inc, toRemove, e);
        toRemove := toRemove - {e};
      }
      RemovedIncident(old(E), E, inc, toRemove, Incident(old(E), v), old(numEdges), numEdges);
    }

    /** One step of removeEdgesFromGraph: a stored edge handed back to removeEdge by its
        own endpoints is always found. */
    method RemoveStoredEdge(e: Edge)
      requires Valid() && e in E
      modifies this
      ensures Valid() && E == old(E) - {e}
      ensures vertices.Keys == old(vertices.Keys) && edges.Keys == old(edges.Keys)
    {
      CreateEdgeOfStored(directed, e);
      var _ := RemoveEdge(e.a, e.b);
    }

    /** An edge that is new, whose endpoints are vertices and which is stored the way this
        graph stores edges is always accepted by addEdge when handed over by its endpoints. */
    method AddFreshEdge(e: Edge)
      requires Valid() && e !in E && e.a in vertices && e.b in vertices && (!directed ==> e.a <= e.b)
      modifies this
      ensures Valid() && E == old(E) + {e} && vertices.Keys == old(vertices.Keys)
    {
      CreateEdgeOfStored(directed, e);
      var _ := AddEdge(e.a, e.b);
    }

    /** removeVertex: an absent id is refused; otherwise the vertex loses every edge that
        touches it and is then dropped. Buckets are kept, emptied of those edges. */
    method RemoveVertex(v: int) returns (r: Outcome)
      requires Valid()
      modifies this
      ensures Valid()
      ensures v !in old(vertices) ==> r == Fail(UnknownVertex) && unchanged(this)
      ensures v in old(vertices) ==>
        && r == Ok
        && E == old(E) - Incident(old(E), v)
        && numEdges == old(numEdges) - |Incident(old(E), v)|
        && vertices == (map u | u in old(vertices) && u != v :: old(vertices)[u] - {v})
        && edges.Keys == old(edges.Keys)
    {
      if v !in vertices {
        return Fail(UnknownVertex);
      }
      ghost var vertices0, E0 := vertices, E;
      assert NeighborsExact(directed, vertices0, E0);
      RemoveAllConnectedEdges(v);
      VertexRemovalKeepsWellFormed(directed, vertices0, E0, vertices, edges, numEdges, E, v);
      vertices := map u | u in vertices && u != v :: vertices[u];
      r := Ok;
    }

    /** The first vertex the search starts from: the least id, the order in which a hash
        map of small integer keys yields its entries. */
    method FirstVertex() returns (first: int)
      requires Valid() && vertices != map[]
      ensures first == Least(vertices.Keys)
    {
      var rest := vertices.Keys;
      ghost var g := PickOne(rest);
      first :| first in rest;
      rest := rest - {first};
      while rest != {}
        invariant first in vertices && rest <= vertices.Keys
        invariant forall k :: k in vertices && k !in rest ==> first <= k
        decreases |rest|
      {
        ghost var h := PickOne(rest);
        var k :| k in rest;
        if k < first {
          first := k;
        }
        rest := rest - {k};
      }
    }

    /** isConnected (breadthFirstSearch): refused on an empty graph; otherwise a search
        from the first vertex, answering whether every vertex is reachable from it. */
    method IsConnected() returns (r: Result<bool>)
      requires Valid()
      ensures vertices == map[] ==> r == Failure(EmptyGraph)
      ensures vertices != map[] ==> r == Success(AllReachableFrom(vertices, Least(vertices.Keys)))
    {
      if |vertices| == 0 {
        return Failure(EmptyGraph);
      }
      var first := FirstVertex();
      var connected := PerformBfs(first);
      return Success(connected);
    }

    /** performBFS: the search stops with true as soon as it has seen as many vertices as
        the graph has, and with false once the queue runs dry. */
    method PerformBfs(first: int) returns (connected: bool)
      requires Valid() && first in vertices
      ensures connected == AllReachableFrom(vertices, first)
    {
      NeighborsAreIds();
      var queue := [first];
      var seen := {first};
      ghost var done: set<int> := {};
      ReachableSelf(vertices, first);
      while queue != []
        invariant seen <= vertices.Keys && first in seen && done <= seen
        invariant forall x :: x in seen ==> Reachable(vertices, first, x)
        invariant forall i :: 0 <= i < |queue| ==> queue[i] in seen
        invariant forall x :: x in seen ==> x in done || x in queue
        invariant forall x, y :: x in done && y in vertices[x] ==> y in seen
        invariant queue == [] ==> seen != vertices.Keys
        decreases |vertices.Keys - seen|, |queue|
      {
        var x := queue[0];
        assert x in seen;
        queue := queue[1..];
        if |seen| == |vertices| {
          AllSeen(vertices.Keys, seen);
          return true;
        }
        var seen1, queue1 := AddNeighborsToQueue(x, seen, queue);
        forall y | y in seen1
          ensures Reachable(vertices, first, y)
        {
          if y !in seen {
            ReachableStep(vertices, first, x, y);
          }
        }
        forall y | y in seen1
          ensures y in done + {x} || y in queue1
        {
          if y in seen && y != x && y !in done {
            assert y in queue;
            var k :| 0 <= k < |queue| && queue[k] == y;
            assert queue1[k] == y;
          } else if y !in seen {
            assert y in queue1[|queue|..];
            var k :| |queue| <= k < |queue1| && queue1[k] == y;
          }
        }
        forall i | 0 <= i < |queue1|
          ensures queue1[i] in seen1
        {
          if i < |queue| {
            assert queue1[i] == queue1[..|queue|][i];
          } else {
            assert queue1[|queue|..][i - |queue|] == queue1[i];
            assert queue1[i] in vertices[x];
          }
        }
        if seen1 != seen {
          NeighborsAreIds();
          NeighborsWithin(vertices, x);
          ShrinkingComplement(vertices.Keys, seen, seen1);
        }
        seen, queue := seen1, queue1;
        done := done + {x};
      }
      assert ClosedUnder(vertices, seen);
      var t := PickOutside(vertices.Keys, seen);
      if Reachable(vertices, first, t) {
        ClosedContainsReachable(vertices, seen, first, t);
      }
      return false;
    }

    /** addNeighborsToQueue: every neighbour of x not seen before is marked seen and
        queued, once, behind the existing queue. */
    method AddNeighborsToQueue(x: int, seen0: set<int>, queue0: seq<int>) returns (seen: set<int>, queue: seq<int>)
      requires x in vertices
      ensures seen == seen0 + vertices[x]
      ensures |queue0| <= |queue| == |queue0| + |seen| - |seen0| && queue[..|queue0|] == queue0
      ensures forall y :: y in queue[|queue0|..] <==> y in vertices[x] && y !in seen0
    {
      seen := seen0;
      var added: seq<int> := [];
      var neighbors := vertices[x];
      var pending := neighbors;
      while pending != {}
        invariant pending <= neighbors
        invariant seen == seen0 + (neighbors - pending)
        invariant forall y :: y in added <==> y in neighbors && y !in pending && y !in seen0
        invariant |added| == |seen| - |seen0|
        decreases |pending|
      {
        ghost var g := PickOne(pending);
        var y :| y in pending;
        if y !in seen {
          seen := seen + {y};
          added := added + [y];
        }
        pending := pending - {y};
      }
      queue := queue0 + added;
      assert queue[|queue0|..] == added;
    }
  }
}
