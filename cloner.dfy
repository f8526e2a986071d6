/** Cloning a graph: a fresh graph of the same variant is rebuilt through its own public
    operations, vertex ids first and then every edge of every bucket. */
module Cloning {
  import opened Edges
  import opened Paths
  import opened Graphs

  class GraphCloner {
    const seed: Graph
    var clone: Graph

    constructor (seed: Graph)
      ensures this.seed == seed && fresh(clone) && clone.Valid()
      ensures clone.directed == seed.directed && clone.vertices == map[] && clone.E == {}
    {
      this.seed := seed;
      clone := new Graph(seed.directed);
    }

    /** clone: every call starts from a new empty graph, so the result depends on the
        seed alone; the seed is only read. */
    method Clone() returns (g: Graph)
      requires seed.Valid()
      modifies this
      ensures fresh(g) && g == clone && g.Valid()
      ensures g.directed == seed.directed
      ensures g.vertices == seed.vertices
      ensures g.E == seed.E && g.numEdges == seed.numEdges
    {
      clone := new Graph(seed.directed);
      AddVerticesToClone();
      AddEdgesToClone();
      g := clone;
      NeighborsDetermined(g.directed, g.vertices, seed.vertices, g.E);
    }

    /** addVerticesToClone: each vertex id of the seed is added to the clone. */
    method AddVerticesToClone()
      requires seed.Valid() && clone.Valid() && clone != seed
      requires clone.directed == seed.directed && clone.vertices == map[] && clone.E == {}
      modifies clone
      ensures clone.Valid() && clone.vertices.Keys == seed.vertices.Keys && clone.E == {}
    {
      var rest := seed.vertices.Keys;
      while rest != {}
        invariant clone.Valid() && rest <= seed.vertices.Keys
        invariant clone.vertices.Keys == seed.vertices.Keys - rest && clone.E == {}
        decreases |rest|
      {
        ghost var g := PickOne(rest);
        var i :| i in rest;
        var _ := clone.AddVertex(i);
        rest := rest - {i};
      }
    }

    /** addEdgesToClone: the edges of every bucket of the seed are added to the clone. */
    method AddEdgesToClone()
      requires seed.Valid() && clone.Valid() && clone != seed && clone.directed == seed.directed
      requires clone.vertices.Keys == seed.vertices.Keys && clone.E == {}
      modifies clone
      ensures clone.Valid() && clone.vertices.Keys == seed.vertices.Keys && clone.E == seed.E
    {
      var c := clone;
      var rest := seed.edges.Keys;
      while rest != {}
        invariant c.Valid() && rest <= seed.edges.Keys
        invariant c.vertices.Keys == seed.vertices.Keys && c.E <= seed.E
        invariant forall k :: k in seed.edges && k !in rest ==> seed.edges[k] <= c.E
        decreases |rest|
      {
        ghost var g := PickOne(rest);
        var k :| k in rest;
        assert forall f :: f in seed.edges[k] ==> f in seed.E;
        AddEdgesFromSetToClone(seed.edges[k]);
        rest := rest - {k};
      }
      forall e | e in seed.E
        ensures e in c.E
      {
        seed.EdgeInBothBuckets(e);
      }
    }

    /** addEdgesFromSetToClone: an edge already filed under its first endpoint in the
        clone is skipped, so no edge is ever refused as a duplicate. */
    method AddEdgesFromSetToClone(edgeSet: set<Edge>)
      requires clone.Valid()
      requires forall f :: f in edgeSet ==> f.a in clone.vertices && f.b in clone.vertices && (!clone.directed ==> f.a <= f.b)
      modifies clone
      ensures clone.Valid() && clone.vertices.Keys == old(clone.vertices.Keys)
      ensures clone.E == old(clone.E) + edgeSet
    {
      var c := clone;
      var rest := edgeSet;
      ghost var E0 := c.E;
      while rest != {}
        invariant c.Valid() && rest <= edgeSet
        invariant c.vertices.Keys == old(c.vertices.Keys)
        invariant E0 <= c.E <= E0 + edgeSet
        invariant edgeSet - rest <= c.E
        decreases |rest|
      {
        ghost var g := PickOne(rest);
        var e :| e in rest;
        AddUnlessFiled(c, e);
        rest := rest - {e};
      }
    }

    /** One step of addEdgesFromSetToClone: the edge is added unless the bucket of its
        first endpoint already holds it. */
    static method AddUnlessFiled(c: Graph, e: Edge)
      requires c.Valid() && e.a in c.vertices && e.b in c.vertices && (!c.directed ==> e.a <= e.b)
      modifies c
      ensures c.Valid() && c.E == old(c.E) + {e} && c.vertices.Keys == old(c.vertices.Keys)
    {
      if e.a !in c.edges || e !in c.edges[e.a] {
        assert e !in c.E;
        c.AddFreshEdge(e);
      } else {
        assert e in c.E;
      }
    }
  }
}
