/** Edges: the ordered pair of endpoint ids that identifies an edge, and how each graph
    variant builds one from the pair a caller passes in. */
module Edges {

  /** An edge is the ordered pair (a, b) of its endpoint ids. The source also carries a
      weight that no algorithm reads; it is left out, so datatype equality on (a, b) is
      exactly the source's equals/hashCode. */
  datatype Edge = Edge(a: int, b: int)

  /** createEdge: a directed graph keeps (start, end) as given; an undirected graph
      stores the pair as (min, max). */
  function CreateEdge(directed: bool, start: int, end: int): (e: Edge)
    ensures directed ==> e.a == start && e.b == end
    ensures !directed ==> e.a <= e.b
    ensures !directed ==> (e.a == start && e.b == end) || (e.a == end && e.b == start)
  {
    if directed then Edge(start, end)
    else if start <= end then Edge(start, end)
    else Edge(end, start)
  }

  /** An undirected graph sees (a, b) and (b, a) as the same edge; a directed graph keeps
      them apart whenever a != b. */
  lemma CreateEdgeOrientation(start: int, end: int)
    ensures CreateEdge(false, start, end) == CreateEdge(false, end, start)
    ensures start != end ==> CreateEdge(true, start, end) != CreateEdge(true, end, start)
  {
  }

  /** Re-creating a stored edge from its own endpoints gives the same edge back: directed
      edges trivially, undirected ones because they are stored normalised. */
  lemma CreateEdgeOfStored(directed: bool, e: Edge)
    requires !directed ==> e.a <= e.b
    ensures CreateEdge(directed, e.a, e.b) == e
  {
  }
}
