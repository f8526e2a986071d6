/** What the generators compute, stated on adjacency maps (vertex id -> neighbour ids):
    domination itself, the greedy that deletes each pick's egonet from a graph with
    self-loops, the greedy over an uncovered set, and the connected greedy that grows a
    covered set. */
module Domination {
  import opened Paths
  import opened Graphs
  import opened Selection

  /** Every vertex is in D or is a neighbour (an out-neighbour, in a directed graph) of a
      vertex of D. */
  ghost predicate Dominates(adj: map<int, set<int>>, D: set<int>)
  {
    forall v :: v in adj ==> v in D || exists d :: d in D && d in adj && v in adj[d]
  }

  /** Every vertex of C is in D or a neighbour of a vertex of D. */
  ghost predicate Covers(adj: map<int, set<int>>, D: set<int>, C: set<int>)
  {
    forall c :: c in C ==> c in D || exists d :: d in D && d in adj && c in adj[d]
  }

  /** The maps every generator works on: neighbours are vertices, ids are natural. */
  ghost predicate Ready(adj: map<int, set<int>>)
  {
    NeighborsAreVertices(adj) && IdsNatural(adj)
  }

  /** Every vertex is its own neighbour. */
  ghost predicate SelfLooped(adj: map<int, set<int>>)
  {
    forall v :: v in adj ==> v in adj[v]
  }

  /** No vertex is its own neighbour. */
  ghost predicate SelfLoopFree(adj: map<int, set<int>>)
  {
    forall v :: v in adj ==> v !in adj[v]
  }

  /** The graph once edge (i, i) has been added at every vertex i. */
  function WithSelfLoops(adj: map<int, set<int>>): map<int, set<int>>
  {
    map v | v in adj :: adj[v] + {v}
  }

  /** The graph once every vertex of R has been removed with its edges. */
  function RemoveVertices(adj: map<int, set<int>>, R: set<int>): map<int, set<int>>
  {
    map u | u in adj && u !in R :: adj[u] - R
  }

  /** The neighbour count of every vertex. */
  function Degrees(adj: map<int, set<int>>): map<int, int>
  {
    map v | v in adj :: |adj[v]|
  }

  /** The number of neighbours of every vertex that are not in seen. */
  function UnseenCounts(adj: map<int, set<int>>, seen: set<int>): map<int, int>
  {
    map v | v in adj :: |adj[v] - seen|
  }

  lemma SelfLoopsReady(adj: map<int, set<int>>)
    requires Ready(adj)
    ensures Ready(WithSelfLoops(adj)) && SelfLooped(WithSelfLoops(adj))
    ensures WithSelfLoops(adj).Keys == adj.Keys
  {
  }

  lemma RemovalKeepsReady(adj: map<int, set<int>>, R: set<int>)
    requires Ready(adj)
    ensures Ready(RemoveVertices(adj, R))
    ensures SelfLooped(adj) ==> SelfLooped(RemoveVertices(adj, R))
    ensures RemoveVertices(adj, R).Keys == adj.Keys - R
  {
  }

  /** Removing vertices one at a time is removing them together. */
  lemma RemoveOneMore(adj: map<int, set<int>>, R: set<int>, v: int)
    ensures RemoveVertices(RemoveVertices(adj, R), {v}) == RemoveVertices(adj, R + {v})
  {
    forall u | u in adj && u !in R + {v}
      ensures (adj[u] - R) - {v} == adj[u] - (R + {v})
    {
    }
  }

  lemma FewerKeys(K: set<int>, R: set<int>, p: int)
    requires p in K && p in R
    ensures |K - R| < |K|
  {
    assert K - R == K - (R * K);
    CardinalityOfRemoval(K, R * K);
    assert p in R * K;
  }

  /** The pick of a scan over every vertex by neighbour count: the vertex with the most
      neighbours, ties to the larger id. */
  ghost function DegreePick(adj: map<int, set<int>>): (p: int)
    requires Ready(adj) && adj != map[]
    ensures p in adj
  {
    assert adj.Keys != {} by {
      assert |adj.Keys| == |adj| > 0;
    }
    MostConnectedIsScanned(Degrees(adj), adj.Keys);
    MostConnected(Degrees(adj), adj.Keys).id
  }

  /** The greedy on a graph whose vertices all have self-loops: pick, delete the pick's
      whole neighbour set (the pick included), repeat until nothing is left. */
  ghost function GreedySpec(adj: map<int, set<int>>): set<int>
    requires Ready(adj) && SelfLooped(adj)
    decreases |adj|
  {
    if adj == map[] then {}
    else
      var p := DegreePick(adj);
      RemovalKeepsReady(adj, adj[p]);
      FewerKeys(adj.Keys, adj[p], p);
      {p} + GreedySpec(RemoveVertices(adj, adj[p]))
  }

  /** One round of the greedy: the pick joins the result and its neighbours leave. */
  lemma GreedyStep(adj: map<int, set<int>>, p: int)
    requires Ready(adj) && SelfLooped(adj) && adj != map[] && DegreePick(adj) == p
    ensures Ready(RemoveVertices(adj, adj[p])) && SelfLooped(RemoveVertices(adj, adj[p]))
    ensures GreedySpec(adj) == {p} + GreedySpec(RemoveVertices(adj, adj[p]))
  {
    RemovalKeepsReady(adj, adj[p]);
  }

  /** The greedy result is a set of vertices that dominates the self-looped graph. */
  lemma {:induction false} GreedySpecDominates(adj: map<int, set<int>>)
    requires Ready(adj) && SelfLooped(adj)
    ensures GreedySpec(adj) <= adj.Keys && Dominates(adj, GreedySpec(adj))
    decreases |adj|
  {
    if adj != map[] {
      var p := DegreePick(adj);
      var rest := RemoveVertices(adj, adj[p]);
      RemovalKeepsReady(adj, adj[p]);
      FewerKeys(adj.Keys, adj[p], p);
      GreedySpecDominates(rest);
      var D := GreedySpec(adj);
      assert D == {p} + GreedySpec(rest);
      forall v | v in adj
        ensures v in D || exists d :: d in D && d in adj && v in adj[d]
      {
        if v in adj[p] {
          assert p in D && p in adj;
        } else {
          assert v in rest;
          if v !in GreedySpec(rest) {
            var d :| d in GreedySpec(rest) && d in rest && v in rest[d];
            assert d in D && d in adj && v in adj[d];
          }
        }
      }
    }
  }

  /** The greedy run on the graph with self-loops added dominates the graph without them:
      a vertex dominated through its own self-loop is a member of the result. */
  lemma GreedyDominates(adj: map<int, set<int>>)
    requires Ready(adj)
    ensures Ready(WithSelfLoops(adj)) && SelfLooped(WithSelfLoops(adj))
    ensures GreedySpec(WithSelfLoops(adj)) <= adj.Keys
    ensures Dominates(adj, GreedySpec(WithSelfLoops(adj)))
  {
    var loops := WithSelfLoops(adj);
    SelfLoopsReady(adj);
    GreedySpecDominates(loops);
    var D := GreedySpec(loops);
    forall v | v in adj
      ensures v in D || exists d :: d in D && d in adj && v in adj[d]
    {
      assert v in loops;
      if v !in D {
        var d :| d in D && d in loops && v in loops[d];
        assert v in adj[d] || v == d;
      }
    }
  }

  /** The greedy over an uncovered set, without self-loops: the pick is the uncovered
      vertex with the most neighbours outside covered (ties to the larger id); it and its
      neighbours become covered and leave uncovered. */
  ghost function CoverGreedy(adj: map<int, set<int>>, uncovered: set<int>, covered: set<int>): set<int>
    requires Ready(adj) && uncovered <= adj.Keys
    decreases |uncovered|
  {
    if uncovered == {} then {}
    else
      MostConnectedIsScanned(UnseenCounts(adj, covered), uncovered);
      var p := MostConnected(UnseenCounts(adj, covered), uncovered).id;
      FewerKeys(uncovered, {p} + adj[p], p);
      {p} + CoverGreedy(adj, uncovered - ({p} + adj[p]), covered + {p} + adj[p])
  }

  /** Every vertex that was uncovered is a member of the result or a neighbour of one. */
  lemma {:induction false} CoverGreedyCovers(adj: map<int, set<int>>, uncovered: set<int>, covered: set<int>)
    requires Ready(adj) && uncovered <= adj.Keys
    ensures CoverGreedy(adj, uncovered, covered) <= uncovered
    ensures Covers(adj, CoverGreedy(adj, uncovered, covered), uncovered)
    decreases |uncovered|
  {
    if uncovered != {} {
      MostConnectedIsScanned(UnseenCounts(adj, covered), uncovered);
      var p := MostConnected(UnseenCounts(adj, covered), uncovered).id;
      var rest := uncovered - ({p} + adj[p]);
      FewerKeys(uncovered, {p} + adj[p], p);
      CoverGreedyCovers(adj, rest, covered + {p} + adj[p]);
      var D1 := CoverGreedy(adj, rest, covered + {p} + adj[p]);
      assert CoverGreedy(adj, uncovered, covered) == {p} + D1;
      CoversWithPick(adj, uncovered, p, D1);
    }
  }

  /** If D1 covers what p's egonet leaves of U, then p with D1 covers U. */
  lemma CoversWithPick(adj: map<int, set<int>>, U: set<int>, p: int, D1: set<int>)
    requires p in adj && Covers(adj, D1, U - ({p} + adj[p]))
    ensures Covers(adj, {p} + D1, U)
  {
    var D := {p} + D1;
    forall c | c in U
      ensures c in D || exists d :: d in D && d in adj && c in adj[d]
    {
      if c != p && c in adj[p] {
        assert p in D && p in adj;
      } else if c != p {
        assert c in U - ({p} + adj[p]);
        if c !in D1 {
          var d :| d in D1 && d in adj && c in adj[d];
          assert d in D;
        }
      }
    }
  }

  /** Started from every vertex uncovered, the cover greedy dominates the graph. */
  lemma CoverGreedyDominates(adj: map<int, set<int>>)
    requires Ready(adj)
    ensures CoverGreedy(adj, adj.Keys, {}) <= adj.Keys
    ensures Dominates(adj, CoverGreedy(adj, adj.Keys, {}))
  {
    CoverGreedyCovers(adj, adj.Keys, {});
  }

  /** The uncovered vertices with at least one covered neighbour: the candidates of a
      diversion. */
  ghost function DivertCandidates(adj: map<int, set<int>>, C: set<int>): set<int>
  {
    set v | v in adj && v !in C && adj[v] * C != {}
  }

  /** Adding a pick that is uncovered, or that has an uncovered neighbour, grows the
      covered set inside the vertex ids. */
  lemma CoverGrows(adj: map<int, set<int>>, C: set<int>, p: int)
    requires Ready(adj) && C <= adj.Keys && p in adj && (p !in C || |adj[p] - C| > 0)
    ensures C + adj[p] + {p} <= adj.Keys
    ensures |adj.Keys - (C + adj[p] + {p})| < |adj.Keys - C|
  {
    NeighborsWithin(adj, p);
    if p in C {
      var w := PickOne(adj[p] - C);
    }
    ShrinkingComplement(adj.Keys, C, C + adj[p] + {p});
  }

  /** The next pick of the connected greedy with covered set C: the covered vertex with
      the most uncovered neighbours (ties to the larger id). When no covered vertex has an
      uncovered neighbour, a diverting generator takes the best uncovered vertex that has
      a covered neighbour instead; with no such vertex, or without diversion, there is no
      pick. */
  ghost function NextPick(adj: map<int, set<int>>, C: set<int>, divert: bool): (r: Result<int>)
    requires Ready(adj) && C <= adj.Keys
    ensures r.Failure? ==> r.error == NoProgress
    ensures r.Success? ==> r.value in adj && (r.value !in C || |adj[r.value] - C| > 0)
    ensures r.Success? ==> r.value in C || adj[r.value] * C != {}
  {
    var best := MostConnected(UnseenCounts(adj, C), C);
    if best.count > 0 then
      PositiveIsScanned(UnseenCounts(adj, C), C);
      Success(best.id)
    else if !divert then Failure(NoProgress)
    else
      var candidates := DivertCandidates(adj, C);
      if candidates == {} then Failure(NoProgress)
      else
        MostConnectedIsScanned(UnseenCounts(adj, C), candidates);
        Success(MostConnected(UnseenCounts(adj, C), candidates).id)
  }

  /** The connected greedy from dominating set D and covered set C: stop once every
      vertex is covered, otherwise add the next pick to D and its egonet to C. */
  ghost function ConnectedFrom(adj: map<int, set<int>>, D: set<int>, C: set<int>, divert: bool): Result<set<int>>
    requires Ready(adj) && C <= adj.Keys
    decreases |adj.Keys - C|
  {
    if C == adj.Keys then Success(D)
    else
      match NextPick(adj, C, divert)
      case Failure(e) => Failure(e)
      case Success(p) =>
        CoverGrows(adj, C, p);
        ConnectedFrom(adj, D + {p}, C + adj[p] + {p}, divert)
  }

  /** One round of the connected greedy: the pick joins D and its egonet joins C. */
  lemma ConnectedRound(adj: map<int, set<int>>, D: set<int>, C: set<int>, p: int, divert: bool)
    requires Ready(adj) && C <= adj.Keys && C != adj.Keys && NextPick(adj, C, divert) == Success(p)
    ensures p in adj && C + adj[p] + {p} <= adj.Keys
    ensures |adj.Keys - (C + adj[p] + {p})| < |adj.Keys - C|
    ensures ConnectedFrom(adj, D, C, divert) == ConnectedFrom(adj, D + {p}, C + adj[p] + {p}, divert)
  {
    CoverGrows(adj, C, p);
  }

  /** The connected greedy: the first pick is the vertex with the most neighbours, which
      covers itself and its neighbours. An empty graph makes no progress. */
  ghost function ConnectedGreedySpec(adj: map<int, set<int>>, divert: bool): Result<set<int>>
    requires Ready(adj)
  {
    if adj == map[] then Failure(NoProgress)
    else
      var p := DegreePick(adj);
      NeighborsWithin(adj, p);
      ConnectedFrom(adj, {p}, adj[p] + {p}, divert)
  }

  /** Adding p to D and its egonet to C keeps C covered by D. */
  lemma CoversAfterPick(adj: map<int, set<int>>, D: set<int>, C: set<int>, p: int)
    requires Covers(adj, D, C) && p in adj
    ensures Covers(adj, D + {p}, C + adj[p] + {p})
  {
    forall c | c in C + adj[p] + {p}
      ensures c in D + {p} || exists d :: d in D + {p} && d in adj && c in adj[d]
    {
      if c in C && c !in D {
        var d :| d in D && d in adj && c in adj[d];
        assert d in D + {p};
      } else if c in adj[p] {
        assert p in D + {p};
      }
    }
  }

  /** A successful connected greedy returns a set of vertices that dominates the graph. */
  lemma {:induction false} ConnectedFromDominates(adj: map<int, set<int>>, D: set<int>, C: set<int>, divert: bool)
    requires Ready(adj) && C <= adj.Keys && D <= adj.Keys && Covers(adj, D, C)
    ensures ConnectedFrom(adj, D, C, divert).Success? ==>
      ConnectedFrom(adj, D, C, divert).value <= adj.Keys && Dominates(adj, ConnectedFrom(adj, D, C, divert).value)
    decreases |adj.Keys - C|
  {
    if C == adj.Keys {
    } else if NextPick(adj, C, divert).Success? {
      var p := NextPick(adj, C, divert).value;
      CoverGrows(adj, C, p);
      CoversAfterPick(adj, D, C, p);
      ConnectedFromDominates(adj, D + {p}, C + adj[p] + {p}, divert);
    }
  }

  lemma ConnectedGreedyDominates(adj: map<int, set<int>>, divert: bool)
    requires Ready(adj)
    ensures ConnectedGreedySpec(adj, divert).Success? ==>
      ConnectedGreedySpec(adj, divert).value <= adj.Keys && Dominates(adj, ConnectedGreedySpec(adj, divert).value)
  {
    if adj != map[] {
      var p := DegreePick(adj);
      NeighborsWithin(adj, p);
      CoversAfterPick(adj, {}, {}, p);
      assert {} + {p} == {p} && {} + adj[p] + {p} == adj[p] + {p};
      ConnectedFromDominates(adj, {p}, adj[p] + {p}, divert);
    }
  }

  /** On a symmetric graph in which every vertex is reachable, some covered vertex always
      has an uncovered neighbour, so the connected greedy never needs to divert and never
      gets stuck. */
  lemma {:induction false} ConnectedFromSucceeds(adj: map<int, set<int>>, D: set<int>, C: set<int>, divert: bool, s: int)
    requires Ready(adj) && C <= adj.Keys && C != {}
    requires Symmetric(adj) && s in adj && AllReachableFrom(adj, s)
    ensures ConnectedFrom(adj, D, C, divert).Success?
    decreases |adj.Keys - C|
  {
    if C != adj.Keys {
      var scores := UnseenCounts(adj, C);
      assert C != adj.Keys;
      var u, w := CrossingVertex(adj, s, C);
      assert u in adj[w];
      assert u in adj[w] - C;
      MostConnectedIsMost(scores, C);
      var best := MostConnected(scores, C);
      assert !Beats(scores[w], w, best);
      assert best.count > 0;
      assert NextPick(adj, C, divert) == Success(best.id);
      CoverGrows(adj, C, best.id);
      ConnectedFromSucceeds(adj, D + {best.id}, C + adj[best.id] + {best.id}, divert, s);
    }
  }

  /** A nonempty undirected graph that a search from its least id finds connected gets a
      dominating set from the connected greedy, with or without diversion. */
  lemma ConnectedGreedySucceeds(adj: map<int, set<int>>, divert: bool)
    requires Ready(adj) && adj != map[] && Symmetric(adj)
    requires AllReachableFrom(adj, Least(adj.Keys))
    ensures ConnectedGreedySpec(adj, divert).Success?
  {
    var p := DegreePick(adj);
    NeighborsWithin(adj, p);
    ConnectedFromSucceeds(adj, {p}, adj[p] + {p}, divert, Least(adj.Keys));
  }

  /** The subgraph induced by R: the members of R, each with its neighbours inside R. */
  function Induced(adj: map<int, set<int>>, R: set<int>): map<int, set<int>>
  {
    map v | v in adj && v in R :: adj[v] * R
  }

  /** Some member of R reaches every member of R along edges between members. On a
      symmetric graph this says that R induces a connected subgraph. */
  ghost predicate InducesConnected(adj: map<int, set<int>>, R: set<int>)
  {
    exists s :: s in R && AllReachableFrom(Induced(adj, R), s)
  }

  /** The vertices of order, taken in turn from dominating set D: each is a vertex that D
      and the vertices before it dominate, or one with a neighbour they dominate. */
  ghost predicate GrowsFrom(adj: map<int, set<int>>, D: set<int>, order: seq<int>)
    decreases |order|
  {
    || order == []
    || (&& order[0] in adj
        && (order[0] in Dominated(adj, D) || adj[order[0]] * Dominated(adj, D) != {})
        && GrowsFrom(adj, D + {order[0]}, order[1..]))
  }

  /** order lists R, and every vertex after the first is added next to the covered part. */
  ghost predicate GrowthOrder(adj: map<int, set<int>>, R: set<int>, order: seq<int>)
  {
    |order| > 0 && (set x | x in order) == R && GrowsFrom(adj, {order[0]}, order[1..])
  }

  /** R can be built from one vertex by additions that each lie in, or next to, the
      vertices dominated so far. */
  ghost predicate BuiltByGrowth(adj: map<int, set<int>>, R: set<int>)
  {
    exists order :: GrowthOrder(adj, R, order)
  }

  /** On a symmetric graph, an uncovered vertex next to a covered one makes that covered
      vertex's uncovered count positive, so the scan of the covered vertices finds progress. */
  lemma CandidateMeansProgress(adj: map<int, set<int>>, C: set<int>, v: int)
    requires Ready(adj) && Symmetric(adj) && C <= adj.Keys && v in DivertCandidates(adj, C)
    ensures MostConnected(UnseenCounts(adj, C), C).count > 0
  {
    var scores := UnseenCounts(adj, C);
    var c := PickOne(adj[v] * C);
    SymmetricFlip(adj, v, c);
    assert v in adj[c] - C;
    MostConnectedIsMost(scores, C);
    assert !Beats(scores[c], c, MostConnected(scores, C));
  }

  /** Without diversion, or on a symmetric graph, every pick is a covered vertex: on a
      symmetric graph a diversion never happens. */
  lemma PickIsCovered(adj: map<int, set<int>>, C: set<int>, divert: bool)
    requires Ready(adj) && C <= adj.Keys && (Symmetric(adj) || !divert)
    requires NextPick(adj, C, divert).Success?
    ensures NextPick(adj, C, divert).value in C
  {
    if divert && DivertCandidates(adj, C) != {} {
      var v := PickOne(DivertCandidates(adj, C));
      CandidateMeansProgress(adj, C, v);
    }
    PositiveIsScanned(UnseenCounts(adj, C), C);
  }

  /** Prepending a pick that lies in or next to what D dominates to an order that grows from
      D + {p} gives an order that grows from D. */
  lemma PrependPick(adj: map<int, set<int>>, D: set<int>, p: int, rest: seq<int>)
    requires p in adj
    ensures (p in Dominated(adj, D) || adj[p] * Dominated(adj, D) != {}) && GrowsFrom(adj, D + {p}, rest) ==>
      GrowsFrom(adj, D, [p] + rest)
    ensures (set x | x in [p] + rest) == {p} + (set x | x in rest)
  {
    assert ([p] + rest)[0] == p && ([p] + rest)[1..] == rest;
  }

  /** A walk between members of D stays a walk when D grows. */
  lemma InducedReachableGrows(adj: map<int, set<int>>, D: set<int>, E: set<int>, s: int, t: int)
    requires D <= E && Reachable(Induced(adj, D), s, t)
    ensures Reachable(Induced(adj, E), s, t)
  {
    var small, big := Induced(adj, D), Induced(adj, E);
    var p :| IsPath(small, p) && p[0] == s && p[|p| - 1] == t;
    forall i | 0 <= i < |p|
      ensures p[i] in big
    {
      assert p[i] in small;
    }
    forall i, j | 0 <= i < |p| && j == i + 1 < |p|
      ensures p[j] in big[p[i]]
    {
      assert p[i] in small && p[j] in small[p[i]];
    }
    assert IsPath(big, p);
  }

  /** A vertex dominated by D joins the subgraph induced by D without losing reachability
      from s: it is D itself or the neighbour of a member. */
  lemma JoinKeepsReachable(adj: map<int, set<int>>, D: set<int>, p: int, s: int)
    requires p in adj && p in Dominated(adj, D)
    requires AllReachableFrom(Induced(adj, D), s)
    ensures AllReachableFrom(Induced(adj, D + {p}), s)
  {
    var small, big := Induced(adj, D), Induced(adj, D + {p});
    forall t | t in big
      ensures Reachable(big, s, t)
    {
      if t in D {
        InducedReachableGrows(adj, D, D + {p}, s, t);
      } else {
        assert t == p && p !in D;
        var d :| d in D && d in adj && p in adj[d];
        InducedReachableGrows(adj, D, D + {p}, s, d);
        assert p in big[d];
        ReachableStep(big, s, d, p);
      }
    }
  }

  /** Every pick of the connected greedy that starts from a covered set C == Dominated(D)
      lies in or next to what is covered, so the picks, in order, grow from D. */
  lemma {:induction false} ConnectedFromOrder(adj: map<int, set<int>>, D: set<int>, C: set<int>, divert: bool)
    returns (order: seq<int>)
    requires Ready(adj) && C <= adj.Keys && C == Dominated(adj, D)
    ensures ConnectedFrom(adj, D, C, divert).Success? ==>
      GrowsFrom(adj, D, order) && ConnectedFrom(adj, D, C, divert).value == D + (set x | x in order)
    decreases |adj.Keys - C|
  {
    order := [];
    if C != adj.Keys && NextPick(adj, C, divert).Success? {
      var p := NextPick(adj, C, divert).value;
      ConnectedRound(adj, D, C, p, divert);
      DominatedStep(adj, D, p);
      var rest := ConnectedFromOrder(adj, D + {p}, C + adj[p] + {p}, divert);
      PrependPick(adj, D, p, rest);
      order := [p] + rest;
    }
  }

  /** Without diversion, or on a symmetric graph, the connected greedy keeps its dominating
      set reachable from the first pick inside the set: each pick is a neighbour of an
      earlier one. */
  lemma {:induction false} ConnectedFromConnected(adj: map<int, set<int>>, D: set<int>, C: set<int>, divert: bool, s: int)
    requires Ready(adj) && C <= adj.Keys && C == Dominated(adj, D) && (Symmetric(adj) || !divert)
    requires AllReachableFrom(Induced(adj, D), s)
    ensures ConnectedFrom(adj, D, C, divert).Success? ==>
      AllReachableFrom(Induced(adj, ConnectedFrom(adj, D, C, divert).value), s)
    decreases |adj.Keys - C|
  {
    if C != adj.Keys && NextPick(adj, C, divert).Success? {
      var p := NextPick(adj, C, divert).value;
      PickIsCovered(adj, C, divert);
      ConnectedRound(adj, D, C, p, divert);
      DominatedStep(adj, D, p);
      JoinKeepsReachable(adj, D, p, s);
      ConnectedFromConnected(adj, D + {p}, C + adj[p] + {p}, divert, s);
    }
  }

  /** The first pick alone: it dominates its egonet and reaches itself. */
  lemma FirstPickStart(adj: map<int, set<int>>, p: int)
    requires p in adj
    ensures Dominated(adj, {p}) == adj[p] + {p}
    ensures AllReachableFrom(Induced(adj, {p}), p)
  {
    DominatedStep(adj, {}, p);
    assert {} + {p} == {p};
    assert Dominated(adj, {}) == {};
    ReachableSelf(Induced(adj, {p}), p);
  }

  /** Every set the connected greedy returns is built by growth from its first pick; without
      diversion, or on a symmetric graph, it also induces a connected subgraph. */
  lemma ConnectedGreedyConnected(adj: map<int, set<int>>, divert: bool)
    requires Ready(adj)
    ensures ConnectedGreedySpec(adj, divert).Success? ==> BuiltByGrowth(adj, ConnectedGreedySpec(adj, divert).value)
    ensures ConnectedGreedySpec(adj, divert).Success? && (Symmetric(adj) || !divert) ==>
      InducesConnected(adj, ConnectedGreedySpec(adj, divert).value)
  {
    if adj != map[] && ConnectedGreedySpec(adj, divert).Success? {
      var p := DegreePick(adj);
      NeighborsWithin(adj, p);
      FirstPickStart(adj, p);
      var R := ConnectedGreedySpec(adj, divert).value;
      var rest := ConnectedFromOrder(adj, {p}, adj[p] + {p}, divert);
      var order := [p] + rest;
      assert order[0] == p && order[1..] == rest;
      PrependPick(adj, {}, p, rest);
      assert GrowthOrder(adj, R, order);
      if Symmetric(adj) || !divert {
        ConnectedFromConnected(adj, {p}, adj[p] + {p}, divert, p);
        ConnectedFromGrows(adj, {p}, adj[p] + {p}, divert);
        assert p in R && AllReachableFrom(Induced(adj, R), p);
      }
    }
  }

  /** The connected greedy only adds to its dominating set. */
  lemma {:induction false} ConnectedFromGrows(adj: map<int, set<int>>, D: set<int>, C: set<int>, divert: bool)
    requires Ready(adj) && C <= adj.Keys
    ensures ConnectedFrom(adj, D, C, divert).Success? ==> D <= ConnectedFrom(adj, D, C, divert).value
    decreases |adj.Keys - C|
  {
    if C != adj.Keys && NextPick(adj, C, divert).Success? {
      var p := NextPick(adj, C, divert).value;
      ConnectedRound(adj, D, C, p, divert);
      ConnectedFromGrows(adj, D + {p}, C + adj[p] + {p}, divert);
    }
  }

  /** What the greedy generator returns: adding the self-loops fails on a graph that
      already has one, otherwise the greedy runs on the graph with self-loops. */
  ghost function GreedyResult(adj: map<int, set<int>>): Result<set<int>>
    requires Ready(adj)
  {
    SelfLoopsReady(adj);
    if SelfLoopFree(adj) then Success(GreedySpec(WithSelfLoops(adj))) else Failure(DuplicateEdge)
  }

  lemma GreedyResultDominates(adj: map<int, set<int>>)
    requires Ready(adj)
    ensures GreedyResult(adj).Failure? <==> !SelfLoopFree(adj)
    ensures GreedyResult(adj).Success? ==>
      GreedyResult(adj).value <= adj.Keys && Dominates(adj, GreedyResult(adj).value)
  {
    GreedyDominates(adj);
  }

  /** v is an endpoint of no edge: it has no neighbours and is nobody's neighbour. */
  ghost predicate Isolated(adj: map<int, set<int>>, v: int)
  {
    v in adj && adj[v] == {} && forall u :: u in adj ==> v !in adj[u]
  }

  ghost predicate HasIsolatedVertex(adj: map<int, set<int>>)
  {
    exists v :: Isolated(adj, v)
  }

  /** What the connected generator returns: a directed graph with an isolated vertex is
      refused, any other graph goes to the diverting connected greedy. */
  ghost function ConnectedResult(directed: bool, adj: map<int, set<int>>): Result<set<int>>
    requires Ready(adj)
  {
    if directed && HasIsolatedVertex(adj) then Failure(NoConnectedSet) else ConnectedGreedySpec(adj, true)
  }

  lemma ConnectedResultDominates(directed: bool, adj: map<int, set<int>>)
    requires Ready(adj)
    ensures ConnectedResult(directed, adj).Success? ==>
      ConnectedResult(directed, adj).value <= adj.Keys && Dominates(adj, ConnectedResult(directed, adj).value)
    ensures !directed && adj != map[] && Symmetric(adj) && AllReachableFrom(adj, Least(adj.Keys)) ==>
      ConnectedResult(directed, adj).Success?
  {
    ConnectedGreedyDominates(adj, true);
    if !directed && adj != map[] && Symmetric(adj) && AllReachableFrom(adj, Least(adj.Keys)) {
      ConnectedGreedySucceeds(adj, true);
    }
  }

  /** Every set the diverting connected generator returns is built by growth from its first
      pick; on a symmetric graph it also induces a connected subgraph. */
  lemma ConnectedResultConnected(directed: bool, adj: map<int, set<int>>)
    requires Ready(adj)
    ensures ConnectedResult(directed, adj).Success? ==> BuiltByGrowth(adj, ConnectedResult(directed, adj).value)
    ensures ConnectedResult(directed, adj).Success? && Symmetric(adj) ==>
      InducesConnected(adj, ConnectedResult(directed, adj).value)
  {
    ConnectedGreedyConnected(adj, true);
  }

  /** The candidates together with all of their neighbours. */
  ghost function Dominated(adj: map<int, set<int>>, D: set<int>): set<int>
  {
    D + set d, w | d in D && d in adj && w in adj[d] :: w
  }

  /** D dominates exactly when every vertex is a candidate or a neighbour of one. */
  lemma DominatedIff(adj: map<int, set<int>>, D: set<int>)
    ensures Dominates(adj, D) <==> adj.Keys <= Dominated(adj, D)
  {
    if adj.Keys <= Dominated(adj, D) {
      forall v | v in adj
        ensures v in D || exists d :: d in D && d in adj && v in adj[d]
      {
        assert v in Dominated(adj, D);
      }
    }
    if Dominates(adj, D) {
      forall v | v in adj
        ensures v in Dominated(adj, D)
      {
        if v !in D {
          var d :| d in D && d in adj && v in adj[d];
          assert v in set d, w | d in D && d in adj && w in adj[d] :: w;
        }
      }
    }
  }

  /** The candidates with their neighbours, one candidate at a time. */
  lemma DominatedStep(adj: map<int, set<int>>, D: set<int>, d: int)
    requires d in adj
    ensures Dominated(adj, D + {d}) == Dominated(adj, D) + adj[d] + {d}
  {
    forall w | w in adj[d]
      ensures w in Dominated(adj, D + {d})
    {
      assert d in D + {d};
    }
  }

  /** A scan by neighbour count that can be checked by hand: if best is the maximum over
      every vertex, it is the pick. */
  lemma DegreePickIs(adj: map<int, set<int>>, best: Pick)
    requires Ready(adj) && adj != map[]
    requires IsMostConnected(Degrees(adj), adj.Keys, best)
    ensures DegreePick(adj) == best.id
  {
    ScanIsMostConnected(Degrees(adj), adj.Keys, best);
  }

  /** The six-vertex undirected example of the generator tests: edges 1-2, 1-3, 1-4, 2-5,
      4-3, 3-5 and 5-6, each registered at both endpoints. */
  function UndirectedExample(): map<int, set<int>>
  {
    map[1 := {2, 3, 4}, 2 := {1, 5}, 3 := {1, 4, 5}, 4 := {1, 3}, 5 := {2, 3, 6}, 6 := {5}]
  }

  /** The directed example: edges 1->2, 1->3, 1->4, 2->5, 4->3, 3->5, 5->6 and 5->2,
      registered at their origin only. */
  function DirectedExample(): map<int, set<int>>
  {
    map[1 := {2, 3, 4}, 2 := {5}, 3 := {5}, 4 := {3}, 5 := {2, 6}, 6 := {}]
  }

  /** The undirected example with its self-loops added, vertex by vertex. */
  lemma UndirectedExampleLooped()
    ensures Ready(UndirectedExample())
    ensures Ready(WithSelfLoops(UndirectedExample())) && SelfLooped(WithSelfLoops(UndirectedExample()))
    ensures WithSelfLoops(UndirectedExample()).Keys == {1, 2, 3, 4, 5, 6}
    ensures WithSelfLoops(UndirectedExample())[1] == {1, 2, 3, 4}
    ensures WithSelfLoops(UndirectedExample())[2] == {1, 2, 5}
    ensures WithSelfLoops(UndirectedExample())[3] == {1, 3, 4, 5}
    ensures WithSelfLoops(UndirectedExample())[4] == {1, 3, 4}
    ensures WithSelfLoops(UndirectedExample())[5] == {2, 3, 5, 6}
    ensures WithSelfLoops(UndirectedExample())[6] == {5, 6}
  {
    assert Ready(UndirectedExample());
    SelfLoopsReady(UndirectedExample());
  }

  /** The neighbour counts once the self-loops are in. */
  lemma UndirectedExampleDegrees()
    ensures Ready(WithSelfLoops(UndirectedExample())) && SelfLooped(WithSelfLoops(UndirectedExample()))
    ensures WithSelfLoops(UndirectedExample()).Keys == {1, 2, 3, 4, 5, 6}
    ensures Degrees(WithSelfLoops(UndirectedExample()))[1] == 4
    ensures Degrees(WithSelfLoops(UndirectedExample()))[2] == 3
    ensures Degrees(WithSelfLoops(UndirectedExample()))[3] == 4
    ensures Degrees(WithSelfLoops(UndirectedExample()))[4] == 3
    ensures Degrees(WithSelfLoops(UndirectedExample()))[5] == 4
    ensures Degrees(WithSelfLoops(UndirectedExample()))[6] == 2
  {
    UndirectedExampleLooped();
  }

  /** 1, 3 and 5 have four neighbours each once self-loops are added, so the first scan
      picks 5, the largest of them. */
  lemma UndirectedExampleFirstPick()
    ensures Ready(WithSelfLoops(UndirectedExample())) && SelfLooped(WithSelfLoops(UndirectedExample()))
    ensures WithSelfLoops(UndirectedExample()) != map[]
    ensures DegreePick(WithSelfLoops(UndirectedExample())) == 5
  {
    UndirectedExampleDegrees();
    var A := WithSelfLoops(UndirectedExample());
    var d := Degrees(A);
    assert IsMostConnected(d, A.Keys, Pick(4, 5)) by {
      forall k | k in A.Keys
        ensures !Beats(d[k], k, Pick(4, 5))
      {
        assert k in {1, 2, 3, 4, 5, 6};
      }
    }
    DegreePickIs(A, Pick(4, 5));
  }

  /** The first round removes 5 with its neighbours 2, 3 and 6, which leaves 1 and 4
      joined by edge 1-4. */
  lemma UndirectedExampleRemoval()
    ensures Ready(RemoveVertices(WithSelfLoops(UndirectedExample()), {2, 3, 5, 6}))
    ensures SelfLooped(RemoveVertices(WithSelfLoops(UndirectedExample()), {2, 3, 5, 6}))
    ensures RemoveVertices(WithSelfLoops(UndirectedExample()), {2, 3, 5, 6}).Keys == {1, 4}
    ensures RemoveVertices(WithSelfLoops(UndirectedExample()), {2, 3, 5, 6})[1] == {1, 4}
    ensures RemoveVertices(WithSelfLoops(UndirectedExample()), {2, 3, 5, 6})[4] == {1, 4}
  {
    UndirectedExampleLooped();
    RemovalKeepsReady(WithSelfLoops(UndirectedExample()), {2, 3, 5, 6});
  }

  /** On what is left, 4 wins the tie with 1 and its neighbours are all that is left. */
  lemma UndirectedExampleSecondPick()
    ensures Ready(RemoveVertices(WithSelfLoops(UndirectedExample()), {2, 3, 5, 6})) && SelfLooped(RemoveVertices(WithSelfLoops(UndirectedExample()), {2, 3, 5, 6}))
    ensures RemoveVertices(WithSelfLoops(UndirectedExample()), {2, 3, 5, 6}) != map[]
    ensures DegreePick(RemoveVertices(WithSelfLoops(UndirectedExample()), {2, 3, 5, 6})) == 4
  {
    UndirectedExampleRemoval();
    var B := RemoveVertices(WithSelfLoops(UndirectedExample()), {2, 3, 5, 6});
    var d := Degrees(B);
    assert 1 in B;
    assert d[1] == 2 && d[4] == 2;
    assert IsMostConnected(d, B.Keys, Pick(2, 4)) by {
      forall k | k in B.Keys
        ensures !Beats(d[k], k, Pick(2, 4))
      {
        assert k in {1, 4};
      }
    }
    DegreePickIs(B, Pick(2, 4));
  }

  lemma UndirectedExampleRest()
    ensures Ready(RemoveVertices(WithSelfLoops(UndirectedExample()), {2, 3, 5, 6}))
    ensures SelfLooped(RemoveVertices(WithSelfLoops(UndirectedExample()), {2, 3, 5, 6}))
    ensures GreedySpec(RemoveVertices(WithSelfLoops(UndirectedExample()), {2, 3, 5, 6})) == {4}
  {
    UndirectedExampleSecondPick();
    UndirectedExampleRemoval();
    var B := RemoveVertices(WithSelfLoops(UndirectedExample()), {2, 3, 5, 6});
    assert RemoveVertices(B, B[4]).Keys == {};
    assert RemoveVertices(B, B[4]) == map[];
    GreedyStep(B, 4);
  }

  /** The greedy on the undirected example of the generator tests returns {4, 5}. */
  lemma UndirectedExampleGreedy()
    ensures Ready(UndirectedExample())
    ensures Ready(WithSelfLoops(UndirectedExample())) && SelfLooped(WithSelfLoops(UndirectedExample()))
    ensures GreedySpec(WithSelfLoops(UndirectedExample())) == {4, 5}
  {
    UndirectedExampleLooped();
    UndirectedExampleFirstPick();
    UndirectedExampleRest();
    GreedyStep(WithSelfLoops(UndirectedExample()), 5);
  }

  /** The directed example with its self-loops added, vertex by vertex. */
  lemma DirectedExampleLooped()
    ensures Ready(DirectedExample())
    ensures Ready(WithSelfLoops(DirectedExample())) && SelfLooped(WithSelfLoops(DirectedExample()))
    ensures WithSelfLoops(DirectedExample()).Keys == {1, 2, 3, 4, 5, 6}
    ensures WithSelfLoops(DirectedExample())[1] == {1, 2, 3, 4}
    ensures WithSelfLoops(DirectedExample())[2] == {2, 5}
    ensures WithSelfLoops(DirectedExample())[3] == {3, 5}
    ensures WithSelfLoops(DirectedExample())[4] == {3, 4}
    ensures WithSelfLoops(DirectedExample())[5] == {2, 5, 6}
    ensures WithSelfLoops(DirectedExample())[6] == {6}
  {
    assert Ready(DirectedExample());
    SelfLoopsReady(DirectedExample());
  }

  /** The neighbour counts once the self-loops are in. */
  lemma DirectedExampleDegrees()
    ensures Ready(WithSelfLoops(DirectedExample())) && SelfLooped(WithSelfLoops(DirectedExample()))
    ensures WithSelfLoops(DirectedExample()).Keys == {1, 2, 3, 4, 5, 6}
    ensures Degrees(WithSelfLoops(DirectedExample()))[1] == 4
    ensures Degrees(WithSelfLoops(DirectedExample()))[2] == 2
    ensures Degrees(WithSelfLoops(DirectedExample()))[3] == 2
    ensures Degrees(WithSelfLoops(DirectedExample()))[4] == 2
    ensures Degrees(WithSelfLoops(DirectedExample()))[5] == 3
    ensures Degrees(WithSelfLoops(DirectedExample()))[6] == 1
  {
    DirectedExampleLooped();
  }

  /** 1 reaches four vertices counting itself, more than any other, so the first scan
      picks it. */
  lemma DirectedExampleFirstPick()
    ensures Ready(WithSelfLoops(DirectedExample())) && SelfLooped(WithSelfLoops(DirectedExample()))
    ensures WithSelfLoops(DirectedExample()) != map[]
    ensures DegreePick(WithSelfLoops(DirectedExample())) == 1
  {
    DirectedExampleDegrees();
    var A := WithSelfLoops(DirectedExample());
    var d := Degrees(A);
    assert IsMostConnected(d, A.Keys, Pick(4, 1)) by {
      forall k | k in A.Keys
        ensures !Beats(d[k], k, Pick(4, 1))
      {
        assert k in {1, 2, 3, 4, 5, 6};
      }
    }
    DegreePickIs(A, Pick(4, 1));
  }

  /** The first round removes 1 with its out-neighbours 2, 3 and 4, which leaves 5 and 6
      with edge 5->6. */
  lemma DirectedExampleRemoval()
    ensures Ready(RemoveVertices(WithSelfLoops(DirectedExample()), {1, 2, 3, 4}))
    ensures SelfLooped(RemoveVertices(WithSelfLoops(DirectedExample()), {1, 2, 3, 4}))
    ensures RemoveVertices(WithSelfLoops(DirectedExample()), {1, 2, 3, 4}).Keys == {5, 6}
    ensures RemoveVertices(WithSelfLoops(DirectedExample()), {1, 2, 3, 4})[5] == {5, 6}
    ensures RemoveVertices(WithSelfLoops(DirectedExample()), {1, 2, 3, 4})[6] == {6}
  {
    DirectedExampleLooped();
    RemovalKeepsReady(WithSelfLoops(DirectedExample()), {1, 2, 3, 4});
  }

  /** On what is left, 5 reaches both vertices. */
  lemma DirectedExampleSecondPick()
    ensures Ready(RemoveVertices(WithSelfLoops(DirectedExample()), {1, 2, 3, 4})) && SelfLooped(RemoveVertices(WithSelfLoops(DirectedExample()), {1, 2, 3, 4}))
    ensures RemoveVertices(WithSelfLoops(DirectedExample()), {1, 2, 3, 4}) != map[]
    ensures DegreePick(RemoveVertices(WithSelfLoops(DirectedExample()), {1, 2, 3, 4})) == 5
  {
    DirectedExampleRemoval();
    var B := RemoveVertices(WithSelfLoops(DirectedExample()), {1, 2, 3, 4});
    var d := Degrees(B);
    assert 5 in B;
    assert d[5] == 2 && d[6] == 1;
    assert IsMostConnected(d, B.Keys, Pick(2, 5)) by {
      forall k | k in B.Keys
        ensures !Beats(d[k], k, Pick(2, 5))
      {
        assert k in {5, 6};
      }
    }
    DegreePickIs(B, Pick(2, 5));
  }

  lemma DirectedExampleRest()
    ensures Ready(RemoveVertices(WithSelfLoops(DirectedExample()), {1, 2, 3, 4}))
    ensures SelfLooped(RemoveVertices(WithSelfLoops(DirectedExample()), {1, 2, 3, 4}))
    ensures GreedySpec(RemoveVertices(WithSelfLoops(DirectedExample()), {1, 2, 3, 4})) == {5}
  {
    DirectedExampleSecondPick();
    DirectedExampleRemoval();
    var B := RemoveVertices(WithSelfLoops(DirectedExample()), {1, 2, 3, 4});
    assert RemoveVertices(B, B[5]).Keys == {};
    assert RemoveVertices(B, B[5]) == map[];
    GreedyStep(B, 5);
  }

  /** The greedy on the directed example of the generator tests returns {1, 5}. */
  lemma DirectedExampleGreedy()
    ensures Ready(DirectedExample())
    ensures Ready(WithSelfLoops(DirectedExample())) && SelfLooped(WithSelfLoops(DirectedExample()))
    ensures GreedySpec(WithSelfLoops(DirectedExample())) == {1, 5}
  {
    DirectedExampleLooped();
    DirectedExampleFirstPick();
    DirectedExampleRest();
    GreedyStep(WithSelfLoops(DirectedExample()), 1);
  }

  /** A directed graph on which the connected generator has to divert: edges 1->2 and
      3->2. */
  function DivertExample(): map<int, set<int>>
  {
    map[1 := {2}, 2 := {}, 3 := {2}]
  }

  /** Every vertex of the divert example touches an edge. */
  lemma DivertExampleReady()
    ensures Ready(DivertExample()) && DivertExample() != map[]
    ensures DivertExample().Keys == {1, 2, 3}
    ensures DivertExample()[1] == {2} && DivertExample()[2] == {} && DivertExample()[3] == {2}
    ensures !HasIsolatedVertex(DivertExample())
  {
    var adj := DivertExample();
    assert 1 in adj;
    forall v | v in adj
      ensures !Isolated(adj, v)
    {
      assert v in {1, 2, 3};
      assert 2 in adj[1];
    }
  }

  /** 1 and 3 have one out-neighbour each, so the first scan picks 3, the larger. */
  lemma DivertExampleFirstPick()
    ensures Ready(DivertExample()) && DivertExample() != map[]
    ensures DegreePick(DivertExample()) == 3
  {
    DivertExampleReady();
    var adj := DivertExample();
    var d := Degrees(adj);
    assert d[1] == 1 && d[2] == 0 && d[3] == 1;
    assert IsMostConnected(d, adj.Keys, Pick(1, 3)) by {
      forall k | k in adj.Keys
        ensures !Beats(d[k], k, Pick(1, 3))
      {
        assert k in {1, 2, 3};
      }
    }
    DegreePickIs(adj, Pick(1, 3));
  }

  /** A round in which no covered vertex has an uncovered neighbour and q is the only
      divert candidate picks q. */
  lemma OnlyCandidate(adj: map<int, set<int>>, C: set<int>, best: Pick, q: int)
    requires Ready(adj) && C <= adj.Keys && q > 0
    requires IsMostConnected(UnseenCounts(adj, C), C, best) && best.count <= 0
    requires DivertCandidates(adj, C) == {q}
    ensures NextPick(adj, C, true) == Success(q)
  {
    var scores := UnseenCounts(adj, C);
    ScanIsMostConnected(scores, C, best);
    SingleScan(scores, q);
  }

  /** A scan over one positive id ends at that id. */
  lemma SingleScan(scores: map<int, int>, q: int)
    requires q in scores && q > 0 && scores[q] >= 0
    ensures MostConnected(scores, {q}) == Pick(scores[q], q)
  {
    ScanIsMostConnected(scores, {q}, Pick(scores[q], q));
  }

  /** With 2 and 3 covered no covered vertex has an uncovered neighbour, and 1, whose
      neighbour 2 is covered, is the only divert candidate. */
  lemma DivertExampleDivert()
    ensures Ready(DivertExample())
    ensures NextPick(DivertExample(), {2, 3}, true) == Success(1)
  {
    DivertExampleReady();
    var adj := DivertExample();
    var C := {2, 3};
    var scores := UnseenCounts(adj, C);
    assert adj[2] - C == {} && adj[3] - C == {};
    assert scores[2] == 0 && scores[3] == 0;
    assert IsMostConnected(scores, C, Pick(0, 3)) by {
      forall k | k in C
        ensures !Beats(scores[k], k, Pick(0, 3))
      {
      }
    }
    var candidates := DivertCandidates(adj, C);
    assert 2 in adj[1] * C;
    assert 1 in candidates;
    forall v | v in candidates
      ensures v == 1
    {
      assert v in {1, 2, 3};
    }
    assert candidates == {1};
    OnlyCandidate(adj, C, Pick(0, 3), 1);
  }

  /** A connected greedy round whose pick q completes the cover ends the run. */
  lemma LastRound(adj: map<int, set<int>>, D: set<int>, C: set<int>, divert: bool, q: int)
    requires Ready(adj) && C <= adj.Keys && C != adj.Keys
    requires NextPick(adj, C, divert) == Success(q) && C + adj[q] + {q} == adj.Keys
    ensures ConnectedFrom(adj, D, C, divert) == Success(D + {q})
  {
    ConnectedRound(adj, D, C, q, divert);
  }

  /** A connected greedy whose first pick p covers C, short of every vertex, and whose
      second pick q covers the rest returns {p, q}. */
  lemma TwoRounds(adj: map<int, set<int>>, divert: bool, p: int, C: set<int>, q: int)
    requires Ready(adj) && adj != map[] && DegreePick(adj) == p && C == adj[p] + {p}
    requires C <= adj.Keys && C != adj.Keys && NextPick(adj, C, divert) == Success(q)
    requires C + adj[q] + {q} == adj.Keys
    ensures ConnectedGreedySpec(adj, divert) == Success({p, q})
  {
    LastRound(adj, {p}, C, divert, q);
    assert {p} + {q} == {p, q};
  }

  /** The two rounds of the divert example, stated for any map with its vertices and
      neighbour sets. */
  lemma RunOfExample(adj: map<int, set<int>>)
    requires Ready(adj) && adj.Keys == {1, 2, 3} && adj[1] == {2} && adj[3] == {2}
    requires DegreePick(adj) == 3 && NextPick(adj, {2, 3}, true) == Success(1)
    ensures ConnectedGreedySpec(adj, true) == Success({3, 1})
  {
    ExampleCover(adj.Keys, adj[1], adj[3]);
    TwoRounds(adj, true, 3, {2, 3}, 1);
  }

  /** The covered sets of the divert example's two rounds. */
  lemma ExampleCover(K: set<int>, n1: set<int>, n3: set<int>)
    requires K == {1, 2, 3} && n1 == {2} && n3 == {2}
    ensures n3 + {3} == {2, 3} && {2, 3} <= K && {2, 3} != K && {2, 3} + n1 + {1} == K
  {
    assert 1 !in {2, 3};
  }

  /** The run on the divert example: 3 first, then the diversion to 1 covers everything. */
  lemma DivertExampleRun()
    ensures Ready(DivertExample())
    ensures ConnectedGreedySpec(DivertExample(), true) == Success({3, 1})
  {
    DivertExampleReady();
    DivertExampleFirstPick();
    DivertExampleDivert();
    RunOfExample(DivertExample());
  }

  /** No edge joins 1 and 3, so {1, 3} does not induce a connected subgraph. */
  lemma DivertExampleDisconnected()
    ensures !InducesConnected(DivertExample(), {1, 3})
  {
    var sub := Induced(DivertExample(), {1, 3});
    assert 1 in sub && 3 in sub;
    forall v | v in sub
      ensures sub[v] == {}
    {
    }
    EdgelessNotAllReachable(sub, 1, 3);
    EdgelessNotAllReachable(sub, 3, 1);
  }

  /** On the divert example the connected generator returns {1, 3}, and no edge joins 1
      and 3: a diverted result need not induce a connected subgraph. */
  lemma DivertExampleResult()
    ensures Ready(DivertExample())
    ensures ConnectedResult(true, DivertExample()) == Success({1, 3})
    ensures !InducesConnected(DivertExample(), {1, 3})
  {
    DivertExampleReady();
    DivertExampleRun();
    AcceptedRun(DivertExample(), {3, 1});
    assert {3, 1} == {1, 3};
    DivertExampleDisconnected();
  }

  /** A directed graph without isolated vertices gets what the connected greedy returns. */
  lemma AcceptedRun(adj: map<int, set<int>>, R: set<int>)
    requires Ready(adj) && !HasIsolatedVertex(adj) && ConnectedGreedySpec(adj, true) == Success(R)
    ensures ConnectedResult(true, adj) == Success(R)
  {
  }
}
