/** Paths and reachability over an adjacency map (vertex id -> neighbour ids): the
    specification against which the breadth-first search and the progress arguments of
    the connected generators are proved. */
module Paths {

  /** Every neighbour id is itself a vertex of the map. */
  ghost predicate NeighborsAreVertices(adj: map<int, set<int>>)
  {
    forall v, w :: v in adj && w in adj[v] ==> w in adj
  }

  lemma NeighborsWithin(adj: map<int, set<int>>, v: int)
    requires NeighborsAreVertices(adj) && v in adj
    ensures adj[v] <= adj.Keys
  {
    forall w | w in adj[v]
      ensures w in adj.Keys
    {
    }
  }

  /** Adjacency that goes both ways, as in an undirected graph. */
  ghost predicate Symmetric(adj: map<int, set<int>>)
  {
    forall v, w :: v in adj && w in adj[v] ==> w in adj && v in adj[w]
  }

  /** p is a walk that follows neighbour sets from p[0] to its last element. */
  ghost predicate IsPath(adj: map<int, set<int>>, p: seq<int>)
  {
    && |p| > 0
    && (forall i :: 0 <= i < |p| ==> p[i] in adj)
    && (forall i, j :: 0 <= i < |p| && j == i + 1 < |p| ==> p[j] in adj[p[i]])
  }

  ghost predicate Reachable(adj: map<int, set<int>>, s: int, t: int)
  {
    exists p :: IsPath(adj, p) && p[0] == s && p[|p| - 1] == t
  }

  /** Every vertex of the map can be reached from s. */
  ghost predicate AllReachableFrom(adj: map<int, set<int>>, s: int)
  {
    forall t :: t in adj ==> Reachable(adj, s, t)
  }

  /** S contains the neighbours of each of its members. */
  ghost predicate ClosedUnder(adj: map<int, set<int>>, S: set<int>)
  {
    forall x, y :: x in S && x in adj && y in adj[x] ==> y in S
  }

  lemma ReachableSelf(adj: map<int, set<int>>, s: int)
    requires s in adj
    ensures Reachable(adj, s, s)
  {
    assert IsPath(adj, [s]);
  }

  /** Reachability extends by one neighbour step. */
  lemma ReachableStep(adj: map<int, set<int>>, s: int, x: int, y: int)
    requires Reachable(adj, s, x) && x in adj && y in adj[x] && y in adj
    ensures Reachable(adj, s, y)
  {
    var p :| IsPath(adj, p) && p[0] == s && p[|p| - 1] == x;
    var q := p + [y];
    forall i, j | 0 <= i < |q| && j == i + 1 < |q|
      ensures q[j] in adj[q[i]]
    {
      if j < |p| {
        assert q[i] == p[i] && q[j] == p[j];
      }
    }
    assert IsPath(adj, q) && q[0] == s && q[|q| - 1] == y;
  }

  /** Every element of a path that starts in a closed set stays in it. */
  lemma {:induction false} PathStaysInClosed(adj: map<int, set<int>>, S: set<int>, p: seq<int>, k: nat)
    requires IsPath(adj, p) && p[0] in S && ClosedUnder(adj, S) && k < |p|
    ensures p[k] in S
  {
    if k > 0 {
      PathStaysInClosed(adj, S, p, k - 1);
      var x, y := p[k - 1], p[k];
      assert x in S && x in adj;
      assert y in adj[x];
      assert y in S;
    }
  }

  /** A set that holds s and is closed under neighbours holds everything reachable from s. */
  lemma ClosedContainsReachable(adj: map<int, set<int>>, S: set<int>, s: int, t: int)
    requires s in S && ClosedUnder(adj, S) && Reachable(adj, s, t)
    ensures t in S
  {
    var p :| IsPath(adj, p) && p[0] == s && p[|p| - 1] == t;
    PathStaysInClosed(adj, S, p, |p| - 1);
  }

  /** A path that starts outside C and ends inside it enters C at some step. */
  lemma {:induction false} PathEnters(adj: map<int, set<int>>, p: seq<int>, C: set<int>) returns (i: nat)
    requires IsPath(adj, p) && p[0] !in C && p[|p| - 1] in C
    ensures 0 < i < |p| && p[i - 1] !in C && p[i] in C && p[i] in adj[p[i - 1]]
  {
    if p[1] in C {
      i := 1;
    } else {
      var q := p[1..];
      assert IsPath(adj, q) by {
        forall a, b | 0 <= a < |q| && b == a + 1 < |q| ensures q[b] in adj[q[a]] {
          assert q[a] == p[a + 1] && q[b] == p[b + 1];
        }
      }
      var k := PathEnters(adj, q, C);
      i := k + 1;
      assert p[i - 1] == q[k - 1] && p[i] == q[k];
    }
  }

  /** In a symmetric graph in which every vertex is reachable from s, any nonempty proper
      part C of the vertices has an outside vertex u with a neighbour w inside C. */
  lemma CrossingVertex(adj: map<int, set<int>>, s: int, C: set<int>) returns (u: int, w: int)
    requires Symmetric(adj) && s in adj && AllReachableFrom(adj, s)
    requires C <= adj.Keys && C != {} && C != adj.Keys
    ensures u in adj && u !in C && w in C && w in adj[u]
  {
    var out := adj.Keys - C;
    var t := PickOutside(adj.Keys, C);
    var c := PickOne(C);
    if s in C {
      assert Reachable(adj, s, t);
      var p :| IsPath(adj, p) && p[0] == s && p[|p| - 1] == t;
      var i := PathEnters(adj, p, out);
      u := p[i];
      assert u in adj && p[i - 1] in adj;
      SymmetricFlip(adj, p[i - 1], p[i]);
      w := p[i - 1];
    } else {
      assert Reachable(adj, s, c);
      var p :| IsPath(adj, p) && p[0] == s && p[|p| - 1] == c;
      var i := PathEnters(adj, p, C);
      u := p[i - 1];
      assert u in adj;
      w := p[i];
    }
  }

  lemma SymmetricFlip(adj: map<int, set<int>>, v: int, w: int)
    requires Symmetric(adj) && v in adj && w in adj[v]
    ensures w in adj && v in adj[w]
  {
  }

  lemma PickOutside<T>(A: set<T>, C: set<T>) returns (t: T)
    requires C <= A && C != A
    ensures t in A && t !in C
  {
    if forall x :: x in A ==> x in C {
      assert false;
    }
    t :| t in A && t !in C;
  }

  lemma PickOne<T>(C: set<T>) returns (c: T)
    requires C != {}
    ensures c in C
  {
    if forall x :: x !in C {
      assert false;
    }
    c :| c in C;
  }

  /** With two or more vertices and no neighbours at all, nothing but s is reachable from s. */
  lemma EdgelessNotAllReachable(adj: map<int, set<int>>, s: int, t: int)
    requires s in adj && t in adj && s != t
    requires forall v :: v in adj ==> adj[v] == {}
    ensures !AllReachableFrom(adj, s)
  {
    assert ClosedUnder(adj, {s});
    if Reachable(adj, s, t) {
      ClosedContainsReachable(adj, {s}, s, t);
    }
  }
}
