/** The argmax scan shared by every generator: the scan starts from (0, 0), the id of the
    placeholder Vertex(0), and a vertex replaces the current best when its count is larger,
    or equal with a larger id. */
module Selection {
  import opened Paths
  import opened Graphs

  /** A scan state: the largest count seen so far and the id that holds it. */
  datatype Pick = Pick(count: int, id: int)

  /** (count, id) beats best in the lexicographic order on (count, id). */
  predicate Beats(count: int, id: int, best: Pick)
  {
    count > best.count || (count == best.count && id > best.id)
  }

  /** One step of the scan. */
  function Update(best: Pick, count: int, id: int): (r: Pick)
    ensures r == best || r == Pick(count, id)
    ensures !Beats(count, id, r) && !Beats(best.count, best.id, r)
    ensures r != best ==> Beats(count, id, best)
  {
    if Beats(count, id, best) then Pick(count, id) else best
  }

  /** best is the lexicographic maximum of (0, 0) and the pairs (scores[k], k) for k in S. */
  ghost predicate IsMostConnected(scores: map<int, int>, S: set<int>, best: Pick)
    requires S <= scores.Keys
  {
    && (best == Pick(0, 0) || (best.id in S && best.count == scores[best.id]))
    && !Beats(0, 0, best)
    && forall k :: k in S ==> !Beats(scores[k], k, best)
  }

  /** The result of the scan over S, whatever the order of the scan. */
  ghost function MostConnected(scores: map<int, int>, S: set<int>): Pick
    requires S <= scores.Keys
    decreases |S|
  {
    if S == {} then Pick(0, 0)
    else
      var k := Least(S);
      Update(MostConnected(scores, S - {k}), scores[k], k)
  }

  /** The empty scan leaves the placeholder. */
  lemma NothingScanned(scores: map<int, int>)
    ensures IsMostConnected(scores, {}, Pick(0, 0))
  {
  }

  /** Each step of the scan keeps the maximum of what has been scanned. */
  lemma UpdateKeepsMostConnected(scores: map<int, int>, S: set<int>, best: Pick, k: int)
    requires S <= scores.Keys && k in scores && IsMostConnected(scores, S, best)
    ensures IsMostConnected(scores, S + {k}, Update(best, scores[k], k))
  {
  }

  /** The maximum is unique, so the scan's result does not depend on the order in which
      the ids are visited. */
  lemma {:induction false} MostConnectedUnique(scores: map<int, int>, S: set<int>, b1: Pick, b2: Pick)
    requires S <= scores.Keys && IsMostConnected(scores, S, b1) && IsMostConnected(scores, S, b2)
    ensures b1 == b2
  {
    if b1 != Pick(0, 0) {
      assert !Beats(scores[b1.id], b1.id, b2);
    }
    if b2 != Pick(0, 0) {
      assert !Beats(scores[b2.id], b2.id, b1);
    }
  }

  lemma {:induction false} MostConnectedIsMost(scores: map<int, int>, S: set<int>)
    requires S <= scores.Keys
    ensures IsMostConnected(scores, S, MostConnected(scores, S))
    decreases |S|
  {
    if S != {} {
      var k := Least(S);
      MostConnectedIsMost(scores, S - {k});
      UpdateKeepsMostConnected(scores, S - {k}, MostConnected(scores, S - {k}), k);
      assert S - {k} + {k} == S;
    }
  }

  /** A scan that ends in a maximum ends in MostConnected. */
  lemma ScanIsMostConnected(scores: map<int, int>, S: set<int>, best: Pick)
    requires S <= scores.Keys && IsMostConnected(scores, S, best)
    ensures best == MostConnected(scores, S)
  {
    MostConnectedIsMost(scores, S);
    MostConnectedUnique(scores, S, best, MostConnected(scores, S));
  }

  /** Over a nonempty set of natural ids with natural counts, the winner is a scanned id
      (the placeholder only survives as a tie with a real vertex 0 of count 0). */
  lemma MostConnectedIsScanned(scores: map<int, int>, S: set<int>)
    requires S <= scores.Keys && S != {}
    requires forall k :: k in S ==> k >= 0 && scores[k] >= 0
    ensures MostConnected(scores, S).id in S
    ensures scores[MostConnected(scores, S).id] == MostConnected(scores, S).count
  {
    MostConnectedIsMost(scores, S);
    var best := MostConnected(scores, S);
    if best == Pick(0, 0) {
      var k := PickOne(S);
      assert !Beats(scores[k], k, best);
      assert k == 0 && scores[k] == 0;
    }
  }

  /** A winner with a positive count is always a scanned id. */
  lemma PositiveIsScanned(scores: map<int, int>, S: set<int>)
    requires S <= scores.Keys && MostConnected(scores, S).count > 0
    ensures MostConnected(scores, S).id in S
    ensures scores[MostConnected(scores, S).id] == MostConnected(scores, S).count
  {
    MostConnectedIsMost(scores, S);
  }
}
