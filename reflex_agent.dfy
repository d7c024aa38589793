/**
 * ReflexAgent.getAction: score every legal move of Pacman with the agent's
 * evaluation function (which sees the state and the move), and pick one of
 * the moves of greatest score; which one is left to chance.
 */
module ReflexAgent {
  import opened Wrappers
  import opened Games

  /** The score of every legal move, in move order. */
  function Scores<S, A>(evaluationFunction: (S, A) -> real, s: S, legalMoves: seq<A>): (scores: seq<real>)
    ensures |scores| == |legalMoves|
    ensures forall k :: 0 <= k < |legalMoves| ==> scores[k] == evaluationFunction(s, legalMoves[k])
  {
    seq(|legalMoves|, k requires 0 <= k < |legalMoves| => evaluationFunction(s, legalMoves[k]))
  }

  /** Python's max() of a non-empty list: a member no smaller than any other. */
  function MaxScore(scores: seq<real>): (m: real)
    requires scores != []
    ensures exists k :: 0 <= k < |scores| && scores[k] == m
    ensures forall k :: 0 <= k < |scores| ==> scores[k] <= m
  {
    if |scores| == 1 then scores[0]
    else
      var rest := MaxScore(scores[..|scores| - 1]);
      if scores[|scores| - 1] > rest then scores[|scores| - 1] else rest
  }

  /** The indices, in increasing order, whose score equals `bestScore`. */
  function BestIndices(scores: seq<real>, bestScore: real): (indices: seq<nat>)
    ensures forall i: nat :: i in indices <==> i < |scores| && scores[i] == bestScore
    ensures forall p, q :: 0 <= p < q < |indices| ==> indices[p] < indices[q]
  {
    if scores == [] then []
    else
      var last := |scores| - 1;
      var earlier := BestIndices(scores[..last], bestScore);
      assert forall p :: 0 <= p < |earlier| ==> earlier[p] < last by {
        forall p | 0 <= p < |earlier| ensures earlier[p] < last {
          assert earlier[p] in earlier;
        }
      }
      earlier + (if scores[last] == bestScore then [last] else [])
  }

  /**
   * Picks, among the indices of greatest score, any one (the source picks at
   * random). With no legal move the source's max() raises; that is `None` here.
   */
  method GetAction<S, A>(g: Game<S, A>, evaluationFunction: (S, A) -> real, s: S) returns (r: Option<A>)
    ensures r.None? <==> g.legal(s, 0) == []
    ensures r.Some? ==>
      var legalMoves := g.legal(s, 0);
      var scores := Scores(evaluationFunction, s, legalMoves);
      exists k :: k in BestIndices(scores, MaxScore(scores)) && legalMoves[k] == r.value
    ensures r.Some? ==>
      r.value in g.legal(s, 0) &&
      forall k :: 0 <= k < |g.legal(s, 0)| ==> evaluationFunction(s, g.legal(s, 0)[k]) <= evaluationFunction(s, r.value)
  {
    var legalMoves := g.legal(s, 0);
    if legalMoves == [] {
      return None;
    }
    var scores := Scores(evaluationFunction, s, legalMoves);
    var bestScore := MaxScore(scores);
    var bestIndices := BestIndices(scores, bestScore);
    var top :| 0 <= top < |scores| && scores[top] == bestScore;
    assert top in bestIndices;
    var chosenIndex :| chosenIndex in bestIndices;
    assert scores[chosenIndex] == evaluationFunction(s, legalMoves[chosenIndex]) == bestScore;
    forall k | 0 <= k < |legalMoves| ensures evaluationFunction(s, legalMoves[k]) <= bestScore {
      assert scores[k] == evaluationFunction(s, legalMoves[k]);
    }
    return Some(legalMoves[chosenIndex]);
  }
}
