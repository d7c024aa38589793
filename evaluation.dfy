/**
 * The two state evaluation functions the adversarial agents are configured
 * with: the game score itself, and the score minus the distance to the
 * nearest food pellet.
 */
module Evaluation {
  import opened Games
  import opened Minimax
  import opened Expectimax

  /** scoreEvaluationFunction: the game's own score. */
  function ScoreEvaluation<S, A>(g: Game<S, A>, s: S): (r: real)
    ensures r == g.score(s)
  {
    g.score(s)
  }

  /**
   * Searched with the score as evaluation, a win or a loss is worth exactly
   * its score, under minimax and under expectimax, at any depth and turn.
   */
  lemma ScoreEvaluationAtTerminal<S, A>(g: Game<S, A>, s: S, depth: nat, agent: nat)
    requires g.Valid() && agent < g.numAgents && g.Terminal(s)
    ensures MinimaxValue(g, t => ScoreEvaluation(g, t), s, depth, agent) == g.score(s)
    ensures ExpectimaxValue(g, t => ScoreEvaluation(g, t), s, depth, agent) == g.score(s)
  {
  }

  /** The Manhattan distance from `pos` to the nearest pellet of a non-empty food list. */
  function ClosestFoodDistance(pos: Pos, foodList: seq<Pos>): (d: nat)
    requires foodList != []
    ensures exists k :: 0 <= k < |foodList| && d == ManhattanDistance(pos, foodList[k])
    ensures forall k :: 0 <= k < |foodList| ==> d <= ManhattanDistance(pos, foodList[k])
  {
    if |foodList| == 1 then ManhattanDistance(pos, foodList[0])
    else
      var rest := ClosestFoodDistance(pos, foodList[..|foodList| - 1]);
      var dist := ManhattanDistance(pos, foodList[|foodList| - 1]);
      if dist < rest then dist else rest
  }

  /** The nearest distance over one more pellet. */
  lemma ClosestFoodSnoc(pos: Pos, foodList: seq<Pos>, i: nat)
    requires 1 <= i < |foodList|
    ensures ClosestFoodDistance(pos, foodList[..i + 1]) ==
      var rest, dist := ClosestFoodDistance(pos, foodList[..i]), ManhattanDistance(pos, foodList[i]);
      if dist < rest then dist else rest
  {
    assert foodList[..i + 1][..i] == foodList[..i];
  }

  /** betterEvaluationFunction, as a function of the state. */
  function BetterEvaluation<S, A>(g: Game<S, A>, s: S): real {
    var foodList := g.food(s);
    if foodList == [] then g.score(s)
    else g.score(s) - ClosestFoodDistance(g.pacmanPos(s), foodList) as real
  }

  /**
   * The better evaluation never exceeds the score evaluation, and equals it
   * exactly when no food is left or Pacman stands on a pellet.
   */
  lemma BetterEvaluationBelowScore<S, A>(g: Game<S, A>, s: S)
    ensures BetterEvaluation(g, s) <= ScoreEvaluation(g, s)
    ensures BetterEvaluation(g, s) == ScoreEvaluation(g, s) <==> g.food(s) == [] || g.pacmanPos(s) in g.food(s)
  {
    var foodList := g.food(s);
    if foodList != [] {
      var pos := g.pacmanPos(s);
      if pos in foodList {
        var k :| 0 <= k < |foodList| && foodList[k] == pos;
        assert ManhattanDistance(pos, foodList[k]) == 0;
      }
      var j :| 0 <= j < |foodList| && ClosestFoodDistance(pos, foodList) == ManhattanDistance(pos, foodList[j]);
      if ClosestFoodDistance(pos, foodList) == 0 {
        assert foodList[j] == pos;
      }
    }
  }

  /**
   * betterEvaluationFunction as the source computes it: the running minimum
   * distance starts at the first pellet and is lowered by each later one.
   */
  method ComputeBetterEvaluation<S, A>(g: Game<S, A>, s: S) returns (r: real)
    ensures g.food(s) == [] ==> r == g.score(s)
    ensures g.food(s) != [] ==>
      (exists k :: 0 <= k < |g.food(s)| && r == g.score(s) - ManhattanDistance(g.pacmanPos(s), g.food(s)[k]) as real) &&
      (forall k :: 0 <= k < |g.food(s)| ==> g.score(s) - ManhattanDistance(g.pacmanPos(s), g.food(s)[k]) as real <= r)
    ensures r == BetterEvaluation(g, s)
  {
    var pacManPos := g.pacmanPos(s);
    var foodList := g.food(s);
    if foodList == [] {
      return g.score(s);
    }
    var minDist := ManhattanDistance(pacManPos, foodList[0]);
    assert foodList[..1] == [foodList[0]];
    for i := 1 to |foodList|
      invariant minDist == ClosestFoodDistance(pacManPos, foodList[..i])
    {
      ClosestFoodSnoc(pacManPos, foodList, i);
      var dist := ManhattanDistance(pacManPos, foodList[i]);
      if dist < minDist {
        minDist := dist;
      }
    }
    assert foodList[..|foodList|] == foodList;
    return g.score(s) - minDist as real;
  }
}
