/**
 * The expectimax value of a position: Pacman maximises as in minimax, but
 * every ghost chooses uniformly at random among its legal moves, so a ghost
 * node is worth the exact mean of its successors. A ghost with no legal move
 * is worth 0, the start of the running average; Pacman with no legal move is
 * worth -999999, the start of the running maximum.
 */
module Expectimax {
  import opened Wrappers
  import opened Folds
  import opened Games
  import opened Minimax

  /** The arithmetic mean, 0 for an empty list. */
  function Mean(vals: seq<real>): real {
    if vals == [] then 0.0 else Share(Sum(vals), |vals|)
  }

  /** One n-th of a sum. */
  function Share(sum: real, n: nat): real
    requires n > 0
  {
    sum / (n as real)
  }

  /** Adding v/n to a running sum/n is adding v to the sum, exactly (no rounding in reals). */
  lemma AddShare(sum: real, v: real, n: nat)
    requires n > 0
    ensures Share(sum, n) + v / (n as real) == Share(sum + v, n)
  {
  }

  /** One n-th of a sum stays within bounds that the sum obeys n times over. */
  lemma ShareBounds(sum: real, n: nat, lo: real, hi: real)
    requires n > 0 && (n as real) * lo <= sum <= (n as real) * hi
    ensures Share(sum, n) * (n as real) == sum
    ensures lo <= Share(sum, n) <= hi
  {
  }

  /** The mean of n values is their sum shared out n ways, and lies within any bounds of the values. */
  lemma MeanIsAverage(vals: seq<real>, lo: real, hi: real)
    requires vals != []
    requires forall j :: 0 <= j < |vals| ==> lo <= vals[j] <= hi
    ensures Mean(vals) * (|vals| as real) == Sum(vals)
    ensures lo <= Mean(vals) <= hi
  {
    SumBounds(vals, lo, hi);
    ShareBounds(Sum(vals), |vals|, lo, hi);
  }

  /** The values of the successors of `s`, one per legal move of `agent`, in move order. */
  function ExpectimaxKids<S, A>(g: Game<S, A>, ev: S -> real, s: S, depth: nat, agent: nat): (vals: seq<real>)
    requires g.Valid() && agent < g.numAgents && depth >= 1
    decreases depth, g.numAgents - agent, 0
  {
    var acts := g.legal(s, agent);
    var next := g.NextTurn(depth, agent);
    seq(|acts|, i requires 0 <= i < |acts| => ExpectimaxValue(g, ev, g.succ(s, agent, acts[i]), next.0, next.1))
  }

  function ExpectimaxValue<S, A>(g: Game<S, A>, ev: S -> real, s: S, depth: nat, agent: nat): real
    requires g.Valid() && agent < g.numAgents
    decreases depth, g.numAgents - agent, 1
  {
    if g.Terminal(s) || depth == 0 then ev(s)
    else if agent == 0 then MaxFold(ExpectimaxKids(g, ev, s, depth, agent))
    else Mean(ExpectimaxKids(g, ev, s, depth, agent))
  }

  /**
   * A ghost node that has moves is worth exactly the average of its
   * successors' values: n times its value is their sum, and it lies between
   * the least and the greatest of them.
   */
  lemma GhostNodeIsExactMean<S, A>(g: Game<S, A>, ev: S -> real, s: S, depth: nat, agent: nat, lo: real, hi: real)
    requires g.Valid() && 1 <= agent < g.numAgents && depth >= 1 && !g.Terminal(s)
    requires g.legal(s, agent) != []
    requires forall j :: 0 <= j < |g.legal(s, agent)| ==> lo <= ExpectimaxKids(g, ev, s, depth, agent)[j] <= hi
    ensures ExpectimaxValue(g, ev, s, depth, agent) * (|g.legal(s, agent)| as real) == Sum(ExpectimaxKids(g, ev, s, depth, agent))
    ensures lo <= ExpectimaxValue(g, ev, s, depth, agent) <= hi
  {
    MeanIsAverage(ExpectimaxKids(g, ev, s, depth, agent), lo, hi);
  }

  /**
   * When every evaluation lies strictly between the sentinels and no agent is
   * ever stuck, every expectimax value does too: Pacman's node is worth one of
   * its successors' values, and a ghost's node lies between the least and the
   * greatest of them.
   */
  lemma {:induction false} ExpectimaxValueWithinSentinels<S(!new), A>(g: Game<S, A>, ev: S -> real, s: S, depth: nat, agent: nat)
    requires g.Valid() && agent < g.numAgents && WithinSentinels(g, ev)
    ensures Bottom < ExpectimaxValue(g, ev, s, depth, agent) < Top
    ensures !(g.Terminal(s) || depth == 0) ==>
      var kids := ExpectimaxKids(g, ev, s, depth, agent);
      MinFold(kids) <= ExpectimaxValue(g, ev, s, depth, agent) <= MaxFold(kids)
    decreases depth, g.numAgents - agent
  {
    if !(g.Terminal(s) || depth == 0) {
      var kids := ExpectimaxKids(g, ev, s, depth, agent);
      var next := g.NextTurn(depth, agent);
      forall i | 0 <= i < |kids| ensures Bottom < kids[i] < Top {
        ExpectimaxValueWithinSentinels(g, ev, g.succ(s, agent, g.legal(s, agent)[i]), next.0, next.1);
      }
      assert g.legal(s, agent) != [];
      assert Bottom < kids[0] < Top;
      if agent != 0 {
        MeanIsAverage(kids, MinFold(kids), MaxFold(kids));
      }
    }
  }

  /** Under the same conditions, Pacman with a legal move always chooses one. */
  lemma ExpectimaxChoiceWithinSentinels<S(!new), A>(g: Game<S, A>, ev: S -> real, s: S, depth: nat)
    requires g.Valid() && WithinSentinels(g, ev) && g.legal(s, 0) != []
    ensures ExpectimaxChoice(g, ev, s, depth).Some?
  {
    var vals := ExpectimaxRootValues(g, ev, s, depth);
    ExpectimaxValueWithinSentinels(g, ev, g.succ(s, 0, g.legal(s, 0)[0]), depth, 1);
    assert Bottom < vals[0];
    ExpectimaxChoiceIsFirstBest(g, ev, s, depth);
  }

  /** The expectimax values of Pacman's moves at the root, where the first ghost moves next. */
  function ExpectimaxRootValues<S, A>(g: Game<S, A>, ev: S -> real, s: S, depth: nat): (vals: seq<real>)
    requires g.Valid()
  {
    var acts := g.legal(s, 0);
    seq(|acts|, i requires 0 <= i < |acts| => ExpectimaxValue(g, ev, g.succ(s, 0, acts[i]), depth, 1))
  }

  /** The move an expectimax search of `depth` plies picks at `s`: the first of greatest value. */
  function ExpectimaxChoice<S, A>(g: Game<S, A>, ev: S -> real, s: S, depth: nat): Option<A>
    requires g.Valid()
  {
    ActionAt(g.legal(s, 0), FirstBest(ExpectimaxRootValues(g, ev, s, depth)).index)
  }

  /**
   * The chosen move is the first legal move whose expectimax value is
   * greatest; no move is chosen exactly when every value is at or below -999999.
   */
  lemma ExpectimaxChoiceIsFirstBest<S, A>(g: Game<S, A>, ev: S -> real, s: S, depth: nat)
    requires g.Valid()
    ensures var acts, vals := g.legal(s, 0), ExpectimaxRootValues(g, ev, s, depth);
      (ExpectimaxChoice(g, ev, s, depth).None? <==> forall j :: 0 <= j < |vals| ==> vals[j] <= Bottom) &&
      (ExpectimaxChoice(g, ev, s, depth).Some? ==>
        exists k :: 0 <= k < |acts| && ExpectimaxChoice(g, ev, s, depth) == Some(acts[k]) &&
          Bottom < vals[k] && (forall j :: 0 <= j < |vals| ==> vals[j] <= vals[k]) &&
          (forall j :: 0 <= j < k ==> vals[j] < vals[k]))
  {
    var vals := ExpectimaxRootValues(g, ev, s, depth);
    FirstBestIsFirstMaximum(vals);
    var index := FirstBest(vals).index;
    if index.Some? {
      var k := index.value;
      assert ExpectimaxChoice(g, ev, s, depth) == Some(g.legal(s, 0)[k]);
      assert forall j :: 0 <= j < |vals| ==> vals[j] <= vals[k];
    }
  }
}

/**
 * ExpectimaxAgent: one recursive method for every node kind; Pacman keeps a
 * running maximum from -999999, a ghost adds v/n for each of its n moves.
 */
module ExpectimaxAgent {
  import opened Wrappers
  import opened Folds
  import opened Games
  import opened Expectimax

  method ExpectiMax<S, A>(g: Game<S, A>, ev: S -> real, s: S, depth: nat, agentNo: nat) returns (r: real)
    requires g.Valid() && agentNo < g.numAgents
    ensures r == ExpectimaxValue(g, ev, s, depth, agentNo)
    decreases depth, g.numAgents - agentNo
  {
    if g.Terminal(s) || depth == 0 {
      return ev(s);
    }
    ghost var kids := ExpectimaxKids(g, ev, s, depth, agentNo);
    var isPacman := agentNo == 0;
    var actions := g.legal(s, agentNo);
    if isPacman {
      var max := Bottom;
      for i := 0 to |actions|
        invariant max == MaxFold(kids[..i])
      {
        var pacManSuccessor := g.succ(s, agentNo, actions[i]);
        var v := ExpectiMax(g, ev, pacManSuccessor, depth, agentNo + 1);
        assert v == kids[i];
        MaxFoldSnoc(kids, i);
        if v > max {
          max := v;
        }
      }
      assert kids[..|actions|] == kids;
      return max;
    }
    var n := |actions|;
    var avg := 0.0;
    var lastGhost := g.numAgents - 1;
    if agentNo < lastGhost {
      for i := 0 to |actions|
        invariant n > 0 ==> avg == Share(Sum(kids[..i]), n)
        invariant n == 0 ==> avg == 0.0
      {
        var ghostSuccessor := g.succ(s, agentNo, actions[i]);
        var v := ExpectiMax(g, ev, ghostSuccessor, depth, agentNo + 1);
        assert v == kids[i];
        SumSnoc(kids, i);
        AddShare(Sum(kids[..i]), v, n);
        avg := avg + v / (n as real);
      }
      assert kids[..|actions|] == kids;
      return avg;
    }
    for i := 0 to |actions|
      invariant n > 0 ==> avg == Share(Sum(kids[..i]), n)
      invariant n == 0 ==> avg == 0.0
    {
      var ghostSuccessor := g.succ(s, agentNo, actions[i]);
      var v := ExpectiMax(g, ev, ghostSuccessor, depth - 1, 0);
      assert v == kids[i];
      SumSnoc(kids, i);
      AddShare(Sum(kids[..i]), v, n);
      avg := avg + v / (n as real);
    }
    assert kids[..|actions|] == kids;
    return avg;
  }

  /** The root: Pacman's move of greatest expectimax value, the first one on ties. */
  method GetAction<S, A>(g: Game<S, A>, ev: S -> real, s: S, depth: nat) returns (bestMove: Option<A>)
    requires g.Valid()
    ensures bestMove == ExpectimaxChoice(g, ev, s, depth)
  {
    bestMove := None;
    var max := Bottom;
    var pacManActions := g.legal(s, 0);
    ghost var vals := ExpectimaxRootValues(g, ev, s, depth);
    ghost var index: Option<nat> := None;
    for i := 0 to |pacManActions|
      invariant FirstBest(vals[..i]) == Choice(max, index)
      invariant bestMove == ActionAt(pacManActions, index)
      invariant index.Some? ==> index.value < i
    {
      var pacManSuccessor := g.succ(s, 0, pacManActions[i]);
      var value := ExpectiMax(g, ev, pacManSuccessor, depth, 1);
      assert vals[..i + 1][..i] == vals[..i];
      if value > max {
        max := value;
        bestMove := Some(pacManActions[i]);
        index := Some(i);
      }
    }
    assert vals[..|pacManActions|] == vals;
  }
}
