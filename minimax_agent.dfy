/**
 * MinimaxAgent: a plain minimax search whose running maximum starts at the
 * lower bound `a` and whose running minimum starts at the upper bound `b`.
 * The bounds are handed down (the running maximum becomes the child's `a`,
 * the running minimum the child's `b`) but nothing is pruned.
 */
module MinimaxAgent {
  import opened Wrappers
  import opened Folds
  import opened Games
  import opened Minimax

  /**
   * Pacman's node: max(a, values of the ghost replies), or the evaluation at
   * a leaf. The running maximum starts at `a`, so an inner node never returns
   * less than `a`, and returns exactly max(a, value) below `b`.
   */
  method Max<S, A>(g: Game<S, A>, ev: S -> real, a: real, b: real, s: S, depth: nat) returns (r: real)
    requires g.Valid() && Bottom <= a && b <= Top
    ensures Window(r, MinimaxValue(g, ev, s, depth, 0), a, b)
    ensures g.Terminal(s) || depth == 0 ==> r == ev(s)
    ensures !(g.Terminal(s) || depth == 0) ==> a <= r
    ensures !(g.Terminal(s) || depth == 0) && MinimaxValue(g, ev, s, depth, 0) < b ==>
      r == MaxReal(a, MinimaxValue(g, ev, s, depth, 0))
    decreases depth, g.numAgents
  {
    if g.Terminal(s) || depth == 0 {
      return ev(s);
    }
    ghost var kids := MinimaxKids(g, ev, s, depth, 0);
    var max := a;
    var pacManActions := g.legal(s, 0);
    for i := 0 to |pacManActions|
      invariant a <= max
      invariant MaxFold(kids[..i]) <= a ==> max == a
      invariant MaxFold(kids[..i]) < b ==> max == MaxReal(a, MaxFold(kids[..i]))
      invariant MaxFold(kids[..i]) >= b ==> max >= b
    {
      var score := Min(g, ev, max, b, 1, g.succ(s, 0, pacManActions[i]), depth);
      assert Window(score, kids[i], max, b);
      MaxFoldSnoc(kids, i);
      if score > max {
        max := score;
      }
    }
    assert kids[..|pacManActions|] == kids;
    return max;
  }

  /**
   * A ghost's node: min(b, values of the next agent's replies), or the
   * evaluation at a win or loss. The running minimum starts at `b`, so an
   * inner node never returns more than `b`, and returns exactly min(b, value)
   * above `a`. Depth is not tested here: only Pacman's node stops at depth 0,
   * so a search started at depth >= 1 reaches every ghost with depth >= 1.
   */
  method Min<S, A>(g: Game<S, A>, ev: S -> real, a: real, b: real, agentNo: nat, s: S, depth: nat) returns (r: real)
    requires g.Valid() && 1 <= agentNo < g.numAgents && depth >= 1
    requires Bottom <= a && b <= Top
    ensures Window(r, MinimaxValue(g, ev, s, depth, agentNo), a, b)
    ensures g.Terminal(s) ==> r == ev(s)
    ensures !g.Terminal(s) ==> r <= b
    ensures !g.Terminal(s) && MinimaxValue(g, ev, s, depth, agentNo) > a ==>
      r == MinReal(b, MinimaxValue(g, ev, s, depth, agentNo))
    decreases depth, g.numAgents - agentNo
  {
    if g.Terminal(s) {
      return ev(s);
    }
    ghost var kids := MinimaxKids(g, ev, s, depth, agentNo);
    var min := b;
    var lastGhost := g.numAgents - 1;
    var ghostActions := g.legal(s, agentNo);
    for i := 0 to |ghostActions|
      invariant min <= b
      invariant MinFold(kids[..i]) >= b ==> min == b
      invariant MinFold(kids[..i]) > a ==> min == MinReal(b, MinFold(kids[..i]))
      invariant MinFold(kids[..i]) <= a ==> min <= a
    {
      var ghostSuccessor := g.succ(s, agentNo, ghostActions[i]);
      var score := 0.0;
      if agentNo == lastGhost {
        score := Max(g, ev, a, min, ghostSuccessor, depth - 1);
      } else {
        score := Min(g, ev, a, min, agentNo + 1, ghostSuccessor, depth);
      }
      assert Window(score, kids[i], a, min);
      MinFoldSnoc(kids, i);
      if score < min {
        min := score;
      }
    }
    assert kids[..|ghostActions|] == kids;
    return min;
  }

  /**
   * The root: every Pacman move is scored by the first ghost's node, the
   * running best `a` is threaded into each call, and a move replaces the
   * best so far only when its score is strictly greater.
   */
  method GetAction<S, A>(g: Game<S, A>, ev: S -> real, s: S, depth: nat) returns (bestMove: Option<A>)
    requires g.Valid() && depth >= 1
    ensures bestMove == MinimaxChoice(g, ev, s, depth)
  {
    var pacMan := 0;
    var firstGhost := 1;
    bestMove := None;
    var a := Bottom;
    var b := Top;
    var pacManActions := g.legal(s, pacMan);
    ghost var vals := RootValues(g, ev, s, depth);
    ghost var index: Option<nat> := None;
    for i := 0 to |pacManActions|
      invariant Bottom <= a
      invariant FirstBest(vals[..i]) == Choice(a, index)
      invariant bestMove == ActionAt(pacManActions, index)
      invariant index.Some? ==> index.value < i
    {
      var pacManSuccessor := g.succ(s, pacMan, pacManActions[i]);
      var score := Min(g, ev, a, b, firstGhost, pacManSuccessor, depth);
      RootStep(score, vals[i], a);
      assert vals[..i + 1][..i] == vals[..i];
      if score > a {
        a := score;
        bestMove := Some(pacManActions[i]);
        index := Some(i);
      }
    }
    assert vals[..|pacManActions|] == vals;
  }
}
