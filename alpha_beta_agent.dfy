/**
 * AlphaBetaAgent: minimax with alpha-beta pruning. A Pacman node stops
 * scanning its moves as soon as its running value exceeds `b`, a ghost node
 * as soon as its running value falls below `a`; both comparisons are strict.
 * Otherwise Pacman raises `a`, a ghost lowers `b`, to the running value.
 */
module AlphaBetaAgent {
  import opened Wrappers
  import opened Folds
  import opened Games
  import opened Minimax

  /** Pacman's node with window (a, b); the result has the window property against the minimax value. */
  method MaxValue<S, A>(g: Game<S, A>, ev: S -> real, s: S, a: real, b: real, depth: nat) returns (r: real)
    requires g.Valid() && Bottom <= a && b <= Top
    ensures Window(r, MinimaxValue(g, ev, s, depth, 0), a, b)
    ensures g.Terminal(s) || depth == 0 ==> r == ev(s)
    decreases depth, g.numAgents, 1
  {
    if g.Terminal(s) || depth == 0 {
      return ev(s);
    }
    ghost var kids := MinimaxKids(g, ev, s, depth, 0);
    ghost var a0 := a;
    var a := a;
    var v := Bottom;
    var pacManActions := g.legal(s, 0);
    for i := 0 to |pacManActions|
      invariant MaxScan(MaxFold(kids[..i]), v, a, a0, b)
    {
      var pacManSuccessor := g.succ(s, 0, pacManActions[i]);
      var temp := MinValue(g, ev, pacManSuccessor, a, b, depth, 1);
      MinimaxKid(g, ev, s, depth, 0, i);
      assert Window(temp, kids[i], a, b);
      MaxFoldSnoc(kids, i);
      MaxStep(MaxFold(kids[..i]), kids[i], v, a, temp, a0, b);
      v := MaxReal(v, temp);
      if v > b {
        MaxFoldPrefix(kids, i + 1);
        MinimaxUnfold(g, ev, s, depth, 0);
        return v;
      }
      a := MaxReal(a, v);
    }
    assert kids[..|pacManActions|] == kids;
    MinimaxUnfold(g, ev, s, depth, 0);
    return v;
  }

  /** What Pacman's scan keeps true of the running maximum `m` of the values seen so far. */
  predicate MaxScan(m: real, v: real, a: real, a0: real, b: real) {
    Bottom <= v && a == MaxReal(a0, v) &&
    (m <= a0 ==> v <= a0) &&
    (m < b ==> a == MaxReal(a0, m)) &&
    (a0 < m < b ==> v == m) &&
    (m >= b ==> v >= b)
  }

  /**
   * One move of Pacman's scan: the ghost node, searched with window (a, b),
   * returned `temp` for true value `k`. Either the scan goes on, or it is cut
   * off with a result that already has the window property.
   */
  lemma MaxStep(m: real, k: real, v: real, a: real, temp: real, a0: real, b: real)
    requires MaxScan(m, v, a, a0, b) && Window(temp, k, a, b)
    ensures MaxReal(v, temp) <= b ==> MaxScan(MaxReal(m, k), MaxReal(v, temp), MaxReal(a, MaxReal(v, temp)), a0, b)
    ensures MaxReal(v, temp) > b ==> (MaxReal(m, k) <= a0 ==> MaxReal(v, temp) <= a0) && (MaxReal(m, k) < b ==> MaxReal(m, k) <= a0)
  {
  }

  /**
   * A ghost's node with window (a, b). Its result is never above 999999, the
   * start of its running value.
   */
  method MinValue<S, A>(g: Game<S, A>, ev: S -> real, s: S, a: real, b: real, depth: nat, agentNo: nat) returns (r: real)
    requires g.Valid() && 1 <= agentNo < g.numAgents && Bottom <= a && b <= Top
    ensures Window(r, MinimaxValue(g, ev, s, depth, agentNo), a, b)
    ensures g.Terminal(s) || depth == 0 ==> r == ev(s)
    ensures !(g.Terminal(s) || depth == 0) ==> r <= Top
    decreases depth, g.numAgents - agentNo, 1
  {
    if g.Terminal(s) || depth == 0 {
      return ev(s);
    }
    ghost var kids := MinimaxKids(g, ev, s, depth, agentNo);
    ghost var b0 := b;
    var b := b;
    var v := Top;
    var ghostActions := g.legal(s, agentNo);
    for i := 0 to |ghostActions|
      invariant MinScan(MinFold(kids[..i]), v, b, a, b0)
    {
      var temp := GhostChild(g, ev, s, a, b, depth, agentNo, i);
      MinFoldSnoc(kids, i);
      MinStep(MinFold(kids[..i]), kids[i], v, b, temp, a, b0);
      v := MinReal(v, temp);
      if v < a {
        MinFoldPrefix(kids, i + 1);
        MinimaxUnfold(g, ev, s, depth, agentNo);
        return v;
      }
      b := MinReal(v, b);
    }
    assert kids[..|ghostActions|] == kids;
    MinimaxUnfold(g, ev, s, depth, agentNo);
    return v;
  }

  /**
   * The search below the i-th move of a ghost: the next ghost's node at the
   * same depth, or, after the last ghost, Pacman's node one ply shallower.
   */
  method GhostChild<S, A>(g: Game<S, A>, ev: S -> real, s: S, a: real, b: real, depth: nat, agentNo: nat, i: nat) returns (temp: real)
    requires g.Valid() && 1 <= agentNo < g.numAgents && Bottom <= a && b <= Top
    requires depth >= 1 && i < |g.legal(s, agentNo)|
    ensures Window(temp, MinimaxKids(g, ev, s, depth, agentNo)[i], a, b)
    decreases depth, g.numAgents - agentNo, 0
  {
    var lastGhost := g.numAgents - 1;
    var ghostSuccessor := g.succ(s, agentNo, g.legal(s, agentNo)[i]);
    if agentNo < lastGhost {
      var nextAgent := agentNo + 1;
      temp := MinValue(g, ev, ghostSuccessor, a, b, depth, nextAgent);
    } else {
      temp := MaxValue(g, ev, ghostSuccessor, a, b, depth - 1);
    }
    MinimaxKid(g, ev, s, depth, agentNo, i);
  }

  /** What a ghost node's scan keeps true of the running minimum `m` of the values seen so far. */
  predicate MinScan(m: real, v: real, b: real, a: real, b0: real) {
    v <= Top && b == MinReal(b0, v) &&
    (m >= b0 ==> v >= b0) &&
    (m > a ==> b == MinReal(b0, m)) &&
    (a < m < b0 ==> v == m) &&
    (m <= a ==> v <= a)
  }

  /**
   * One move of a ghost node's scan: the child, searched with window (a, b),
   * returned `temp` for true value `k`. Either the scan goes on, or it is cut
   * off with a result that already has the window property.
   */
  lemma MinStep(m: real, k: real, v: real, b: real, temp: real, a: real, b0: real)
    requires MinScan(m, v, b, a, b0) && Window(temp, k, a, b)
    ensures MinReal(v, temp) >= a ==> MinScan(MinReal(m, k), MinReal(v, temp), MinReal(MinReal(v, temp), b), a, b0)
    ensures MinReal(v, temp) < a ==> (MinReal(m, k) >= b0 ==> MinReal(v, temp) >= b0) && (a < MinReal(m, k) ==> b0 <= MinReal(m, k))
  {
  }

  /**
   * The root: window (a, 999999) with `a` the best score so far, threaded
   * across Pacman's moves; a move replaces the best only when strictly
   * greater. It picks the same move as MinimaxAgent.GetAction.
   */
  method GetAction<S, A>(g: Game<S, A>, ev: S -> real, s: S, depth: nat) returns (bestMove: Option<A>)
    requires g.Valid()
    ensures bestMove == MinimaxChoice(g, ev, s, depth)
  {
    var a := Bottom;
    var b := Top;
    bestMove := None;
    var pacManActions := g.legal(s, 0);
    ghost var vals := RootValues(g, ev, s, depth);
    ghost var index: Option<nat> := None;
    for i := 0 to |pacManActions|
      invariant Bottom <= a
      invariant FirstBest(vals[..i]) == Choice(a, index)
      invariant bestMove == ActionAt(pacManActions, index)
      invariant index.Some? ==> index.value < i
    {
      var pacManSuccessor := g.succ(s, 0, pacManActions[i]);
      var value := MinValue(g, ev, pacManSuccessor, a, b, depth, 1);
      RootStep(value, vals[i], a);
      assert vals[..i + 1][..i] == vals[..i];
      if value > a {
        a := value;
        bestMove := Some(pacManActions[i]);
        index := Some(i);
      }
    }
    assert vals[..|pacManActions|] == vals;
  }
}
