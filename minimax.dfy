/**
 * The minimax value of a position, as a pure recursive definition: Pacman
 * maximises, every ghost minimises, a win, a loss or an exhausted depth is
 * scored by the evaluation function. A node with no legal move keeps the
 * sentinel start of its running value (-999999 for Pacman, 999999 for a ghost).
 */
module Minimax {
  import opened Wrappers
  import opened Folds
  import opened Games

  /** The values of the successors of `s`, one per legal move of `agent`, in move order. */
  function MinimaxKids<S, A>(g: Game<S, A>, ev: S -> real, s: S, depth: nat, agent: nat): (vals: seq<real>)
    requires g.Valid() && agent < g.numAgents && depth >= 1
    decreases depth, g.numAgents - agent, 0
  {
    var acts := g.legal(s, agent);
    var next := g.NextTurn(depth, agent);
    seq(|acts|, i requires 0 <= i < |acts| => MinimaxValue(g, ev, g.succ(s, agent, acts[i]), next.0, next.1))
  }

  function MinimaxValue<S, A>(g: Game<S, A>, ev: S -> real, s: S, depth: nat, agent: nat): real
    requires g.Valid() && agent < g.numAgents
    decreases depth, g.numAgents - agent, 1
  {
    if g.Terminal(s) || depth == 0 then ev(s)
    else if agent == 0 then MaxFold(MinimaxKids(g, ev, s, depth, agent))
    else MinFold(MinimaxKids(g, ev, s, depth, agent))
  }

  /** An inner node is worth the running maximum (Pacman) or minimum (ghost) of its successors. */
  lemma MinimaxUnfold<S, A>(g: Game<S, A>, ev: S -> real, s: S, depth: nat, agent: nat)
    requires g.Valid() && agent < g.numAgents && !g.Terminal(s) && depth >= 1
    ensures MinimaxValue(g, ev, s, depth, agent) ==
      if agent == 0 then MaxFold(MinimaxKids(g, ev, s, depth, agent)) else MinFold(MinimaxKids(g, ev, s, depth, agent))
  {
  }

  /**
   * The i-th successor value: Pacman hands over to ghost 1, a ghost to the
   * next ghost at the same depth, the last ghost to Pacman one level shallower.
   */
  lemma MinimaxKid<S, A>(g: Game<S, A>, ev: S -> real, s: S, depth: nat, agent: nat, i: nat)
    requires g.Valid() && agent < g.numAgents && depth >= 1 && i < |g.legal(s, agent)|
    ensures |MinimaxKids(g, ev, s, depth, agent)| == |g.legal(s, agent)|
    ensures MinimaxKids(g, ev, s, depth, agent)[i] ==
      var child := g.succ(s, agent, g.legal(s, agent)[i]);
      if agent == g.numAgents - 1 then MinimaxValue(g, ev, child, depth - 1, 0)
      else MinimaxValue(g, ev, child, depth, agent + 1)
  {
  }

  /**
   * A win or a loss is scored by the evaluation function at every node kind,
   * whatever depth remains.
   */
  lemma TerminalIsEvaluated<S, A>(g: Game<S, A>, ev: S -> real, s: S, depth: nat, agent: nat)
    requires g.Valid() && agent < g.numAgents && g.Terminal(s)
    ensures MinimaxValue(g, ev, s, depth, agent) == ev(s)
  {
  }

  /** The minimax values of Pacman's moves at the root, where the first ghost moves next. */
  function RootValues<S, A>(g: Game<S, A>, ev: S -> real, s: S, depth: nat): (vals: seq<real>)
    requires g.Valid()
  {
    var acts := g.legal(s, 0);
    seq(|acts|, i requires 0 <= i < |acts| => MinimaxValue(g, ev, g.succ(s, 0, acts[i]), depth, 1))
  }

  /** The move a minimax search of `depth` plies picks at `s`: the first of greatest value. */
  function MinimaxChoice<S, A>(g: Game<S, A>, ev: S -> real, s: S, depth: nat): Option<A>
    requires g.Valid()
  {
    ActionAt(g.legal(s, 0), FirstBest(RootValues(g, ev, s, depth)).index)
  }

  /**
   * The chosen move is the first legal move whose minimax value is greatest;
   * no move is chosen exactly when every value is at or below -999999
   * (in particular when Pacman has no legal move).
   */
  lemma MinimaxChoiceIsFirstBest<S, A>(g: Game<S, A>, ev: S -> real, s: S, depth: nat)
    requires g.Valid()
    ensures var acts, vals := g.legal(s, 0), RootValues(g, ev, s, depth);
      (MinimaxChoice(g, ev, s, depth).None? <==> forall j :: 0 <= j < |vals| ==> vals[j] <= Bottom) &&
      (MinimaxChoice(g, ev, s, depth).Some? ==>
        exists k :: 0 <= k < |acts| && MinimaxChoice(g, ev, s, depth) == Some(acts[k]) &&
          Bottom < vals[k] && (forall j :: 0 <= j < |vals| ==> vals[j] <= vals[k]) &&
          (forall j :: 0 <= j < k ==> vals[j] < vals[k]))
  {
    var vals := RootValues(g, ev, s, depth);
    FirstBestIsFirstMaximum(vals);
    var index := FirstBest(vals).index;
    if index.Some? {
      var k := index.value;
      assert MinimaxChoice(g, ev, s, depth) == Some(g.legal(s, 0)[k]);
      assert forall j :: 0 <= j < |vals| ==> vals[j] <= vals[k];
    }
  }

  /**
   * Every evaluation lies strictly between the sentinels, and every agent
   * that is not at a win or a loss has a legal move.
   */
  ghost predicate WithinSentinels<S(!new), A>(g: Game<S, A>, ev: S -> real) {
    (forall t :: Bottom < ev(t) < Top) &&
    (forall t, agent: nat :: agent < g.numAgents && !g.Terminal(t) ==> g.legal(t, agent) != [])
  }

  /**
   * When the evaluations lie strictly between the sentinels and no agent is
   * ever stuck, the sentinel starts never show through: every value lies
   * strictly between them, and an inner node is worth one of its successors'
   * values, so the folds are the plain maximum and minimum of minimax.
   */
  lemma {:induction false} MinimaxValueWithinSentinels<S(!new), A>(g: Game<S, A>, ev: S -> real, s: S, depth: nat, agent: nat)
    requires g.Valid() && agent < g.numAgents && WithinSentinels(g, ev)
    ensures Bottom < MinimaxValue(g, ev, s, depth, agent) < Top
    ensures !(g.Terminal(s) || depth == 0) ==>
      MinimaxValue(g, ev, s, depth, agent) in MinimaxKids(g, ev, s, depth, agent)
    decreases depth, g.numAgents - agent
  {
    if !(g.Terminal(s) || depth == 0) {
      var kids := MinimaxKids(g, ev, s, depth, agent);
      forall i | 0 <= i < |kids| ensures Bottom < kids[i] < Top {
        MinimaxKid(g, ev, s, depth, agent, i);
        var child := g.succ(s, agent, g.legal(s, agent)[i]);
        if agent == g.numAgents - 1 {
          MinimaxValueWithinSentinels(g, ev, child, depth - 1, 0);
        } else {
          MinimaxValueWithinSentinels(g, ev, child, depth, agent + 1);
        }
      }
      assert g.legal(s, agent) != [];
      assert Bottom < kids[0] < Top;
      MinimaxUnfold(g, ev, s, depth, agent);
    }
  }

  /** Under the same conditions, Pacman with a legal move always chooses one. */
  lemma MinimaxChoiceWithinSentinels<S(!new), A>(g: Game<S, A>, ev: S -> real, s: S, depth: nat)
    requires g.Valid() && WithinSentinels(g, ev) && g.legal(s, 0) != []
    ensures MinimaxChoice(g, ev, s, depth).Some?
  {
    var vals := RootValues(g, ev, s, depth);
    MinimaxValueWithinSentinels(g, ev, g.succ(s, 0, g.legal(s, 0)[0]), depth, 1);
    assert Bottom < vals[0];
    MinimaxChoiceIsFirstBest(g, ev, s, depth);
  }

  /**
   * The alpha-beta window property of a search result `r` for a node whose
   * true value is `v`, searched with bounds (a, b): exact inside the window,
   * and on the correct side of the bound it falls beyond.
   */
  predicate Window(r: real, v: real, a: real, b: real) {
    (v <= a ==> r <= a) && (v >= b ==> r >= b) && (a < v < b ==> r == v)
  }

  /**
   * At the root the upper bound is 999999. A ghost-node result with the window
   * property, which is either exact or (like the true value) at most 999999,
   * beats the running best `a` exactly when the true value does, and then equals it.
   */
  lemma RootStep(r: real, v: real, a: real)
    requires Window(r, v, a, Top)
    requires r == v || (r <= Top && v <= Top)
    ensures (r > a <==> v > a) && (r > a ==> r == v)
  {
  }
}
