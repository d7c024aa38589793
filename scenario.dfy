/**
 * A two-agent game written out literally: Pacman moves A or B from state 0;
 * after A the ghost can lead to values 3 or 7, after B to 4 or 4. A one-ply
 * minimax (with or without pruning) picks B (4 > 3); expectimax picks A
 * (5 > 4), the ghost's two replies after A averaging to exactly 5.
 */
module Scenario {
  import opened Wrappers
  import opened Folds
  import opened Games
  import opened Minimax
  import opened Expectimax
  import MinimaxAgent
  import AlphaBetaAgent
  import ExpectimaxAgent

  function Legal(s: int, agent: nat): seq<char> {
    if s == 0 && agent == 0 then ['A', 'B']
    else if (s == 1 || s == 2) && agent == 1 then ['L', 'R']
    else []
  }

  function Succ(s: int, agent: nat, act: char): int {
    if s == 0 then (if act == 'A' then 1 else 2)
    else if s == 1 then (if act == 'L' then 3 else 4)
    else if s == 2 then (if act == 'L' then 5 else 6)
    else s
  }

  function Eval(s: int): real {
    if s == 3 then 3.0 else if s == 4 then 7.0 else if s == 5 || s == 6 then 4.0 else 0.0
  }

  function Example(): Game<int, char> {
    Game(2, Legal, Succ, s => false, s => false, Eval, s => Pos(0, 0), s => [])
  }

  /** Minimax values at the root: 3 after A, 4 after B; B is chosen. */
  lemma MinimaxPicksB()
    ensures RootValues(Example(), Eval, 0, 1) == [3.0, 4.0]
    ensures MinimaxChoice(Example(), Eval, 0, 1) == Some('B')
  {
    var g := Example();
    assert g.NextTurn(1, 1) == (0, 0) && g.NextTurn(1, 0) == (1, 1);
    assert g.legal(0, 0) == ['A', 'B'] && g.legal(1, 1) == ['L', 'R'] && g.legal(2, 1) == ['L', 'R'];
    assert g.succ(0, 0, 'A') == 1 && g.succ(0, 0, 'B') == 2;
    assert g.succ(1, 1, 'L') == 3 && g.succ(1, 1, 'R') == 4 && g.succ(2, 1, 'L') == 5 && g.succ(2, 1, 'R') == 6;
    assert forall s :: !g.Terminal(s);
    var afterA := MinimaxKids(g, Eval, 1, 1, 1);
    assert afterA[0] == MinimaxValue(g, Eval, 3, 0, 0) == 3.0;
    assert afterA[1] == MinimaxValue(g, Eval, 4, 0, 0) == 7.0;
    assert afterA == [3.0, 7.0];
    assert afterA[..1] == [3.0];
    var afterB := MinimaxKids(g, Eval, 2, 1, 1);
    assert afterB[0] == MinimaxValue(g, Eval, 5, 0, 0) == 4.0;
    assert afterB[1] == MinimaxValue(g, Eval, 6, 0, 0) == 4.0;
    assert afterB == [4.0, 4.0];
    assert afterB[..1] == [4.0];
    var root := RootValues(g, Eval, 0, 1);
    assert root[0] == MinimaxValue(g, Eval, 1, 1, 1) == 3.0;
    assert root[1] == MinimaxValue(g, Eval, 2, 1, 1) == 4.0;
    assert root == [3.0, 4.0];
    assert root[..1] == [3.0] && [3.0][..0] == [];
    assert FirstBest([3.0]) == Choice(3.0, Some(0));
    assert FirstBest(root) == Choice(4.0, Some(1));
  }

  /** Expectimax values at the root: 5 (the exact mean of 3 and 7) after A, 4 after B; A is chosen. */
  lemma ExpectimaxPicksA()
    ensures ExpectimaxValue(Example(), Eval, 1, 1, 1) == 5.0
    ensures ExpectimaxRootValues(Example(), Eval, 0, 1) == [5.0, 4.0]
    ensures ExpectimaxChoice(Example(), Eval, 0, 1) == Some('A')
  {
    var g := Example();
    assert g.NextTurn(1, 1) == (0, 0) && g.NextTurn(1, 0) == (1, 1);
    assert g.legal(0, 0) == ['A', 'B'] && g.legal(1, 1) == ['L', 'R'] && g.legal(2, 1) == ['L', 'R'];
    assert g.succ(0, 0, 'A') == 1 && g.succ(0, 0, 'B') == 2;
    assert g.succ(1, 1, 'L') == 3 && g.succ(1, 1, 'R') == 4 && g.succ(2, 1, 'L') == 5 && g.succ(2, 1, 'R') == 6;
    assert forall s :: !g.Terminal(s);
    var afterA := ExpectimaxKids(g, Eval, 1, 1, 1);
    assert afterA[0] == ExpectimaxValue(g, Eval, 3, 0, 0) == 3.0;
    assert afterA[1] == ExpectimaxValue(g, Eval, 4, 0, 0) == 7.0;
    assert afterA == [3.0, 7.0];
    assert afterA[..1] == [3.0] && [3.0][..0] == [];
    assert Sum(afterA) == 10.0;
    assert Mean(afterA) == 5.0;
    var afterB := ExpectimaxKids(g, Eval, 2, 1, 1);
    assert afterB[0] == ExpectimaxValue(g, Eval, 5, 0, 0) == 4.0;
    assert afterB[1] == ExpectimaxValue(g, Eval, 6, 0, 0) == 4.0;
    assert afterB == [4.0, 4.0];
    assert afterB[..1] == [4.0] && [4.0][..0] == [];
    assert Sum(afterB) == 8.0;
    assert Mean(afterB) == 4.0;
    var root := ExpectimaxRootValues(g, Eval, 0, 1);
    assert root[0] == ExpectimaxValue(g, Eval, 1, 1, 1) == 5.0;
    assert root[1] == ExpectimaxValue(g, Eval, 2, 1, 1) == 4.0;
    assert root == [5.0, 4.0];
    assert root[..1] == [5.0] && [5.0][..0] == [];
    assert FirstBest([5.0]) == Choice(5.0, Some(0));
    assert FirstBest(root) == Choice(5.0, Some(0));
  }

  /** The three agents, run on the example: minimax and alpha-beta choose B, expectimax chooses A. */
  method ChooseInExample() returns (minimax: Option<char>, alphaBeta: Option<char>, expectimax: Option<char>)
    ensures minimax == Some('B') && alphaBeta == Some('B') && expectimax == Some('A')
  {
    MinimaxPicksB();
    ExpectimaxPicksA();
    minimax := MinimaxAgent.GetAction(Example(), Eval, 0, 1);
    alphaBeta := AlphaBetaAgent.GetAction(Example(), Eval, 0, 1);
    expectimax := ExpectimaxAgent.GetAction(Example(), Eval, 0, 1);
  }
}
