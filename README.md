# Adversarial search agents of the Pacman multi-agent project

This project models the game-tree search in `multiagent/multiAgents.py`, and
proves properties of that model. The search is the core of the agents that
decide Pacman's next move:

- `MinimaxAgent`: mutually recursive `max`/`min`. Pacman maximises, every
  ghost minimises in turn. The running maximum starts at the bound `a` and the
  running minimum at the bound `b`. The bounds are handed down the tree, but
  no branch is pruned.
- `AlphaBetaAgent`: `maxValue`/`minValue`. Pacman's scan is cut off once its
  value exceeds `b`, a ghost's once its value falls below `a`; both tests are
  strict.
- `ExpectimaxAgent`: `expectiMax`. Every ghost chooses uniformly at random,
  so a ghost node is worth the average of its successors.
- `ReflexAgent.getAction`: picks one of the moves of greatest score.
- `scoreEvaluationFunction`: the game score.
- `betterEvaluationFunction`: the score minus the Manhattan distance to the
  nearest food pellet.

The game (`GameState`) is a record of functions (`Games.Game`): legal moves
per agent, successor states, the win and loss tests, the score, Pacman's
position and the food list. Agent 0 is Pacman and agents
`1 .. numAgents-1` are the ghosts. One depth level is one move by every agent.
The search methods keep no state between calls, so they are module-level
methods. Each takes the game, the evaluation function and the depth as
parameters.

Values are `real`. The sentinels -999999 and 999999 are `Folds.Bottom` and
`Folds.Top`.

The search loops are methods with loop invariants. Each one is proved against
a pure recursive specification:

- `Minimax.MinimaxValue` gives the minimax value with the sentinel starts:
  Pacman's node is max(-999999, successors) and a ghost's node is
  min(999999, successors). Every node checks for a win, a loss or depth 0. A
  node with no move keeps the sentinel start of its running value.
  `Minimax.MinimaxValueWithinSentinels` shows that the sentinels never show
  through when every evaluation lies strictly between -999999 and 999999 and
  no agent is stuck: the value is then the plain minimax value, one of the
  successors' values.
- `Expectimax.ExpectimaxValue` gives the expectimax value, with the exact mean
  at ghost nodes and the same sentinel start at Pacman's node;
  `Expectimax.ExpectimaxValueWithinSentinels` is its counterpart.

The main results are these:

- Both minimax methods and both alpha-beta methods return a value with the
  *window property* against `MinimaxValue`. If that value is at
  most `a`, so is the result. If it is at least `b`, so is the result. If it
  lies strictly between them, the result is exactly that value.
- At the root, `b` is 999999 and `a` is the best value so far. There the
  window property makes `MinimaxAgent.GetAction` and `AlphaBetaAgent.GetAction`
  both return `Minimax.MinimaxChoice`: the first legal move of greatest
  minimax value, or `None` when no value exceeds -999999. So, for every depth
  of at least 1, alpha-beta chooses exactly the move plain minimax chooses.
  When the evaluations lie strictly between the sentinels and no agent is
  stuck, a move is always chosen if Pacman has one
  (`Minimax.MinimaxChoiceWithinSentinels`).
- At depth 0 the two agents of the source differ. Alpha-beta's `minValue`
  tests `depth == 0` (line 262) and scores each successor at once, so its
  choice is `MinimaxChoice` at depth 0. Minimax's `min` (line 222) never tests
  depth, and its `max` then sees depth -1, -2, ..., so that search does not
  stop at a depth. The model covers the minimax agent for depth >= 1 only.
- `ExpectimaxAgent.ExpectiMax` computes `ExpectimaxValue` exactly.
- `ExpectimaxAgent.GetAction` returns `ExpectimaxChoice`.

## Model

| member | source | states |
|---|---|---|
| Games.NextTurn | multiagent/multiAgents.py:230-234 | after the last ghost it is Pacman's turn with depth one less; after any other agent it is the next agent's turn at the same depth; every turn lowers (depth, numAgents - agent) lexicographically, so the search ends |
| Games.PlyCycle | multiagent/multiAgents.py:230-234 | from any agent, the turns run through the remaining ghosts at the same depth, and after the last ghost it is Pacman's turn with depth one less |
| Folds.MaxFold | multiagent/multiAgents.py:311-316 | a running maximum started at -999999 is at least -999999, at least every value, and is either -999999 or one of the values |
| Folds.MinFold | multiagent/multiAgents.py:264-272 | a running minimum started at 999999 is at most 999999, at most every value, and is either 999999 or one of the values |
| Folds.MaxFoldPrefix | multiagent/multiAgents.py:256-257 | the running maximum of a prefix never exceeds that of the whole list, so a cut-off scan's value bounds the maximum of the whole list from below |
| Folds.MinFoldPrefix | multiagent/multiAgents.py:276-277 | the running minimum of a prefix is never below that of the whole list, so a cut-off scan's value bounds the minimum of the whole list from above |
| Folds.SumBounds | multiagent/multiAgents.py:322-331 | the sum of n values lies between n times a lower bound and n times an upper bound of the values |
| Folds.FirstBestIsFirstMaximum | multiagent/multiAgents.py:195-201 | the strict-`>` scan from (-999999, None) ends with the maximum value; it picks no index exactly when every value is at most -999999; otherwise it picks an index holding the maximum, above -999999, with every earlier value strictly smaller (first-seen wins ties) |
| Minimax.TerminalIsEvaluated | multiagent/multiAgents.py:208-209 | a win or a loss is worth its evaluation at every node kind, whatever depth remains |
| Minimax.MinimaxChoiceIsFirstBest | multiagent/multiAgents.py:189-203 | the minimax choice is None exactly when every root value is at most -999999; otherwise it is a legal move whose value is greatest and above -999999, with every earlier move's value strictly smaller |
| Minimax.MinimaxValueWithinSentinels | multiagent/multiAgents.py:207-237 | when every evaluation lies strictly between -999999 and 999999 and no agent that has not won or lost is without moves, every minimax value lies strictly between them, and an inner node is worth one of its successors' values |
| Minimax.MinimaxChoiceWithinSentinels | multiagent/multiAgents.py:189-203 | under the same conditions, Pacman with a legal move always gets a move, never None |
| Minimax.RootStep | multiagent/multiAgents.py:196-198 | with upper bound 999999, a result with the window property passes the root's `score > a` test exactly when the minimax value does, and is then that value |
| MinimaxAgent.Max | multiagent/multiAgents.py:207-218 | Pacman's node returns the evaluation at a win, a loss or depth 0; otherwise a value with the window property, for (a, b), against the minimax value, never below `a`, and exactly max(a, value) whenever the value is below `b` |
| MinimaxAgent.Min | multiagent/multiAgents.py:221-237 | a ghost's node returns the evaluation at a win or a loss, and otherwise a value no greater than `b` that is exactly min(b, value) whenever the value is above `a`; in both cases the value has the window property, for (a, b), against the minimax value |
| MinimaxAgent.GetAction | multiagent/multiAgents.py:159-203 | the move returned is the minimax choice: the first legal move of greatest minimax value, or None (depth >= 1) |
| AlphaBetaAgent.MaxValue | multiagent/multiAgents.py:246-259 | with the cutoff on `v > b` and `a` raised to `v`, Pacman's node still returns a value with the window property, for (a, b), against the unpruned minimax value, and the evaluation at a win, a loss or depth 0 |
| AlphaBetaAgent.MaxStep | multiagent/multiAgents.py:253-258 | one step of Pacman's scan either keeps the scan's invariant for the next move, or is cut off with a value that already has the window property |
| AlphaBetaAgent.MinValue | multiagent/multiAgents.py:261-279 | with the cutoff on `v < a` and `b` lowered to `v`, a ghost's node still returns a value with the window property, for (a, b), against the unpruned minimax value, and the evaluation at a win, a loss or depth 0 |
| AlphaBetaAgent.GhostChild | multiagent/multiAgents.py:268-274 | the search below a ghost's i-th move (the next ghost at the same depth, or Pacman one level shallower after the last ghost) has the window property against that move's minimax value |
| AlphaBetaAgent.MinStep | multiagent/multiAgents.py:268-278 | one step of a ghost's scan either keeps the scan's invariant for the next move, or is cut off with a value that already has the window property |
| AlphaBetaAgent.GetAction | multiagent/multiAgents.py:281-296 | with `a` threaded across Pacman's moves and `b` = 999999, the move returned is the minimax choice at every depth, including 0; for every depth of at least 1 this is the same move as MinimaxAgent.GetAction |
| Expectimax.MeanIsAverage | multiagent/multiAgents.py:318-331 | n times the mean of n values is their sum, and the mean lies within any bounds of the values |
| Expectimax.GhostNodeIsExactMean | multiagent/multiAgents.py:318-332 | a ghost node with moves is worth exactly the average of its successors' values: n times its value is their sum, and it lies between any bounds of them |
| Expectimax.ExpectimaxValueWithinSentinels | multiagent/multiAgents.py:305-332 | when every evaluation lies strictly between -999999 and 999999 and no agent is stuck, every expectimax value lies strictly between them, and an inner node's value lies between the least and the greatest of its successors' values |
| Expectimax.ExpectimaxChoiceWithinSentinels | multiagent/multiAgents.py:342-353 | under the same conditions, Pacman with a legal move always gets a move, never None |
| Expectimax.ExpectimaxChoiceIsFirstBest | multiagent/multiAgents.py:342-353 | the expectimax choice is None exactly when every root value is at most -999999; otherwise it is a legal move of greatest value, above -999999, with every earlier move's value strictly smaller |
| ExpectimaxAgent.ExpectiMax | multiagent/multiAgents.py:305-332 | the value returned is the expectimax value: the evaluation at a leaf, the running maximum from -999999 at Pacman's node, and the sum of v/n over a ghost's n moves (0 with no move) |
| ExpectimaxAgent.GetAction | multiagent/multiAgents.py:336-353 | the move returned is the expectimax choice: the first legal move of greatest expectimax value, or None |
| ReflexAgent.Scores | multiagent/multiAgents.py:46 | one score per legal move, in move order, each the evaluation of the state with that move |
| ReflexAgent.MaxScore | multiagent/multiAgents.py:47 | the maximum of a non-empty score list is one of the scores and no score exceeds it |
| ReflexAgent.BestIndices | multiagent/multiAgents.py:48 | an index is listed exactly when it is in range and its score equals the best score, and the list is strictly increasing |
| ReflexAgent.GetAction | multiagent/multiAgents.py:33-52 | no move exactly when there is no legal move; otherwise a legal move at one of the best indices, whose score is at least every legal move's score |
| Evaluation.ScoreEvaluation | multiagent/multiAgents.py:123-131 | the evaluation of a state is its game score |
| Evaluation.ScoreEvaluationAtTerminal | multiagent/multiAgents.py:123-131 | searched with the score as the evaluation, a win or a loss is worth exactly its score under minimax and under expectimax |
| Evaluation.ClosestFoodDistance | multiagent/multiAgents.py:375-379 | the nearest distance is the distance to some pellet and to no pellet further than that |
| Evaluation.BetterEvaluationBelowScore | multiagent/multiAgents.py:358-381 | the better evaluation never exceeds the score evaluation, and equals it exactly when no food is left or Pacman stands on a pellet |
| Evaluation.ComputeBetterEvaluation | multiagent/multiAgents.py:369-381 | with no food the result is the score; otherwise it is the score minus the distance to some pellet, and at least the score minus the distance to every pellet |
| Scenario.MinimaxPicksB | multiagent/multiAgents.py:221-237 | in a two-agent example the root minimax values are 3 and 4, and the second move is chosen |
| Scenario.ExpectimaxPicksA | multiagent/multiAgents.py:318-331 | in the same example the ghost's replies 3 and 7 average to exactly 5, the root values are 5 and 4, and the first move is chosen |
| Scenario.ChooseInExample | multiagent/multiAgents.py:159-203 | the three agents on the example choose the second, the second and the first move |

## Left out

- `GameState` and the rest of `pacman.py`/`game.py` are not part of this
  model. The game is a parameter: a record of functions whose agent count is
  at least 2 and fixed. A game with a single agent is outside the model,
  because the code always hands Pacman's move to agent 1.
- `util.lookup(evalFn, globals())`, the lookup of the evaluation function by
  name at line 150, is not modelled. The evaluation function is a parameter
  of every search method.
- `random.choice` in `ReflexAgent.getAction` (line 49) is modelled as a free
  choice among the best indices. Its uniform distribution is not modelled.
- `ReflexAgent.evaluationFunction` (lines 54-121) is not modelled. It is a
  floating-point heuristic, and it divides by zero at line 119 when the
  nearest distance is 0. `ReflexAgent.GetAction` takes the move evaluation
  as a parameter instead.
- Python floating-point rounding is not modelled. All values are exact
  reals, so the `avg += v / n` sum at lines 326 and 331 is the exact mean.
- The unreachable `util.raiseNotDefined()` calls and the unused `agents`
  locals are not modelled.
- MinimaxAgent.Min: requires depth >= 1. The source's `min` (line 222) tests
  only for a win or a loss. With depth 0, the last ghost calls `max` with
  depth -1, which never equals 0, so the recursion stops only at a win, a
  loss or a node whose agent has no legal move. Started at depth >= 1, the
  search reaches a ghost's `min` only with depth >= 1, since Pacman's `max`
  returns at depth 0 before calling any ghost.
- MinimaxAgent.GetAction: requires depth >= 1, for the reason given for
  MinimaxAgent.Min. The alpha-beta and expectimax agents accept depth 0.
- `max([])` raising `ValueError` in `ReflexAgent.getAction` (line 47) is
  modelled as the result `None`.
- The search's node count is not modelled. This includes the claim that
  alpha-beta visits no more nodes than minimax: the model proves which value
  and which move are returned, not how much work it takes.
- `AlphaBetaAgent.GhostChild` is the body of a ghost's loop (lines 268-274)
  factored into its own method. The model's `MinValue` calls it once per
  move, and it keeps the same branch on the last ghost.
- A negative depth, which `int(depth)` at line 151 accepts, is not
  modelled; depth is a `nat`. At a negative depth no node sees depth 0, so
  the source's searches stop only at a win, a loss or an agent with no move.
- `manhattanDistance` comes from `util`, which is not part of this model. It
  is defined here as |x1 - x2| + |y1 - y2|.
