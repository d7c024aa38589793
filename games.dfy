/**
 * The game-state capability the search consumes (GameState of pacman.py),
 * as a record of functions: the search only asks for legal moves, successors,
 * win/lose tests, the score, Pacman's position and the remaining food.
 * Agent 0 is Pacman, agents 1 .. numAgents-1 are the ghosts.
 */
module Games {
  datatype Pos = Pos(x: int, y: int)

  datatype Game<!S, !A> = Game(
    numAgents: nat,
    legal: (S, nat) -> seq<A>,
    succ: (S, nat, A) -> S,
    isWin: S -> bool,
    isLose: S -> bool,
    score: S -> real,
    pacmanPos: S -> Pos,
    food: S -> seq<Pos>)
  {
    /** Pacman plus at least one ghost; the count is fixed for the whole search. */
    predicate Valid() { numAgents >= 2 }

    predicate Terminal(s: S) { isWin(s) || isLose(s) }

    /**
     * Whose turn follows `agent`'s, and at what depth: the next ghost at the
     * same depth, or Pacman one level shallower after the last ghost. Each
     * turn lowers (depth, numAgents - agent) in lexicographic order, which is
     * why the recursive search ends.
     */
    function NextTurn(depth: int, agent: nat): (next: (int, nat))
      requires Valid() && agent < numAgents
      ensures next.1 < numAgents
      ensures next.0 == depth - 1 <==> agent == numAgents - 1
      ensures next.1 == 0 <==> agent == numAgents - 1
      ensures agent < numAgents - 1 ==> next == (depth, agent + 1)
      ensures next.0 < depth || (next.0 == depth && numAgents - next.1 < numAgents - agent)
    {
      if agent == numAgents - 1 then (depth - 1, 0) else (depth, agent + 1)
    }

    /** The (depth, agent) turn reached after `k` more moves. */
    function Later(depth: int, agent: nat, k: nat): (int, nat)
      requires Valid() && agent < numAgents
      decreases k
    {
      if k == 0 then (depth, agent)
      else
        var next := NextTurn(depth, agent);
        Later(next.0, next.1, k - 1)
    }
  }

  /**
   * One ply is one move by every agent: from `agent` at `depth`, the turns walk
   * through the remaining ghosts at the same depth, and after the last ghost's
   * move it is Pacman's turn one level shallower.
   */
  lemma {:induction false} PlyCycle<S, A>(g: Game<S, A>, depth: int, agent: nat, k: nat)
    requires g.Valid() && agent < g.numAgents && agent + k <= g.numAgents
    ensures g.Later(depth, agent, k) ==
      if agent + k < g.numAgents then (depth, agent + k) else (depth - 1, 0)
    decreases k
  {
    if k > 0 && agent + 1 < g.numAgents {
      PlyCycle(g, depth, agent + 1, k - 1);
    }
  }

  /** Manhattan distance |x1 - x2| + |y1 - y2|. */
  function ManhattanDistance(p: Pos, q: Pos): nat {
    (if p.x >= q.x then p.x - q.x else q.x - p.x) + (if p.y >= q.y then p.y - q.y else q.y - p.y)
  }
}
