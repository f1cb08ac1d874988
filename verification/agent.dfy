/** `CustomPlayer`: its configuration (`__init__`) and the iterative-deepening
    driver `get_move`, which runs the configured search from the root against
    the turn clock and recovers from `Timeout` at a single boundary. */
module Agent {
  import opened Scores
  import opened GameTree
  import opened MinimaxSearch
  import opened AlphaBetaSearch
  import opened Clock

  datatype Method = MinimaxMethod | AlphaBetaMethod

  /** The player's `search_depth`, `iterative`, `method` and
      `TIMER_THRESHOLD`. The evaluation function is carried by the tree's
      leaf scores. */
  datatype Player = Player(searchDepth: int, iterative: bool, searchMethod: Method, timerThreshold: int)

  /** `CustomPlayer.__init__`: the method name "minimax" selects minimax and
      every other name selects alpha-beta. */
  function NewPlayer(searchDepth: int, iterative: bool, methodName: string, timeout: int): (p: Player)
    ensures p.searchMethod == MinimaxMethod <==> methodName == "minimax"
    ensures p.searchMethod == AlphaBetaMethod <==> methodName != "minimax"
    ensures p.searchDepth == searchDepth && p.iterative == iterative && p.timerThreshold == timeout
  {
    Player(searchDepth, iterative, if methodName == "minimax" then MinimaxMethod else AlphaBetaMethod, timeout)
  }

  /** `CustomPlayer()` with every argument left at its default: iterative
      minimax at depth limit 3 with a 10 ms threshold. */
  const DefaultPlayer := NewPlayer(3, true, "minimax", 10)

  lemma DefaultPlayerSettings()
    ensures DefaultPlayer == Player(3, true, MinimaxMethod, 10)
  {}

  /** `self.method(game, depth=0)` under depth limit `limit`: a maximizing
      root, and for alpha-beta the default window (−∞, +∞). */
  function RootSearch(m: Method, t: Tree, limit: int, fuel: nat): (r: (Result, nat))
    ensures r.1 <= fuel
    ensures r.0.Timeout? ==> r.1 == 0
  {
    match m
    case MinimaxMethod => MinimaxClocked(t, 0, limit, true, fuel)
    case AlphaBetaMethod => AlphaBetaClocked(t, 0, limit, NegInf, PosInf, true, fuel)
  }

  /** The node entries one root search makes. */
  function RootVisits(m: Method, t: Tree, limit: int): nat {
    match m
    case MinimaxMethod => MinimaxVisits(t, 0, limit)
    case AlphaBetaMethod => AlphaBetaVisits(t, 0, limit, NegInf, PosInf, true)
  }

  /** Whichever method is configured, a root search that the clock lets finish
      returns the minimax pair of the root, and alpha-beta needs no more of
      the clock than minimax. */
  lemma RootSearchAgrees(m: Method, t: Tree, limit: int, fuel: nat)
    ensures RootSearch(m, t, limit, fuel) ==
      if RootVisits(m, t, limit) <= fuel
      then (Ok(Minimax(t, 0, limit, true)), fuel - RootVisits(m, t, limit))
      else (Timeout, 0)
    ensures RootVisits(AlphaBetaMethod, t, limit) <= RootVisits(MinimaxMethod, t, limit)
  {
    MinimaxClockedAgrees(t, 0, limit, true, fuel);
    AlphaBetaClockedAgrees(t, 0, limit, NegInf, PosInf, true, fuel);
    AlphaBetaFullWindow(t, 0, limit, true);
    AlphaBetaVisitsAtMost(t, 0, limit, NegInf, PosInf, true);
  }

  /* The driver. */

  /** The value held in `next_move`: the seed move, or the pair the last
      completed search returned. */
  datatype Pending = Seeded(cell: Cell) | Completed(best: Best)

  /** What `get_move` returns. `Played` is a move (a coordinate, `(-1, -1)`
      or the integer `0` placeholder); `ScoredMove` is a whole
      `[score, move]` pair; `Column` is the second component of the seed
      coordinate, returned by `next_move[1]` when no search ran. */
  datatype Answer = Played(move: Move) | ScoredMove(score: Score, move: Move) | Column(col: int)

  /** `return next_move`, the timeout handler: a move only while no search
      has completed, and otherwise the whole pair. */
  function Unprojected(next: Pending): (r: Answer)
    ensures r.Played? <==> next.Seeded?
    ensures r.ScoredMove? <==> next.Completed?
  {
    match next
    case Seeded(c) => Played(Play(c))
    case Completed(b) => ScoredMove(b.score, b.move)
  }

  /** `return next_move[1]`, the normal exit: a move once a search has
      completed, and otherwise a column of the seed. */
  function Projected(next: Pending): (r: Answer)
    ensures r.Played? <==> next.Completed?
    ensures r.Column? <==> next.Seeded?
  {
    match next
    case Seeded(c) => Column(c.col)
    case Completed(b) => Played(b.move)
  }

  /** Python's `[1]` on a value `next_move` can hold: the second component of
      a coordinate, or the move of a `[score, move]` pair. */
  function SecondOf(a: Answer): Answer {
    match a
    case Played(m) => if m.Play? then Column(m.cell.col) else a
    case ScoredMove(_, m) => Played(m)
    case Column(_) => a
  }

  /** The two exits return the same `next_move`, the normal exit indexed by
      `[1]` and the timeout handler as it is. */
  lemma ExitsShareNextMove(next: Pending)
    ensures Projected(next) == SecondOf(Unprojected(next))
  {}

  /** The iterative-deepening loop from depth limit `d` up to `maxDepth`,
      with `fuel` clock checks left and `next_move` holding `next`. Returns
      the answer and the value `self.search_depth` is left with. The loop
      stops below `maxDepth` only at a limit it reached and only through the
      timeout handler; a bare column comes back exactly when no iteration ran
      and `next_move` still holds the seed. */
  function Deepen(m: Method, t: Tree, d: int, maxDepth: int, fuel: nat, next: Pending): (r: (Answer, int))
    requires d >= 1
    ensures r.1 <= maxDepth
    ensures r.1 < maxDepth ==> d <= r.1
    ensures d <= maxDepth ==> d <= r.1
    ensures r.1 < maxDepth ==> !r.0.Column?
    ensures r.0.Column? <==> d > maxDepth && next.Seeded?
    decreases if d <= maxDepth then maxDepth - d + 1 else 0
  {
    if d > maxDepth then (Projected(next), maxDepth)
    else
      var sub := RootSearch(m, t, d, fuel);
      if sub.0.Timeout? then (Unprojected(next), d)
      else Deepen(m, t, d + 1, maxDepth, sub.1, Completed(sub.0.best))
  }

  /** `CustomPlayer.get_move`. `seed` is the move `random.choice` picked from
      `legalMoves`; `readings` are the values `time_left()` returns at the
      successive node entries. Returns the answer and the player, whose
      `search_depth` the iterative loop may have overwritten. */
  function GetMove(p: Player, t: Tree, legalMoves: seq<Cell>, seed: Cell, readings: seq<int>): (r: (Answer, Player))
    requires |legalMoves| > 0 ==> seed in legalMoves
    ensures r.1 == p.(searchDepth := r.1.searchDepth)
    ensures r.1.searchDepth <= p.searchDepth
    ensures !p.iterative ==> r.1 == p
  {
    var fuel := Budget(readings, p.timerThreshold);
    if |legalMoves| == 0 then (Played(NoMove), p)
    else if p.iterative then
      var out := Deepen(p.searchMethod, t, 1, p.searchDepth, fuel, Seeded(seed));
      (out.0, p.(searchDepth := out.1))
    else
      var sub := RootSearch(p.searchMethod, t, p.searchDepth, fuel);
      (if sub.0.Timeout? then Unprojected(Seeded(seed)) else Projected(Completed(sub.0.best)), p)
  }

  /* Properties of the driver. */

  /** The clock units the iterations with depth limits 1..d need together. */
  function ScheduleCost(m: Method, t: Tree, d: int): nat
    decreases if d < 1 then 0 else d
  {
    if d < 1 then 0 else ScheduleCost(m, t, d - 1) + RootVisits(m, t, d)
  }

  /** Each iteration costs at least one clock unit, so the cost of a
      schedule grows strictly with its last depth limit. */
  lemma {:induction false} ScheduleCostGrows(m: Method, t: Tree, a: int, b: int)
    requires a <= b
    ensures ScheduleCost(m, t, a) <= ScheduleCost(m, t, b)
    ensures 1 <= b && a < b ==> ScheduleCost(m, t, a) < ScheduleCost(m, t, b)
    decreases b - a
  {
    if a < b {
      ScheduleCostGrows(m, t, a, b - 1);
      if b < 1 {
        assert ScheduleCost(m, t, b) == 0 && ScheduleCost(m, t, a) == 0;
      }
    }
  }

  /** `next_move` after the iterations with depth limits 1..d completed. */
  function NextAfter(t: Tree, d: int, seed: Cell): Pending {
    if d < 1 then Seeded(seed) else Completed(Minimax(t, 0, d, true))
  }

  lemma {:induction false} DeepenOutcome(m: Method, t: Tree, d: int, maxDepth: int, total: nat, fuel: nat, seed: Cell)
    requires 1 <= d && (d == 1 || d <= maxDepth + 1)
    requires fuel + ScheduleCost(m, t, d - 1) == total
    ensures var r := Deepen(m, t, d, maxDepth, fuel, NextAfter(t, d - 1, seed));
      && (ScheduleCost(m, t, maxDepth) <= total ==>
            r == (Projected(NextAfter(t, maxDepth, seed)), maxDepth))
      && (total < ScheduleCost(m, t, maxDepth) ==>
            && d <= r.1 <= maxDepth
            && ScheduleCost(m, t, r.1 - 1) <= total < ScheduleCost(m, t, r.1)
            && r.0 == Unprojected(NextAfter(t, r.1 - 1, seed)))
    decreases if d <= maxDepth then maxDepth - d + 1 else 0
  {
    if d > maxDepth {
      ScheduleCostGrows(m, t, maxDepth, d - 1);
    } else {
      RootSearchAgrees(m, t, d, fuel);
      ScheduleCostGrows(m, t, d, maxDepth);
      if RootVisits(m, t, d) <= fuel {
        DeepenOutcome(m, t, d + 1, maxDepth, total, fuel - RootVisits(m, t, d), seed);
      }
    }
  }

  /** `get_move` without legal moves returns `(-1, -1)` and searches nothing:
      the answer does not depend on the tree or the clock. */
  lemma GetMoveWithoutLegalMoves(p: Player, t: Tree, t': Tree, seed: Cell, readings: seq<int>, readings': seq<int>)
    ensures GetMove(p, t, [], seed, readings) == (Played(NoMove), p)
    ensures GetMove(p, t, [], seed, readings) == GetMove(p, t', [], seed, readings')
  {}

  /** Readings after the first failing check are never consulted: appending
      more of them does not change `get_move`. */
  lemma GetMoveIgnoresLaterReadings(p: Player, t: Tree, legalMoves: seq<Cell>, seed: Cell, readings: seq<int>, later: seq<int>)
    requires |legalMoves| > 0 ==> seed in legalMoves
    requires Budget(readings, p.timerThreshold) < |readings|
    ensures GetMove(p, t, legalMoves, seed, readings + later) == GetMove(p, t, legalMoves, seed, readings)
  {
    BudgetIgnoresLaterReadings(readings, later, p.timerThreshold);
  }

  /** Iterative deepening runs the depth limits 1, 2, ..., `search_depth` in
      order on one shared clock. If the clock covers them all, the answer is
      the last iteration's move and `search_depth` is unchanged (with no
      iteration at all, `next_move[1]` projects the seed's column). Otherwise
      the iteration `d` that the clock interrupts is the first whose
      cumulative cost exceeds the clock; `search_depth` is left at `d` and the
      answer is the seed when `d` is 1, and otherwise the whole `[score, move]`
      pair of iteration `d - 1`. */
  lemma GetMoveIterative(p: Player, t: Tree, legalMoves: seq<Cell>, seed: Cell, readings: seq<int>)
    requires p.iterative && |legalMoves| > 0 && seed in legalMoves
    ensures var fuel := Budget(readings, p.timerThreshold);
            var r := GetMove(p, t, legalMoves, seed, readings);
      && (ScheduleCost(p.searchMethod, t, p.searchDepth) <= fuel ==>
            && r.1 == p
            && r.0 == if p.searchDepth >= 1 then Played(Minimax(t, 0, p.searchDepth, true).move) else Column(seed.col))
      && (fuel < ScheduleCost(p.searchMethod, t, p.searchDepth) ==>
            && 1 <= r.1.searchDepth <= p.searchDepth
            && ScheduleCost(p.searchMethod, t, r.1.searchDepth - 1) <= fuel < ScheduleCost(p.searchMethod, t, r.1.searchDepth)
            && r.0 == if r.1.searchDepth == 1 then Played(Play(seed))
                      else ScoredMove(Minimax(t, 0, r.1.searchDepth - 1, true).score,
                                      Minimax(t, 0, r.1.searchDepth - 1, true).move))
  {
    var fuel := Budget(readings, p.timerThreshold);
    DeepenOutcome(p.searchMethod, t, 1, p.searchDepth, fuel, fuel, seed);
  }

  /** Without iterative deepening one search runs at the configured depth
      limit: a finished search gives its move, a timeout gives the seed. */
  lemma GetMoveFixedDepth(p: Player, t: Tree, legalMoves: seq<Cell>, seed: Cell, readings: seq<int>)
    requires !p.iterative && |legalMoves| > 0 && seed in legalMoves
    ensures var r := GetMove(p, t, legalMoves, seed, readings);
      && r.1 == p
      && r.0 == if RootVisits(p.searchMethod, t, p.searchDepth) <= Budget(readings, p.timerThreshold)
                then Played(Minimax(t, 0, p.searchDepth, true).move)
                else Played(Play(seed))
  {
    RootSearchAgrees(p.searchMethod, t, p.searchDepth, Budget(readings, p.timerThreshold));
  }

  /** Switching the method from minimax to alpha-beta never changes what
      `get_move` returns when the minimax player's search finishes in time. */
  lemma AlphaBetaPlayerAgrees(p: Player, t: Tree, legalMoves: seq<Cell>, seed: Cell, readings: seq<int>)
    requires p.searchMethod == MinimaxMethod && |legalMoves| > 0 && seed in legalMoves
    requires (if p.iterative then ScheduleCost(MinimaxMethod, t, p.searchDepth)
              else RootVisits(MinimaxMethod, t, p.searchDepth)) <= Budget(readings, p.timerThreshold)
    ensures var q := p.(searchMethod := AlphaBetaMethod);
      && GetMove(q, t, legalMoves, seed, readings).0 == GetMove(p, t, legalMoves, seed, readings).0
      && GetMove(q, t, legalMoves, seed, readings).1.searchDepth == GetMove(p, t, legalMoves, seed, readings).1.searchDepth
  {
    var q := p.(searchMethod := AlphaBetaMethod);
    ScheduleCostAtMost(t, p.searchDepth);
    RootSearchAgrees(MinimaxMethod, t, p.searchDepth, 0);
    if p.iterative {
      GetMoveIterative(p, t, legalMoves, seed, readings);
      GetMoveIterative(q, t, legalMoves, seed, readings);
    } else {
      GetMoveFixedDepth(p, t, legalMoves, seed, readings);
      GetMoveFixedDepth(q, t, legalMoves, seed, readings);
    }
  }

  /** An alpha-beta schedule costs no more of the clock than a minimax one. */
  lemma {:induction false} ScheduleCostAtMost(t: Tree, d: int)
    ensures ScheduleCost(AlphaBetaMethod, t, d) <= ScheduleCost(MinimaxMethod, t, d)
    decreases if d < 1 then 0 else d
  {
    if d >= 1 {
      ScheduleCostAtMost(t, d - 1);
      RootSearchAgrees(MinimaxMethod, t, d, 0);
    }
  }
}
