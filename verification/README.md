# Game-tree search of `CustomPlayer` (AIND Isolation agent), modelled in Dafny

This project models the search core of the Isolation-playing agent `CustomPlayer`. The core has three parts:

- depth-limited **minimax**;
- **alpha-beta** pruning, with the agent's own window and pruning rules;
- the **iterative-deepening driver** `get_move`, which runs the chosen search at depth limits 1, 2, … against the turn clock and recovers from `Timeout`.

The model is built from pure functions over an immutable game tree. Each search has two forms:

- a pure form (`Minimax`, `AlphaBeta`);
- a clocked form (`MinimaxClocked`, `AlphaBetaClocked`) that threads the clock through the same recursion.

Lemmas connect the two forms, and connect alpha-beta to minimax.

## Modules

- `scores.dfy` (`Scores`): scores are extended integers `NegInf | Fin(n) | PosInf`, standing in for the heuristic's floats and its ±∞. It also holds the role helpers (`Pick` is Python's `max`/`min` on the running value) and `Clamp`.
- `game_tree.dfy` (`GameTree`): stands in for the board collaborator.
  - A `Tree` node carries the evaluation function's score of the position, taken from the searching player's point of view.
  - A node's children are the positions reached by `forecast_move` on `get_legal_moves(self)`, in enumeration order. The source enumerates the searching player's moves at every layer, and so does the tree.
  - A `Move` is a coordinate `Play(cell)` or the integer `0` that seeds the running pair (`Placeholder`). `NoMove` is `(-1, -1)`.
  - `Result` is `Ok(pair) | Timeout`.
- `minimax.dfy` (`MinimaxSearch`), `alphabeta.dfy` (`AlphaBetaSearch`): the two searches.
  - Each is a node function plus a forward fold over the children. One loop turn is a `…Step` function.
  - Each also has a node count (`…Visits`) and a clocked twin.
  - The clock is fuel: one unit is spent per node entry, and it is checked before anything else.
  - `Timeout` is passed up by every frame unchanged.
- `clock.dfy` (`Clock`): `Budget` turns the readings of `time_left()` into fuel. The fuel is the number of node entries that pass the check `time_left() >= TIMER_THRESHOLD` before the first failure, which ends the search.
- `agent.dfy` (`Agent`): `CustomPlayer.__init__` (`NewPlayer`) and `get_move` (`GetMove`, with the loop `Deepen`).
- `scenarios.dfy` (`Scenarios`): small trees on which the tie-break, a prune and the driver's odd answers are worked out.

## Behaviour kept exactly as the code has it

- The cut-off test is `depth > search_depth`. A limit `d` therefore expands depths `0..d`, one ply more than the constructor's docstring describes.
- A frame changes its move only when its running value changes. The first child reaching the final value wins ties. If no child moves the value off its start value, the move is the integer `0`. The start value is ±∞ for minimax, and `alpha` or `beta` for alpha-beta. The `0` can reach `get_move`'s caller, as `LosingRootAnswersPlaceholder` shows.
- Alpha-beta prunes on strict comparisons (`> beta`, `< alpha`). A max node starts at `alpha` and a min node at `beta`.
- `get_move`'s timeout handler returns `next_move` unprojected.
  - After a completed iteration, that value is a whole `[score, move]` pair (`Answer.ScoredMove`).
  - The normal exit returns `next_move[1]`. When no iteration ran (iterative mode with `search_depth < 1`), that is the column of the seed coordinate (`Answer.Column`).
- The loop overwrites `self.search_depth`, so after a timeout the player keeps the interrupted depth.

Two docstrings promise more than the code delivers. The docstring of `get_move` (game_agent.py:130-134) promises a legal move, or `(-1, -1)` when there is none; the `0` placeholder, the `[score, move]` pair and the bare column above are none of these. The constructor's docstring (game_agent.py:64-68) says a depth of 1 explores only the immediate successors, while the cut-off test expands one ply more. The model follows the code.

## Model

| member | source | states |
|---|---|---|
| `Scores.Pick` | game_agent.py:231-234 | `max`/`min` of running value and child value: the result is at least as good as both and is one of them; the child replaces the running value only when strictly better |
| `MinimaxSearch.Minimax` | game_agent.py:175-238 | an expanded node's move is the `0` placeholder or the move of one of its children |
| `MinimaxSearch.MinimaxFold` | game_agent.py:228-238 | the loop never makes the running value worse; the move changes only if the value does, and then it is a child's move |
| `MinimaxSearch.MinimaxFoldSpec` | game_agent.py:222-238 | from any child on, the loop's result is at least as good as every child, and the move is the first child whose value equals the result, every earlier child being strictly worse |
| `MinimaxSearch.MinimaxIsBestChild` | game_agent.py:222-234 | an expanded node's minimax value is the maximum (max layer) or minimum (min layer) of its children's values at `depth + 1` with the role flipped: no child is better and some child attains it |
| `MinimaxSearch.MinimaxFirstBest` | game_agent.py:222-236 | tie-break: the move is `0` exactly when the value is the layer's sentinel ±∞; otherwise it is the first child attaining the value |
| `MinimaxSearch.MinimaxClocked` | game_agent.py:206-207 | the clock only runs down, and a timeout leaves it empty |
| `MinimaxSearch.MinimaxClockedFold` | game_agent.py:228-238 | the loop against the clock only spends it; a child's `Timeout` is passed up unchanged and leaves the clock empty |
| `MinimaxSearch.MinimaxClockedAgrees` | game_agent.py:206-238 | the clocked search times out exactly when the clock admits fewer entries than the search makes; otherwise it returns the pure minimax pair and spends one unit per node entered |
| `AlphaBetaSearch.AlphaBeta` | game_agent.py:240-318 | an expanded node's move is the `0` placeholder or the move of one of its children |
| `AlphaBetaSearch.AlphaBetaFold` | game_agent.py:291-318 | the loop (stopping on a prune) never makes the running value worse; the move changes only if the value does, and then it is a child's move |
| `AlphaBetaSearch.AlphaBetaWindow` | game_agent.py:291-318 | window property for `alpha <= beta` and minimax value `m`: `alpha < m < beta` gives `m`; `m <= alpha` gives a result `<= alpha`; `m >= beta` gives a result `>= beta` |
| `AlphaBetaSearch.AlphaBetaFoldWindow` | game_agent.py:293-316 | loop invariant of the window proof: the running alpha-beta value is the running minimax value clamped into `[alpha, beta]` until a prune |
| `AlphaBetaSearch.ClampStep` | game_agent.py:296-299 | one loop turn that does not prune keeps the running alpha-beta value equal to the clamped running minimax value |
| `AlphaBetaSearch.PruneStep` | game_agent.py:300-302 | a turn that prunes leaves a value beyond the window, on the same side as the node's exact value |
| `AlphaBetaSearch.AlphaBetaFullWindow` | game_agent.py:240-318 | root equivalence: with the default window (−∞, +∞), alpha-beta returns the same score and the same move as minimax, on either layer |
| `AlphaBetaSearch.AlphaBetaVisitsAtMost` | game_agent.py:300-316 | alpha-beta enters no more nodes than minimax |
| `AlphaBetaSearch.PrunedSiblingsNeverEntered` | game_agent.py:293-316 | once a node's loop has pruned after child `k`, the children after `k` are never entered: replacing them changes neither the pair returned nor the nodes entered |
| `AlphaBetaSearch.AlphaBetaPlaceholder` | game_agent.py:291-313 | the move is `0` exactly when the value is still the start value (`alpha` on a max layer, `beta` on a min layer); otherwise it is a child's move |
| `AlphaBetaSearch.AlphaBetaClocked` | game_agent.py:278-279 | the clock only runs down, and a timeout leaves it empty |
| `AlphaBetaSearch.AlphaBetaClockedFold` | game_agent.py:293-316 | the pruning loop against the clock only spends it; a child's `Timeout` is passed up unchanged and leaves the clock empty |
| `AlphaBetaSearch.AlphaBetaClockedAgrees` | game_agent.py:278-318 | the clocked alpha-beta times out exactly when the clock admits fewer entries than alpha-beta makes; otherwise it returns the pure pair and spends one unit per node entered |
| `AlphaBetaSearch.CutoffExpandsNothing` | game_agent.py:278-289 | below the depth limit or without legal moves, both searches spend one clock unit and return the node's evaluation with `(-1, -1)` |
| `Clock.Budget` | game_agent.py:206-207 | the fuel is the number of leading readings at or above the threshold: every admitted reading passes the check and the next one fails it |
| `Agent.DefaultPlayerSettings` | game_agent.py:86-96 | `CustomPlayer()` with all defaults is an iterative minimax player at depth limit 3 with threshold 10 |
| `Agent.NewPlayer` | game_agent.py:86-96 | the method name `"minimax"` selects minimax and every other name selects alpha-beta; depth, mode and threshold are kept as given |
| `Agent.RootSearch` | game_agent.py:164-166 | one root search `self.method(game, depth=0)` (alpha-beta with its default window, game_agent.py:240) only spends the clock, and a timeout leaves it empty |
| `Agent.RootSearchAgrees` | game_agent.py:164-166 | whichever method is configured, a root search that the clock lets finish returns the root's minimax pair; alpha-beta needs no more clock than minimax |
| `Agent.Unprojected` | game_agent.py:168-170 | the timeout handler returns a move exactly while no search has completed, and a whole `[score, move]` pair exactly once one has |
| `Agent.Projected` | game_agent.py:172-173 | the normal exit returns a move exactly once a search has completed, and a column of the seed exactly while none has |
| `Agent.ExitsShareNextMove` | game_agent.py:168-173 | both exits return the same `next_move`: the normal exit is the timeout handler's value indexed by `[1]` |
| `Agent.Deepen` | game_agent.py:155-173 | the loop leaves `search_depth` at most the configured maximum and, when it runs at all, at least the starting limit; it stops below the maximum only through the timeout handler, so never with a bare column; a bare column comes back exactly when no iteration ran and `next_move` is still the seed. Which limit is interrupted, and what is returned then, is stated by `Agent.DeepenOutcome` |
| `Agent.GetMove` | game_agent.py:101-173 | only `search_depth` of the player can change, it never grows, and it stays unchanged without iterative deepening |
| `Agent.DeepenOutcome` | game_agent.py:150-173 | the loop runs depth limits in increasing order on one clock; it returns the last iteration's move when all fit, and otherwise the pending value of the iteration before the first one the clock cannot cover |
| `Agent.GetMoveIgnoresLaterReadings` | game_agent.py:206-207 | once a clock check has failed, readings after it cannot change `get_move`'s answer or the player |
| `Agent.GetMoveWithoutLegalMoves` | game_agent.py:139-140 | with no legal moves the answer is `(-1, -1)` whatever the tree and clock, so no search runs |
| `Agent.GetMoveIterative` | game_agent.py:150-173 | if the clock covers iterations 1..`search_depth`, the answer is the last iteration's move; otherwise `search_depth` is left at the interrupted depth `d` and the answer is the seed (for `d = 1`) or the whole pair of iteration `d - 1` |
| `Agent.GetMoveFixedDepth` | game_agent.py:165-173 | without iterative deepening, a finished search gives its move and a timeout gives the seed |
| `Agent.AlphaBetaPlayerAgrees` | game_agent.py:91-94 | choosing alpha-beta instead of minimax never changes `get_move`'s answer or final depth when the minimax player's search finishes in time |
| `Scenarios.TieBreakPicksFirstBest` | game_agent.py:228-236 | moves A, B, C worth 3, 5, 5 at a max node: both searches choose B, not C |
| `Scenarios.PruningSkipsSiblings` | game_agent.py:293-302 | in a two-ply tree a min reply whose first answer falls below alpha is cut: alpha-beta makes 5 node entries to minimax's 7 and returns the same pair |
| `Scenarios.LosingRootAnswersPlaceholder` | game_agent.py:222-238 | when every move scores −∞, `get_move` returns the integer `0`, which is not a legal move |
| `Scenarios.TimeoutAfterFirstIterationAnswersPair` | game_agent.py:157-170 | a clock that runs out during iteration 2 makes `get_move` return iteration 1's whole `[score, move]` pair and leave `search_depth` at 2 |

## Left out

- `custom_score` (game_agent.py:19-53) is left out. Its non-terminal value is float division over board queries. Each tree node's `leafScore` stands for `self.score(game, self)` at that node.
- The board collaborator (`get_legal_moves`, `forecast_move`, `is_winner`, `is_loser`) is left out. Its source is not part of this model, and the finite game tree replaces it. The `legal_moves` argument of `get_move` is kept separate from the root's children, as in the source.
- `random.choice` is left out. The seed is a caller-supplied element of `legal_moves`.
- Wall-clock time is left out. `time_left()` is the sequence of its readings at the node entries, and `TIMER_THRESHOLD` is an integer number of milliseconds. The promise to return before the clock reaches 0 ms cannot be stated without real time.
- Floating-point scores are left out, along with their corner cases (NaN, signed zeros). Scores are integers extended with ±∞.
- The timeout default `10.` is a float; `DefaultPlayer` and every threshold here are integers of milliseconds.
- The `TESTING` debug prints are left out. They are output with no effect on the result.
- AlphaBetaSearch.AlphaBetaPlaceholder: under a narrowed window, the alpha-beta tie-break is stated only as "the move is `0` exactly when the value stayed at its start, else a child's move". "First child attaining the value" is proved for alpha-beta only with the full window, through `AlphaBetaFullWindow` and `MinimaxFirstBest`. Under a narrowed window the child values depend on the running window.
