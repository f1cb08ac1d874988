/** Small game trees on which the behaviour of the search core is worked out
    completely: the tie-break, a pruned subtree, and the two shapes of answer
    `get_move` can return that are not legal moves. */
module Scenarios {
  import opened Scores
  import opened GameTree
  import opened MinimaxSearch
  import opened AlphaBetaSearch
  import opened Clock
  import opened Agent

  function Leaf(s: Score): Tree {
    Node(s, [])
  }

  const A := Cell(0, 0)
  const B := Cell(0, 1)
  const C := Cell(1, 0)

  /** A maximizing root whose three moves A, B, C lead to positions worth
      3, 5 and 5. */
  const TieTree := Node(Fin(0), [Branch(A, Leaf(Fin(3))), Branch(B, Leaf(Fin(5))), Branch(C, Leaf(Fin(5)))])

  /** Of two equally good moves the first one is chosen: B, not C. */
  lemma TieBreakPicksFirstBest()
    ensures Minimax(TieTree, 0, 0, true) == Best(Fin(5), Play(B))
    ensures AlphaBeta(TieTree, 0, 0, NegInf, PosInf, true) == Best(Fin(5), Play(B))
  {
    TieTreeAtAnyLimit(0);
    AlphaBetaFullWindow(TieTree, 0, 0, true);
  }

  /** Below the root every node of `TieTree` is a leaf, so the limit does not
      matter as long as the root is expanded. */
  lemma TieTreeAtAnyLimit(limit: int)
    requires limit >= 0
    ensures Minimax(TieTree, 0, limit, true) == Best(Fin(5), Play(B))
    ensures MinimaxVisits(TieTree, 0, limit) == 4
  {
    var start := Best(NegInf, Placeholder);
    var afterA := Best(Fin(3), Play(A));
    var afterB := Best(Fin(5), Play(B));
    assert ChildScore(TieTree, 0, 0, limit, true) == Fin(3);
    assert ChildScore(TieTree, 1, 0, limit, true) == Fin(5);
    assert ChildScore(TieTree, 2, 0, limit, true) == Fin(5);
    assert MinimaxStep(TieTree, 0, 0, limit, true, start) == afterA;
    assert MinimaxStep(TieTree, 1, 0, limit, true, afterA) == afterB;
    assert MinimaxStep(TieTree, 2, 0, limit, true, afterB) == afterB;
    assert MinimaxFold(TieTree, 3, 0, limit, true, afterB) == afterB;
    assert MinimaxFold(TieTree, 2, 0, limit, true, afterB) == afterB;
    assert MinimaxFold(TieTree, 1, 0, limit, true, afterA) == afterB;
    assert MinimaxFold(TieTree, 0, 0, limit, true, start) == afterB;
    assert MinimaxFoldVisits(TieTree, 3, 0, limit) == 0;
    assert MinimaxFoldVisits(TieTree, 2, 0, limit) == 1;
    assert MinimaxFoldVisits(TieTree, 1, 0, limit) == 2;
    assert MinimaxFoldVisits(TieTree, 0, 0, limit) == 3;
  }

  /** A two-ply tree: the root's second reply Y is a minimizing node whose
      first grandchild is already worth less than the 3 the root is sure of. */
  const Y1 := Cell(2, 0)
  const X := Node(Fin(0), [Branch(Cell(3, 0), Leaf(Fin(3)))])
  const Y := Node(Fin(0), [Branch(Y1, Leaf(Fin(1))), Branch(Cell(2, 1), Leaf(Fin(7))), Branch(Cell(2, 2), Leaf(Fin(8)))])
  const PruneTree := Node(Fin(0), [Branch(A, X), Branch(B, Y)])

  /** Alpha-beta leaves the last two grandchildren of Y unvisited (five node
      entries against minimax's seven) and still returns minimax's pair. */
  lemma PruningSkipsSiblings()
    ensures Minimax(PruneTree, 0, 1, true) == Best(Fin(3), Play(A))
    ensures AlphaBeta(PruneTree, 0, 1, NegInf, PosInf, true) == Best(Fin(3), Play(A))
    ensures MinimaxVisits(PruneTree, 0, 1) == 7
    ensures AlphaBetaVisits(PruneTree, 0, 1, NegInf, PosInf, true) == 5
  {
    // The replies X and Y, searched by minimax.
    var xBest := Best(Fin(3), Play(Cell(3, 0)));
    assert MinimaxStep(X, 0, 1, 1, false, Best(PosInf, Placeholder)) == xBest;
    assert MinimaxFold(X, 1, 1, 1, false, xBest) == xBest;
    assert Minimax(X, 1, 1, false) == xBest;
    assert MinimaxFoldVisits(X, 1, 1, 1) == 0;
    assert MinimaxVisits(X, 1, 1) == 2;
    var yBest := Best(Fin(1), Play(Y1));
    assert MinimaxStep(Y, 0, 1, 1, false, Best(PosInf, Placeholder)) == yBest;
    assert MinimaxStep(Y, 1, 1, 1, false, yBest) == yBest;
    assert MinimaxStep(Y, 2, 1, 1, false, yBest) == yBest;
    assert MinimaxFold(Y, 3, 1, 1, false, yBest) == yBest;
    assert MinimaxFold(Y, 2, 1, 1, false, yBest) == yBest;
    assert MinimaxFold(Y, 1, 1, 1, false, yBest) == yBest;
    assert Minimax(Y, 1, 1, false) == yBest;
    assert MinimaxFoldVisits(Y, 3, 1, 1) == 0;
    assert MinimaxFoldVisits(Y, 2, 1, 1) == 1;
    assert MinimaxFoldVisits(Y, 1, 1, 1) == 2;
    assert MinimaxFoldVisits(Y, 0, 1, 1) == 3;
    assert MinimaxVisits(Y, 1, 1) == 4;
    // The root, searched by minimax.
    var start := Best(NegInf, Placeholder);
    var afterX := Best(Fin(3), Play(A));
    assert MinimaxStep(PruneTree, 0, 0, 1, true, start) == afterX;
    assert MinimaxStep(PruneTree, 1, 0, 1, true, afterX) == afterX;
    assert MinimaxFold(PruneTree, 2, 0, 1, true, afterX) == afterX;
    assert MinimaxFold(PruneTree, 1, 0, 1, true, afterX) == afterX;
    assert MinimaxFoldVisits(PruneTree, 2, 0, 1) == 0;
    assert MinimaxFoldVisits(PruneTree, 1, 0, 1) == 4;
    // Alpha-beta: X gets the full window, Y the window (3, +oo) and prunes
    // after its first grandchild.
    AlphaBetaFullWindow(PruneTree, 0, 1, true);
    AlphaBetaFullWindow(X, 1, 1, false);
    assert AlphaBetaStep(X, 0, 1, 1, NegInf, PosInf, false, Best(PosInf, Placeholder)) == xBest;
    assert AlphaBetaFoldVisits(X, 1, 1, 1, NegInf, PosInf, false, xBest) == 0;
    assert AlphaBetaVisits(X, 1, 1, NegInf, PosInf, false) == 2;
    assert AlphaBetaStep(Y, 0, 1, 1, Fin(3), PosInf, false, Best(PosInf, Placeholder)) == yBest;
    assert AlphaBetaFoldVisits(Y, 0, 1, 1, Fin(3), PosInf, false, Best(PosInf, Placeholder)) == 1;
    assert AlphaBeta(Y, 1, 1, Fin(3), PosInf, false) == yBest;
    assert AlphaBetaVisits(Y, 1, 1, Fin(3), PosInf, false) == 2;
    assert AlphaBetaStep(PruneTree, 0, 0, 1, NegInf, PosInf, true, start) == afterX;
    assert AlphaBetaStep(PruneTree, 1, 0, 1, NegInf, PosInf, true, afterX) == afterX;
    assert AlphaBetaFoldVisits(PruneTree, 2, 0, 1, NegInf, PosInf, true, afterX) == 0;
    assert AlphaBetaFoldVisits(PruneTree, 1, 0, 1, NegInf, PosInf, true, afterX) == 2;
    assert AlphaBetaFoldVisits(PruneTree, 0, 0, 1, NegInf, PosInf, true, start) == 4;
  }

  /** When every move loses (scores −∞), no child ever moves the running
      value off −∞ and `get_move` returns the integer `0` placeholder,
      which is not a legal move. */
  const LostTree := Node(Fin(0), [Branch(A, Leaf(NegInf)), Branch(B, Leaf(NegInf))])

  lemma LostTreeAtAnyLimit(limit: int)
    requires limit >= 0
    ensures Minimax(LostTree, 0, limit, true) == Best(NegInf, Placeholder)
    ensures MinimaxVisits(LostTree, 0, limit) == 3
  {
    var start := Best(NegInf, Placeholder);
    assert MinimaxStep(LostTree, 0, 0, limit, true, start) == start;
    assert MinimaxStep(LostTree, 1, 0, limit, true, start) == start;
    assert MinimaxFold(LostTree, 2, 0, limit, true, start) == start;
    assert MinimaxFold(LostTree, 1, 0, limit, true, start) == start;
    assert MinimaxFoldVisits(LostTree, 2, 0, limit) == 0;
    assert MinimaxFoldVisits(LostTree, 1, 0, limit) == 1;
  }

  lemma LosingRootAnswersPlaceholder(readings: seq<int>)
    requires |readings| >= 6 && forall k :: 0 <= k < |readings| ==> readings[k] >= 10
    ensures GetMove(NewPlayer(2, true, "minimax", 10), LostTree, [A, B], A, readings).0 == Played(Placeholder)
  {
    var p := NewPlayer(2, true, "minimax", 10);
    assert Budget(readings, 10) == |readings|;
    GetMoveIterative(p, LostTree, [A, B], A, readings);
    LostTreeAtAnyLimit(1);
    LostTreeAtAnyLimit(2);
    assert ScheduleCost(MinimaxMethod, LostTree, 2) == 6;
  }

  /** When the clock runs out during the second iteration, the timeout
      handler returns the whole `[score, move]` pair of the first iteration
      instead of a move, and `search_depth` is left at 2. */
  lemma TimeoutAfterFirstIterationAnswersPair()
    ensures var r := GetMove(NewPlayer(3, true, "minimax", 10), TieTree, [A, B, C], C, [50, 40, 30, 20, 15, 12, 9]);
      && r.0 == ScoredMove(Fin(5), Play(B))
      && r.1.searchDepth == 2
  {
    var p := NewPlayer(3, true, "minimax", 10);
    var readings := [50, 40, 30, 20, 15, 12, 9];
    assert Budget(readings, 10) == 6;
    GetMoveIterative(p, TieTree, [A, B, C], C, readings);
    TieTreeAtAnyLimit(1);
    TieTreeAtAnyLimit(2);
    TieTreeAtAnyLimit(3);
    assert ScheduleCost(MinimaxMethod, TieTree, 1) == 4;
    assert ScheduleCost(MinimaxMethod, TieTree, 2) == 8;
    assert ScheduleCost(MinimaxMethod, TieTree, 3) == 12;
  }
}
