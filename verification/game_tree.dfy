/** The game as the search sees it. The board collaborator is replaced by a
    finite tree: a node carries the score the evaluation function gives it
    from the searching player's point of view, and its children are the
    successor positions of the searching player's legal moves, in the order
    the board enumerates them. */
module GameTree {
  import opened Scores

  /** A board coordinate (row, column). */
  datatype Cell = Cell(row: int, col: int)

  /** What a search frame reports as its move: a coordinate, or the integer
      `0` that seeds the running best pair before any child changed it. */
  datatype Move = Play(cell: Cell) | Placeholder

  /** The invalid move `(-1, -1)` reported at cut-off nodes. */
  const NoMove: Move := Play(Cell(-1, -1))

  datatype Tree = Node(leafScore: Score, children: seq<Branch>)

  /** A legal move and the position it leads to. */
  datatype Branch = Branch(cell: Cell, next: Tree)

  /** The (score, move) pair a search frame returns. */
  datatype Best = Best(score: Score, move: Move)

  /** A search frame's outcome: its pair, or the `Timeout` signal raised when
      the clock check at some node entry failed. */
  datatype Result = Ok(best: Best) | Timeout

  /** A node is not expanded when it lies below the depth limit (the test is
      strict, so limit `d` expands depths 0..d) or has no legal moves. */
  predicate CutOff(t: Tree, depth: nat, limit: int) {
    depth > limit || |t.children| == 0
  }

  /** `m` is the move of one of the children of `t`. */
  predicate IsChildMove(t: Tree, m: Move) {
    exists j :: 0 <= j < |t.children| && m == Play(t.children[j].cell)
  }
}
