/** `CustomPlayer.alphabeta`: minimax with alpha-beta pruning, with the same
    cut-off test, clock check and tie-break as minimax.

    A maximizing node starts its running value at the inbound `alpha`, hands
    the running value to each child as that child's `alpha`, and stops as soon
    as the running value is strictly above `beta`. A minimizing node mirrors
    this: it starts at `beta`, hands the running value down as `beta`, and
    stops once the running value is strictly below `alpha`. */
module AlphaBetaSearch {
  import opened Scores
  import opened GameTree
  import opened MinimaxSearch

  /** The running pair a node starts from: `[alpha, 0]` on a maximizing
      layer, `[beta, 0]` on a minimizing one. */
  function Start(maximizing: bool, alpha: Score, beta: Score): Best {
    Best(if maximizing then alpha else beta, Placeholder)
  }

  /** The window a child is searched with, given the node's running value. */
  function ChildAlpha(maximizing: bool, alpha: Score, running: Score): Score {
    if maximizing then running else alpha
  }

  function ChildBeta(maximizing: bool, beta: Score, running: Score): Score {
    if maximizing then beta else running
  }

  /** The pruning test, made after each child. */
  predicate Prunes(maximizing: bool, alpha: Score, beta: Score, running: Score) {
    if maximizing then Lt(beta, running) else Lt(running, alpha)
  }

  /** The pair alpha-beta returns for node `t` searched with window (alpha, beta). */
  function AlphaBeta(t: Tree, depth: nat, limit: int, alpha: Score, beta: Score, maximizing: bool): (r: Best)
    ensures !CutOff(t, depth, limit) ==> r.move == Placeholder || IsChildMove(t, r.move)
    decreases t, 2
  {
    if CutOff(t, depth, limit) then Best(t.leafScore, NoMove)
    else AlphaBetaFold(t, 0, depth, limit, alpha, beta, maximizing, Start(maximizing, alpha, beta))
  }

  /** One turn of the loop: search child `i` with the narrowed window, fold
      its score into the running value, and move the running move to child
      `i` only when the running value changed. */
  function AlphaBetaStep(t: Tree, i: nat, depth: nat, limit: int, alpha: Score, beta: Score, maximizing: bool, acc: Best): (r: Best)
    requires i < |t.children|
    decreases t, 0
  {
    var b := t.children[i];
    var s := AlphaBeta(b.next, depth + 1, limit, ChildAlpha(maximizing, alpha, acc.score),
                       ChildBeta(maximizing, beta, acc.score), !maximizing).score;
    var v := Pick(maximizing, acc.score, s);
    Best(v, if v != acc.score then Play(b.cell) else acc.move)
  }

  /** The loop over the children from index `i` on, returning as soon as the
      pruning test holds. */
  function AlphaBetaFold(t: Tree, i: nat, depth: nat, limit: int, alpha: Score, beta: Score, maximizing: bool, acc: Best): (r: Best)
    requires i <= |t.children|
    ensures AtLeastAsGood(maximizing, r.score, acc.score)
    ensures r.score == acc.score ==> r.move == acc.move
    ensures r.score != acc.score ==> exists j :: i <= j < |t.children| && r.move == Play(t.children[j].cell)
    decreases t, 1, |t.children| - i
  {
    if i == |t.children| then acc
    else
      var next := AlphaBetaStep(t, i, depth, limit, alpha, beta, maximizing, acc);
      if Prunes(maximizing, alpha, beta, next.score) then next
      else
        AlphaBetaFold(t, i + 1, depth, limit, alpha, beta, maximizing, next)
  }

  /* Node counts. */

  /** The number of node entries (clock checks) alpha-beta makes below and at `t`. */
  function AlphaBetaVisits(t: Tree, depth: nat, limit: int, alpha: Score, beta: Score, maximizing: bool): (n: nat)
    ensures n >= 1
    decreases t, 1
  {
    if CutOff(t, depth, limit) then 1
    else 1 + AlphaBetaFoldVisits(t, 0, depth, limit, alpha, beta, maximizing, Start(maximizing, alpha, beta))
  }

  function AlphaBetaFoldVisits(t: Tree, i: nat, depth: nat, limit: int, alpha: Score, beta: Score, maximizing: bool, acc: Best): nat
    requires i <= |t.children|
    decreases t, 0, |t.children| - i
  {
    if i == |t.children| then 0
    else
      var next := AlphaBetaStep(t, i, depth, limit, alpha, beta, maximizing, acc);
      AlphaBetaVisits(t.children[i].next, depth + 1, limit, ChildAlpha(maximizing, alpha, acc.score),
                      ChildBeta(maximizing, beta, acc.score), !maximizing)
      + if Prunes(maximizing, alpha, beta, next.score) then 0
        else AlphaBetaFoldVisits(t, i + 1, depth, limit, alpha, beta, maximizing, next)
  }

  /* The search against the clock. */

  /** Alpha-beta with `fuel` clock checks left: returns the outcome and the
      fuel that remains. A `Timeout` from any child is passed up unchanged. */
  function AlphaBetaClocked(t: Tree, depth: nat, limit: int, alpha: Score, beta: Score, maximizing: bool, fuel: nat): (r: (Result, nat))
    ensures r.1 <= fuel
    ensures r.0.Timeout? ==> r.1 == 0
    decreases t, 1
  {
    if fuel == 0 then (Timeout, 0)
    else if CutOff(t, depth, limit) then (Ok(Best(t.leafScore, NoMove)), fuel - 1)
    else AlphaBetaClockedFold(t, 0, depth, limit, alpha, beta, maximizing, Start(maximizing, alpha, beta), fuel - 1)
  }

  function AlphaBetaClockedFold(t: Tree, i: nat, depth: nat, limit: int, alpha: Score, beta: Score, maximizing: bool, acc: Best, fuel: nat): (r: (Result, nat))
    requires i <= |t.children|
    ensures r.1 <= fuel
    ensures r.0.Timeout? ==> r.1 == 0
    decreases t, 0, |t.children| - i
  {
    if i == |t.children| then (Ok(acc), fuel)
    else
      var b := t.children[i];
      var sub := AlphaBetaClocked(b.next, depth + 1, limit, ChildAlpha(maximizing, alpha, acc.score),
                                  ChildBeta(maximizing, beta, acc.score), !maximizing, fuel);
      if sub.0.Timeout? then sub
      else
        var v := Pick(maximizing, acc.score, sub.0.best.score);
        var next := Best(v, if v != acc.score then Play(b.cell) else acc.move);
        if Prunes(maximizing, alpha, beta, v) then (Ok(next), sub.1)
        else AlphaBetaClockedFold(t, i + 1, depth, limit, alpha, beta, maximizing, next, sub.1)
  }

  /* The window property. */

  /** What an alpha-beta value `approx`, computed with the window
      (alpha, beta), promises about the exact minimax value `exact`: inside
      the window they coincide, at or below `alpha` the approximation is at or
      below `alpha`, at or above `beta` it is at or above `beta`. */
  predicate WindowAgrees(exact: Score, approx: Score, alpha: Score, beta: Score) {
    && (Le(exact, alpha) ==> Le(approx, alpha))
    && (Le(beta, exact) ==> Le(beta, approx))
    && (Lt(alpha, exact) && Lt(exact, beta) ==> approx == exact)
  }

  /** One loop turn keeps the running alpha-beta value equal to the running
      minimax value clamped into the window, unless the turn prunes. */
  lemma ClampStep(maximizing: bool, alpha: Score, beta: Score, v: Score, w: Score, m: Score, c: Score)
    requires Le(alpha, beta)
    requires v == Clamp(alpha, beta, w)
    requires WindowAgrees(m, c, ChildAlpha(maximizing, alpha, v), ChildBeta(maximizing, beta, v))
    requires !Prunes(maximizing, alpha, beta, Pick(maximizing, v, c))
    ensures Pick(maximizing, v, c) == Clamp(alpha, beta, Pick(maximizing, w, m))
  {}

  /** A turn that prunes leaves a value on the far side of the window, and
      the exact value of the node (at least as good as child value `m`) lies
      on that side too. */
  lemma PruneStep(maximizing: bool, alpha: Score, beta: Score, v: Score, m: Score, c: Score, exact: Score)
    requires Le(alpha, beta)
    requires Le(alpha, v) && Le(v, beta)
    requires WindowAgrees(m, c, ChildAlpha(maximizing, alpha, v), ChildBeta(maximizing, beta, v))
    requires Prunes(maximizing, alpha, beta, Pick(maximizing, v, c))
    requires AtLeastAsGood(maximizing, exact, m)
    ensures WindowAgrees(exact, Pick(maximizing, v, c), alpha, beta)
  {}

  /** The alpha-beta window property: for `alpha <= beta`, the value
      alpha-beta returns agrees with the minimax value in the sense of
      `WindowAgrees`. */
  lemma {:induction false} AlphaBetaWindow(t: Tree, depth: nat, limit: int, alpha: Score, beta: Score, maximizing: bool)
    requires Le(alpha, beta)
    ensures WindowAgrees(Minimax(t, depth, limit, maximizing).score,
                         AlphaBeta(t, depth, limit, alpha, beta, maximizing).score, alpha, beta)
    decreases t, 2
  {
    if !CutOff(t, depth, limit) {
      AlphaBetaFoldWindow(t, 0, depth, limit, alpha, beta, maximizing,
                          Start(maximizing, alpha, beta), Best(Worst(maximizing), Placeholder));
    }
  }

  lemma {:induction false} AlphaBetaFoldWindow(t: Tree, i: nat, depth: nat, limit: int, alpha: Score, beta: Score,
                                                maximizing: bool, acc: Best, macc: Best)
    requires Le(alpha, beta)
    requires i <= |t.children|
    requires acc.score == Clamp(alpha, beta, macc.score)
    ensures WindowAgrees(MinimaxFold(t, i, depth, limit, maximizing, macc).score,
                         AlphaBetaFold(t, i, depth, limit, alpha, beta, maximizing, acc).score, alpha, beta)
    decreases t, 1, |t.children| - i
  {
    var v := acc.score;
    if i < |t.children| {
      var child := t.children[i].next;
      AlphaBetaWindow(child, depth + 1, limit, ChildAlpha(maximizing, alpha, v), ChildBeta(maximizing, beta, v), !maximizing);
      var m := Minimax(child, depth + 1, limit, !maximizing).score;
      var c := AlphaBeta(child, depth + 1, limit, ChildAlpha(maximizing, alpha, v), ChildBeta(maximizing, beta, v), !maximizing).score;
      var next := AlphaBetaStep(t, i, depth, limit, alpha, beta, maximizing, acc);
      var mnext := MinimaxStep(t, i, depth, limit, maximizing, macc);
      assert next.score == Pick(maximizing, v, c);
      assert mnext.score == Pick(maximizing, macc.score, m);
      if Prunes(maximizing, alpha, beta, next.score) {
        var exact := MinimaxFold(t, i + 1, depth, limit, maximizing, mnext).score;
        PruneStep(maximizing, alpha, beta, v, m, c, exact);
      } else {
        ClampStep(maximizing, alpha, beta, v, macc.score, m, c);
        AlphaBetaFoldWindow(t, i + 1, depth, limit, alpha, beta, maximizing, next, mnext);
      }
    }
  }

  /* Root equivalence. */

  /** With the full window a loop turn folds the same value into the running
      value as plain minimax would. */
  lemma FullWindowStep(maximizing: bool, v: Score, m: Score, c: Score)
    requires WindowAgrees(m, c, ChildAlpha(maximizing, NegInf, v), ChildBeta(maximizing, PosInf, v))
    ensures Pick(maximizing, v, c) == Pick(maximizing, v, m)
  {}

  /** Searched with the default window (−∞, +∞), alpha-beta returns exactly
      the pair minimax returns: the same score and the same move. */
  lemma AlphaBetaFullWindow(t: Tree, depth: nat, limit: int, maximizing: bool)
    ensures AlphaBeta(t, depth, limit, NegInf, PosInf, maximizing) == Minimax(t, depth, limit, maximizing)
  {
    if !CutOff(t, depth, limit) {
      AlphaBetaFoldFullWindow(t, 0, depth, limit, maximizing, Best(Worst(maximizing), Placeholder));
    }
  }

  lemma {:induction false} AlphaBetaFoldFullWindow(t: Tree, i: nat, depth: nat, limit: int, maximizing: bool, acc: Best)
    requires i <= |t.children|
    ensures AlphaBetaFold(t, i, depth, limit, NegInf, PosInf, maximizing, acc) == MinimaxFold(t, i, depth, limit, maximizing, acc)
    decreases |t.children| - i
  {
    if i < |t.children| {
      var child := t.children[i].next;
      var v := acc.score;
      AlphaBetaWindow(child, depth + 1, limit, ChildAlpha(maximizing, NegInf, v), ChildBeta(maximizing, PosInf, v), !maximizing);
      FullWindowStep(maximizing, v, Minimax(child, depth + 1, limit, !maximizing).score,
                     AlphaBeta(child, depth + 1, limit, ChildAlpha(maximizing, NegInf, v), ChildBeta(maximizing, PosInf, v), !maximizing).score);
      var next := AlphaBetaStep(t, i, depth, limit, NegInf, PosInf, maximizing, acc);
      assert next == MinimaxStep(t, i, depth, limit, maximizing, acc);
      assert !Prunes(maximizing, NegInf, PosInf, next.score);
      AlphaBetaFoldFullWindow(t, i + 1, depth, limit, maximizing, next);
    }
  }

  /* Pruning. */

  /** Alpha-beta never enters more nodes than minimax. */
  lemma {:induction false} AlphaBetaVisitsAtMost(t: Tree, depth: nat, limit: int, alpha: Score, beta: Score, maximizing: bool)
    ensures AlphaBetaVisits(t, depth, limit, alpha, beta, maximizing) <= MinimaxVisits(t, depth, limit)
    decreases t, 1
  {
    if !CutOff(t, depth, limit) {
      AlphaBetaFoldVisitsAtMost(t, 0, depth, limit, alpha, beta, maximizing, Start(maximizing, alpha, beta));
    }
  }

  lemma {:induction false} AlphaBetaFoldVisitsAtMost(t: Tree, i: nat, depth: nat, limit: int, alpha: Score, beta: Score,
                                                      maximizing: bool, acc: Best)
    requires i <= |t.children|
    ensures AlphaBetaFoldVisits(t, i, depth, limit, alpha, beta, maximizing, acc) <= MinimaxFoldVisits(t, i, depth, limit)
    decreases t, 0, |t.children| - i
  {
    if i < |t.children| {
      AlphaBetaVisitsAtMost(t.children[i].next, depth + 1, limit, ChildAlpha(maximizing, alpha, acc.score),
                            ChildBeta(maximizing, beta, acc.score), !maximizing);
      AlphaBetaFoldVisitsAtMost(t, i + 1, depth, limit, alpha, beta, maximizing,
                                AlphaBetaStep(t, i, depth, limit, alpha, beta, maximizing, acc));
    }
  }

  /** The loop from child `i` on, with running pair `acc`, stops at some child
      `j <= k` because the pruning test held right after child `j`. */
  predicate PrunesBy(t: Tree, i: nat, k: nat, depth: nat, limit: int, alpha: Score, beta: Score, maximizing: bool, acc: Best)
    decreases k - i
  {
    && i <= k < |t.children|
    && var next := AlphaBetaStep(t, i, depth, limit, alpha, beta, maximizing, acc);
       (Prunes(maximizing, alpha, beta, next.score)
        || (i < k && PrunesBy(t, i + 1, k, depth, limit, alpha, beta, maximizing, next)))
  }

  lemma {:induction false} PrunedFoldIgnoresLaterSiblings(t: Tree, t': Tree, i: nat, k: nat, depth: nat, limit: int,
                                                           alpha: Score, beta: Score, maximizing: bool, acc: Best)
    requires k < |t.children| && k < |t'.children|
    requires forall j :: 0 <= j <= k ==> t'.children[j] == t.children[j]
    requires PrunesBy(t, i, k, depth, limit, alpha, beta, maximizing, acc)
    ensures AlphaBetaFold(t', i, depth, limit, alpha, beta, maximizing, acc) == AlphaBetaFold(t, i, depth, limit, alpha, beta, maximizing, acc)
    ensures AlphaBetaFoldVisits(t', i, depth, limit, alpha, beta, maximizing, acc) == AlphaBetaFoldVisits(t, i, depth, limit, alpha, beta, maximizing, acc)
    decreases k - i
  {
    assert t'.children[i] == t.children[i];
    var next := AlphaBetaStep(t, i, depth, limit, alpha, beta, maximizing, acc);
    assert AlphaBetaStep(t', i, depth, limit, alpha, beta, maximizing, acc) == next;
    if !Prunes(maximizing, alpha, beta, next.score) {
      PrunedFoldIgnoresLaterSiblings(t, t', i + 1, k, depth, limit, alpha, beta, maximizing, next);
    }
  }

  /** Once a node's loop has pruned at child `k`, the children after `k` are
      never entered: replacing them by any other siblings `rest` changes
      neither the pair alpha-beta returns nor the nodes it enters. */
  lemma PrunedSiblingsNeverEntered(t: Tree, rest: seq<Branch>, k: nat, depth: nat, limit: int,
                                   alpha: Score, beta: Score, maximizing: bool)
    requires depth <= limit
    requires PrunesBy(t, 0, k, depth, limit, alpha, beta, maximizing, Start(maximizing, alpha, beta))
    ensures var t' := Node(t.leafScore, t.children[..k + 1] + rest);
      && AlphaBeta(t', depth, limit, alpha, beta, maximizing) == AlphaBeta(t, depth, limit, alpha, beta, maximizing)
      && AlphaBetaVisits(t', depth, limit, alpha, beta, maximizing) == AlphaBetaVisits(t, depth, limit, alpha, beta, maximizing)
  {
    var t' := Node(t.leafScore, t.children[..k + 1] + rest);
    PrunedFoldIgnoresLaterSiblings(t, t', 0, k, depth, limit, alpha, beta, maximizing, Start(maximizing, alpha, beta));
  }

  /** The tie-break: the move of an expanded node is the `0` placeholder
      exactly when no child moved the running value off its starting value
      (`alpha` on a maximizing layer, `beta` on a minimizing one); otherwise
      it is the move of one of the node's children. */
  lemma AlphaBetaPlaceholder(t: Tree, depth: nat, limit: int, alpha: Score, beta: Score, maximizing: bool)
    requires !CutOff(t, depth, limit)
    ensures var r := AlphaBeta(t, depth, limit, alpha, beta, maximizing);
      && (r.move == Placeholder <==> r.score == Start(maximizing, alpha, beta).score)
      && (r.move != Placeholder ==> IsChildMove(t, r.move))
  {}

  /* The clock. */

  /** The clocked search times out exactly when the clock admits fewer node
      entries than alpha-beta makes, and otherwise returns the pure search's
      pair having spent one unit per node entered. */
  lemma {:induction false} AlphaBetaClockedAgrees(t: Tree, depth: nat, limit: int, alpha: Score, beta: Score, maximizing: bool, fuel: nat)
    ensures AlphaBetaClocked(t, depth, limit, alpha, beta, maximizing, fuel) ==
      if AlphaBetaVisits(t, depth, limit, alpha, beta, maximizing) <= fuel
      then (Ok(AlphaBeta(t, depth, limit, alpha, beta, maximizing)), fuel - AlphaBetaVisits(t, depth, limit, alpha, beta, maximizing))
      else (Timeout, 0)
    decreases t, 1
  {
    if fuel > 0 && !CutOff(t, depth, limit) {
      AlphaBetaClockedFoldAgrees(t, 0, depth, limit, alpha, beta, maximizing, Start(maximizing, alpha, beta), fuel - 1);
    }
  }

  lemma {:induction false} AlphaBetaClockedFoldAgrees(t: Tree, i: nat, depth: nat, limit: int, alpha: Score, beta: Score,
                                                       maximizing: bool, acc: Best, fuel: nat)
    requires i <= |t.children|
    ensures AlphaBetaClockedFold(t, i, depth, limit, alpha, beta, maximizing, acc, fuel) ==
      if AlphaBetaFoldVisits(t, i, depth, limit, alpha, beta, maximizing, acc) <= fuel
      then (Ok(AlphaBetaFold(t, i, depth, limit, alpha, beta, maximizing, acc)),
            fuel - AlphaBetaFoldVisits(t, i, depth, limit, alpha, beta, maximizing, acc))
      else (Timeout, 0)
    decreases t, 0, |t.children| - i
  {
    if i < |t.children| {
      var b := t.children[i];
      var ca := ChildAlpha(maximizing, alpha, acc.score);
      var cb := ChildBeta(maximizing, beta, acc.score);
      AlphaBetaClockedAgrees(b.next, depth + 1, limit, ca, cb, !maximizing, fuel);
      var cv := AlphaBetaVisits(b.next, depth + 1, limit, ca, cb, !maximizing);
      var next := AlphaBetaStep(t, i, depth, limit, alpha, beta, maximizing, acc);
      if cv > fuel {
        ClockedFoldChildTimesOut(t, i, depth, limit, alpha, beta, maximizing, acc, fuel);
      } else if Prunes(maximizing, alpha, beta, next.score) {
        ClockedFoldChildPrunes(t, i, depth, limit, alpha, beta, maximizing, acc, fuel);
      } else {
        AlphaBetaClockedFoldAgrees(t, i + 1, depth, limit, alpha, beta, maximizing, next, fuel - cv);
        ClockedFoldChildContinues(t, i, depth, limit, alpha, beta, maximizing, acc, fuel);
      }
    }
  }

  /* The three ways one turn of the clocked loop can go, given that the
     clocked child search agrees with the pure one. */

  lemma ClockedFoldChildTimesOut(t: Tree, i: nat, depth: nat, limit: int, alpha: Score, beta: Score,
                                 maximizing: bool, acc: Best, fuel: nat)
    requires i < |t.children|
    requires var ca := ChildAlpha(maximizing, alpha, acc.score);
             var cb := ChildBeta(maximizing, beta, acc.score);
             AlphaBetaClocked(t.children[i].next, depth + 1, limit, ca, cb, !maximizing, fuel) == (Timeout, 0)
             && AlphaBetaVisits(t.children[i].next, depth + 1, limit, ca, cb, !maximizing) > fuel
    ensures AlphaBetaClockedFold(t, i, depth, limit, alpha, beta, maximizing, acc, fuel) == (Timeout, 0)
    ensures AlphaBetaFoldVisits(t, i, depth, limit, alpha, beta, maximizing, acc) > fuel
  {}

  lemma ClockedFoldChildPrunes(t: Tree, i: nat, depth: nat, limit: int, alpha: Score, beta: Score,
                               maximizing: bool, acc: Best, fuel: nat)
    requires i < |t.children|
    requires var ca := ChildAlpha(maximizing, alpha, acc.score);
             var cb := ChildBeta(maximizing, beta, acc.score);
             var cv := AlphaBetaVisits(t.children[i].next, depth + 1, limit, ca, cb, !maximizing);
             && cv <= fuel
             && AlphaBetaClocked(t.children[i].next, depth + 1, limit, ca, cb, !maximizing, fuel)
                == (Ok(AlphaBeta(t.children[i].next, depth + 1, limit, ca, cb, !maximizing)), fuel - cv)
    requires Prunes(maximizing, alpha, beta, AlphaBetaStep(t, i, depth, limit, alpha, beta, maximizing, acc).score)
    ensures AlphaBetaFoldVisits(t, i, depth, limit, alpha, beta, maximizing, acc) <= fuel
    ensures AlphaBetaClockedFold(t, i, depth, limit, alpha, beta, maximizing, acc, fuel)
         == (Ok(AlphaBetaFold(t, i, depth, limit, alpha, beta, maximizing, acc)),
             fuel - AlphaBetaFoldVisits(t, i, depth, limit, alpha, beta, maximizing, acc))
  {}

  lemma ClockedFoldChildContinues(t: Tree, i: nat, depth: nat, limit: int, alpha: Score, beta: Score,
                                  maximizing: bool, acc: Best, fuel: nat)
    requires i < |t.children|
    requires var ca := ChildAlpha(maximizing, alpha, acc.score);
             var cb := ChildBeta(maximizing, beta, acc.score);
             var cv := AlphaBetaVisits(t.children[i].next, depth + 1, limit, ca, cb, !maximizing);
             && cv <= fuel
             && AlphaBetaClocked(t.children[i].next, depth + 1, limit, ca, cb, !maximizing, fuel)
                == (Ok(AlphaBeta(t.children[i].next, depth + 1, limit, ca, cb, !maximizing)), fuel - cv)
    requires var next := AlphaBetaStep(t, i, depth, limit, alpha, beta, maximizing, acc);
             && !Prunes(maximizing, alpha, beta, next.score)
    ensures var next := AlphaBetaStep(t, i, depth, limit, alpha, beta, maximizing, acc);
            var cv := AlphaBetaVisits(t.children[i].next, depth + 1, limit, ChildAlpha(maximizing, alpha, acc.score),
                                      ChildBeta(maximizing, beta, acc.score), !maximizing);
            && AlphaBetaClockedFold(t, i, depth, limit, alpha, beta, maximizing, acc, fuel)
               == AlphaBetaClockedFold(t, i + 1, depth, limit, alpha, beta, maximizing, next, fuel - cv)
            && AlphaBetaFold(t, i, depth, limit, alpha, beta, maximizing, acc)
               == AlphaBetaFold(t, i + 1, depth, limit, alpha, beta, maximizing, next)
            && AlphaBetaFoldVisits(t, i, depth, limit, alpha, beta, maximizing, acc)
               == cv + AlphaBetaFoldVisits(t, i + 1, depth, limit, alpha, beta, maximizing, next)
  {}

  /** At a node below the depth limit or without legal moves both searches
      enter that one node only and return its evaluation with `(-1, -1)`. */
  lemma CutoffExpandsNothing(t: Tree, depth: nat, limit: int, alpha: Score, beta: Score, maximizing: bool, fuel: nat)
    requires CutOff(t, depth, limit)
    requires fuel >= 1
    ensures MinimaxClocked(t, depth, limit, maximizing, fuel) == (Ok(Best(t.leafScore, NoMove)), fuel - 1)
    ensures AlphaBetaClocked(t, depth, limit, alpha, beta, maximizing, fuel) == (Ok(Best(t.leafScore, NoMove)), fuel - 1)
  {}
}
