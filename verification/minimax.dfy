/** `CustomPlayer.minimax`: depth-limited minimax over the game tree.

    `Minimax` is the search with an unlimited clock; `MinimaxClocked` threads
    the clock through the same recursion as fuel (one unit per node entry,
    checked before anything else) and is proved to agree with `Minimax`
    whenever the fuel covers the nodes the search enters. */
module MinimaxSearch {
  import opened Scores
  import opened GameTree

  /** The pair minimax returns for node `t` at `depth` under depth limit `limit`. */
  function Minimax(t: Tree, depth: nat, limit: int, maximizing: bool): (r: Best)
    ensures !CutOff(t, depth, limit) ==> r.move == Placeholder || IsChildMove(t, r.move)
    decreases t, 2
  {
    if CutOff(t, depth, limit) then Best(t.leafScore, NoMove)
    else MinimaxFold(t, 0, depth, limit, maximizing, Best(Worst(maximizing), Placeholder))
  }

  /** One turn of the loop over the children: search child `i` one ply deeper
      with the role flipped, fold its score into the running value, and move
      the running move to child `i` only when the running value changed. */
  function MinimaxStep(t: Tree, i: nat, depth: nat, limit: int, maximizing: bool, acc: Best): (r: Best)
    requires i < |t.children|
    decreases t, 0
  {
    var b := t.children[i];
    var v := Pick(maximizing, acc.score, Minimax(b.next, depth + 1, limit, !maximizing).score);
    Best(v, if v != acc.score then Play(b.cell) else acc.move)
  }

  /** The loop over the children from index `i` on, with running pair `acc`. */
  function MinimaxFold(t: Tree, i: nat, depth: nat, limit: int, maximizing: bool, acc: Best): (r: Best)
    requires i <= |t.children|
    ensures AtLeastAsGood(maximizing, r.score, acc.score)
    ensures r.score == acc.score ==> r.move == acc.move
    ensures r.score != acc.score ==> exists j :: i <= j < |t.children| && r.move == Play(t.children[j].cell)
    decreases t, 1, |t.children| - i
  {
    if i == |t.children| then acc
    else
      var next := MinimaxStep(t, i, depth, limit, maximizing, acc);
      MinimaxFold(t, i + 1, depth, limit, maximizing, next)
  }

  /** The score minimax gives child `j` of `t`. */
  function ChildScore(t: Tree, j: nat, depth: nat, limit: int, maximizing: bool): Score
    requires j < |t.children|
  {
    Minimax(t.children[j].next, depth + 1, limit, !maximizing).score
  }

  /* Node counts. */

  /** The number of node entries (clock checks) minimax makes below and at `t`. */
  function MinimaxVisits(t: Tree, depth: nat, limit: int): (n: nat)
    ensures n >= 1
    decreases t, 1
  {
    if CutOff(t, depth, limit) then 1 else 1 + MinimaxFoldVisits(t, 0, depth, limit)
  }

  function MinimaxFoldVisits(t: Tree, i: nat, depth: nat, limit: int): nat
    requires i <= |t.children|
    decreases t, 0, |t.children| - i
  {
    if i == |t.children| then 0
    else MinimaxVisits(t.children[i].next, depth + 1, limit) + MinimaxFoldVisits(t, i + 1, depth, limit)
  }

  /* The search against the clock. */

  /** Minimax with `fuel` clock checks left: returns the outcome and the fuel
      that remains. A `Timeout` from any child is passed up unchanged. */
  function MinimaxClocked(t: Tree, depth: nat, limit: int, maximizing: bool, fuel: nat): (r: (Result, nat))
    ensures r.1 <= fuel
    ensures r.0.Timeout? ==> r.1 == 0
    decreases t, 1
  {
    if fuel == 0 then (Timeout, 0)
    else if CutOff(t, depth, limit) then (Ok(Best(t.leafScore, NoMove)), fuel - 1)
    else MinimaxClockedFold(t, 0, depth, limit, maximizing, Best(Worst(maximizing), Placeholder), fuel - 1)
  }

  function MinimaxClockedFold(t: Tree, i: nat, depth: nat, limit: int, maximizing: bool, acc: Best, fuel: nat): (r: (Result, nat))
    requires i <= |t.children|
    ensures r.1 <= fuel
    ensures r.0.Timeout? ==> r.1 == 0
    decreases t, 0, |t.children| - i
  {
    if i == |t.children| then (Ok(acc), fuel)
    else
      var b := t.children[i];
      var sub := MinimaxClocked(b.next, depth + 1, limit, !maximizing, fuel);
      if sub.0.Timeout? then sub
      else
        var v := Pick(maximizing, acc.score, sub.0.best.score);
        MinimaxClockedFold(t, i + 1, depth, limit, maximizing,
                           Best(v, if v != acc.score then Play(b.cell) else acc.move), sub.1)
  }

  /* Properties. */

  /** The loop from child `i` on yields a value at least as good as every
      child it sees, attained by one of them unless it is the starting value;
      the move changes exactly when the value does, and then it is the FIRST
      child (from `i` on) whose score equals the final value. */
  lemma {:induction false} MinimaxFoldSpec(t: Tree, i: nat, depth: nat, limit: int, maximizing: bool, acc: Best)
    requires i <= |t.children|
    ensures var r := MinimaxFold(t, i, depth, limit, maximizing, acc);
      && (forall j :: i <= j < |t.children| ==> AtLeastAsGood(maximizing, r.score, ChildScore(t, j, depth, limit, maximizing)))
      && (r.score == acc.score ==> r.move == acc.move)
      && (r.score != acc.score ==>
            exists k :: i <= k < |t.children|
              && ChildScore(t, k, depth, limit, maximizing) == r.score
              && r.move == Play(t.children[k].cell)
              && forall j :: i <= j < k ==> Better(maximizing, r.score, ChildScore(t, j, depth, limit, maximizing)))
    decreases |t.children| - i
  {
    if i < |t.children| {
      var next := MinimaxStep(t, i, depth, limit, maximizing, acc);
      var r := MinimaxFold(t, i + 1, depth, limit, maximizing, next);
      assert r == MinimaxFold(t, i, depth, limit, maximizing, acc);
      MinimaxFoldSpec(t, i + 1, depth, limit, maximizing, next);
      var s := ChildScore(t, i, depth, limit, maximizing);
      if r.score != acc.score && r.score != next.score {
        // The first best child lies further on; child i is strictly worse.
        var k :| i + 1 <= k < |t.children|
                 && ChildScore(t, k, depth, limit, maximizing) == r.score
                 && r.move == Play(t.children[k].cell)
                 && forall j :: i + 1 <= j < k ==> Better(maximizing, r.score, ChildScore(t, j, depth, limit, maximizing));
        assert Better(maximizing, r.score, s);
      }
    }
  }

  /** The minimax value of an expanded node is the best of its children's
      values (maximum on a maximizing layer, minimum on a minimizing one):
      no child is better and some child attains it. */
  lemma MinimaxIsBestChild(t: Tree, depth: nat, limit: int, maximizing: bool)
    requires !CutOff(t, depth, limit)
    ensures forall j :: 0 <= j < |t.children| ==>
      AtLeastAsGood(maximizing, Minimax(t, depth, limit, maximizing).score, ChildScore(t, j, depth, limit, maximizing))
    ensures exists j :: 0 <= j < |t.children| && Minimax(t, depth, limit, maximizing).score == ChildScore(t, j, depth, limit, maximizing)
  {
    var acc := Best(Worst(maximizing), Placeholder);
    MinimaxFoldSpec(t, 0, depth, limit, maximizing, acc);
    var r := Minimax(t, depth, limit, maximizing);
    if r.score == acc.score {
      assert AtLeastAsGood(maximizing, r.score, ChildScore(t, 0, depth, limit, maximizing));
    }
  }

  /** The tie-break. When the value of an expanded node is the layer's
      sentinel (−∞ / +∞) no child changed the running value and the move is
      the `0` placeholder; otherwise the move is the FIRST child whose value
      equals the node's value, every earlier child being strictly worse. */
  lemma MinimaxFirstBest(t: Tree, depth: nat, limit: int, maximizing: bool)
    requires !CutOff(t, depth, limit)
    ensures var r := Minimax(t, depth, limit, maximizing);
      && (r.move == Placeholder <==> r.score == Worst(maximizing))
      && (r.score != Worst(maximizing) ==>
            exists k :: 0 <= k < |t.children|
              && ChildScore(t, k, depth, limit, maximizing) == r.score
              && r.move == Play(t.children[k].cell)
              && forall j :: 0 <= j < k ==> Better(maximizing, r.score, ChildScore(t, j, depth, limit, maximizing)))
  {
    MinimaxFoldSpec(t, 0, depth, limit, maximizing, Best(Worst(maximizing), Placeholder));
  }

  /** The clocked search times out exactly when the clock admits fewer node
      entries than the search makes, and otherwise returns the pure search's
      pair having spent one unit per node entered. */
  lemma {:induction false} MinimaxClockedAgrees(t: Tree, depth: nat, limit: int, maximizing: bool, fuel: nat)
    ensures MinimaxClocked(t, depth, limit, maximizing, fuel) ==
      if MinimaxVisits(t, depth, limit) <= fuel
      then (Ok(Minimax(t, depth, limit, maximizing)), fuel - MinimaxVisits(t, depth, limit))
      else (Timeout, 0)
    decreases t, 1
  {
    if fuel > 0 && !CutOff(t, depth, limit) {
      MinimaxClockedFoldAgrees(t, 0, depth, limit, maximizing, Best(Worst(maximizing), Placeholder), fuel - 1);
    }
  }

  lemma {:induction false} MinimaxClockedFoldAgrees(t: Tree, i: nat, depth: nat, limit: int, maximizing: bool, acc: Best, fuel: nat)
    requires i <= |t.children|
    ensures MinimaxClockedFold(t, i, depth, limit, maximizing, acc, fuel) ==
      if MinimaxFoldVisits(t, i, depth, limit) <= fuel
      then (Ok(MinimaxFold(t, i, depth, limit, maximizing, acc)), fuel - MinimaxFoldVisits(t, i, depth, limit))
      else (Timeout, 0)
    decreases t, 0, |t.children| - i
  {
    if i < |t.children| {
      var b := t.children[i];
      MinimaxClockedAgrees(b.next, depth + 1, limit, !maximizing, fuel);
      var cv := MinimaxVisits(b.next, depth + 1, limit);
      if cv <= fuel {
        MinimaxClockedFoldAgrees(t, i + 1, depth, limit, maximizing,
                                 MinimaxStep(t, i, depth, limit, maximizing, acc), fuel - cv);
      }
    }
  }
}
