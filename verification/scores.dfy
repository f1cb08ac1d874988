/** Scores of the search: the heuristic's real values, extended with the two
    infinities that stand for a forced loss (−∞) and a forced win (+∞) of the
    searching player. Integers stand in for the heuristic's floats. */
module Scores {

  datatype Score = NegInf | Fin(value: int) | PosInf

  /** The total order on extended scores. */
  predicate Le(a: Score, b: Score) {
    match a
    case NegInf => true
    case Fin(x) => b.PosInf? || (b.Fin? && x <= b.value)
    case PosInf => b.PosInf?
  }

  predicate Lt(a: Score, b: Score) {
    !Le(b, a)
  }

  /* Layers. A maximizing layer prefers larger scores, a minimizing layer
     smaller ones; the helpers below let one definition serve both. */

  /** `a` is at least as good as `b` for the player of the layer. */
  predicate AtLeastAsGood(maximizing: bool, a: Score, b: Score) {
    if maximizing then Le(b, a) else Le(a, b)
  }

  /** `a` is strictly better than `b` for the player of the layer. */
  predicate Better(maximizing: bool, a: Score, b: Score) {
    !AtLeastAsGood(maximizing, b, a)
  }

  /** The value a plain minimax layer starts from: −∞ on a maximizing layer,
      +∞ on a minimizing one. */
  function Worst(maximizing: bool): (w: Score)
    ensures forall s :: AtLeastAsGood(maximizing, s, w)
    ensures forall s :: AtLeastAsGood(maximizing, w, s) ==> s == w
  {
    if maximizing then NegInf else PosInf
  }

  /** Python's `max(running, candidate)` on a maximizing layer and
      `min(running, candidate)` on a minimizing one: the candidate replaces
      the running value only when it is strictly better. */
  function Pick(maximizing: bool, running: Score, candidate: Score): (r: Score)
    ensures AtLeastAsGood(maximizing, r, running)
    ensures AtLeastAsGood(maximizing, r, candidate)
    ensures r == running || r == candidate
  {
    if Better(maximizing, candidate, running) then candidate else running
  }

  /** `s` forced into the interval [lo, hi]. */
  function Clamp(lo: Score, hi: Score, s: Score): (r: Score)
    requires Le(lo, hi)
    ensures Le(lo, r) && Le(r, hi)
    ensures Le(lo, s) && Le(s, hi) ==> r == s
    ensures Le(s, lo) ==> r == lo
    ensures Le(hi, s) ==> r == hi
  {
    if Lt(s, lo) then lo else if Lt(hi, s) then hi else s
  }
}
