/** The turn clock. `time_left()` is read once at every node entry, and the
    search raises `Timeout` at the first reading below the player's
    `TIMER_THRESHOLD`. The clock is given here as the finite sequence of the
    readings the checks would see; past its end the turn is over. */
module Clock {

  /** The number of node entries the clock admits: the length of the longest
      prefix of readings that pass the check. The first failing check ends
      the whole search, so later readings never matter. */
  function Budget(readings: seq<int>, threshold: int): (n: nat)
    ensures n <= |readings|
    ensures forall k :: 0 <= k < n ==> readings[k] >= threshold
    ensures n < |readings| ==> readings[n] < threshold
  {
    if |readings| == 0 || readings[0] < threshold then 0
    else 1 + Budget(readings[1..], threshold)
  }

  /** The clock admits no more than it is given, and readings further on
      cannot buy time once one has failed. */
  lemma {:induction false} BudgetIgnoresLaterReadings(readings: seq<int>, later: seq<int>, threshold: int)
    requires Budget(readings, threshold) < |readings|
    ensures Budget(readings + later, threshold) == Budget(readings, threshold)
  {
    if readings[0] >= threshold {
      assert (readings + later)[1..] == readings[1..] + later;
      BudgetIgnoresLaterReadings(readings[1..], later, threshold);
    }
  }
}
