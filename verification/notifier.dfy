/** The notifier: a fixed threshold and a flag that latches once a checked
    result exceeds it. The C++ object is modelled as an immutable record, and
    each call to `checkAndNotify` as a step function from one record to the next.
 */
module Notifier {
  import opened CppInt

  /** The two private fields of the C++ class. */
  datatype State = State(threshold: int32, notified: bool)

  /** `Notifier(thresh)`: stores the threshold; the flag starts false. */
  function Create(thresh: int32): (n: State)
    ensures n.threshold == thresh
    ensures !n.notified
  {
    State(thresh, false)
  }

  /** `checkAndNotify(result)`: raises the flag when `result` strictly exceeds
      the threshold, and otherwise leaves everything as it was. */
  function CheckAndNotify(n: State, result: int32): (n': State)
    ensures n'.threshold == n.threshold
    ensures n'.notified <==> n.notified || result > n.threshold
  {
    if result > n.threshold then n.(notified := true) else n
  }

  /** `wasNotified()`: reads the flag. */
  function WasNotified(n: State): (b: bool)
    ensures b <==> n.notified
  {
    n.notified
  }

  /** Some result of the trace strictly exceeds `threshold`. */
  ghost predicate Exceeds(threshold: int32, results: seq<int32>) {
    exists i :: 0 <= i < |results| && results[i] > threshold
  }

  /** The state after calling `checkAndNotify` on each result in turn. */
  function CheckAll(n: State, results: seq<int32>): (n': State)
    ensures n'.threshold == n.threshold
    ensures n.notified ==> n'.notified
    decreases |results|
  {
    if |results| == 0 then n else CheckAll(CheckAndNotify(n, results[0]), results[1..])
  }

  /** A result at or below the threshold changes nothing; in particular the
      comparison is strict, so a result equal to the threshold does not raise
      the flag. */
  lemma AtMostThresholdIsNoOp(n: State, result: int32)
    requires result <= n.threshold
    ensures CheckAndNotify(n, result) == n
  {
  }

  /** Checking the same result twice has the effect of checking it once. */
  lemma CheckIdempotent(n: State, result: int32)
    ensures CheckAndNotify(CheckAndNotify(n, result), result) == CheckAndNotify(n, result)
  {
  }

  /** Checking two traces one after the other is checking their concatenation. */
  lemma {:induction false} CheckAllAppend(n: State, xs: seq<int32>, ys: seq<int32>)
    ensures CheckAll(n, xs + ys) == CheckAll(CheckAll(n, xs), ys)
    decreases |xs|
  {
    if |xs| > 0 {
      assert (xs + ys)[0] == xs[0];
      assert (xs + ys)[1..] == xs[1..] + ys;
      CheckAllAppend(CheckAndNotify(n, xs[0]), xs[1..], ys);
    } else {
      assert xs + ys == ys;
    }
  }

  /** The trace invariant: after any trace, the flag is set exactly when it
      was set before or some checked result exceeded the threshold. */
  lemma {:induction false} CheckAllNotifiedIff(n: State, results: seq<int32>)
    ensures CheckAll(n, results).notified <==> n.notified || Exceeds(n.threshold, results)
    decreases |results|
  {
    if |results| > 0 {
      var n1 := CheckAndNotify(n, results[0]);
      CheckAllNotifiedIff(n1, results[1..]);
      if Exceeds(n.threshold, results[1..]) {
        var i :| 0 <= i < |results[1..]| && results[1..][i] > n.threshold;
        assert results[i + 1] > n.threshold;
      }
      if Exceeds(n.threshold, results) && !(results[0] > n.threshold) {
        var i :| 0 <= i < |results| && results[i] > n.threshold;
        assert results[1..][i - 1] > n.threshold;
      }
    }
  }

  /** For a freshly constructed notifier, `wasNotified()` after a trace holds
      exactly when some checked result exceeded the threshold. */
  lemma WasNotifiedIffExceeded(thresh: int32, results: seq<int32>)
    ensures WasNotified(CheckAll(Create(thresh), results)) <==> Exceeds(thresh, results)
  {
    CheckAllNotifiedIff(Create(thresh), results);
  }

  /** Once the flag is set, no later trace clears it. */
  lemma {:induction false} Latch(n: State, xs: seq<int32>, ys: seq<int32>)
    requires CheckAll(n, xs).notified
    ensures CheckAll(n, xs + ys).notified
  {
    CheckAllAppend(n, xs, ys);
  }
}
