/**
 The deadline loop the benchmark scripts share: `wait_for_stability` in
 `chord_benchmark.py` and `check_network_stability` in `throughput.py`
 both read the clock, stop once `timeout` has elapsed since `start`, and
 otherwise make one attempt and sleep before reading the clock again.

 The clock is abstract: `guard(k)` is the reading taken before attempt
 `k`, and a sleep between attempts makes the readings strictly increase.
 Readings are integers (milliseconds, say); nothing below depends on the
 unit.
 */
module Polling {

  /** What one attempt yields: success, failure, or an exception that escapes the loop. */
  datatype Attempt = Passed | Failed | Threw

  /** How the loop ends: the attempt that passed, the clock running out, or the attempt that threw. */
  datatype Poll = Succeeded(at: nat) | TimedOut | Aborted(at: nat)

  /** Readings taken after one another, with a sleep in between, strictly increase. */
  ghost predicate StrictlyIncreasing(guard: nat -> int)
  {
    forall i: nat :: guard(i) < guard(i + 1)
  }

  lemma {:induction false} GuardMonotone(guard: nat -> int, i: nat, j: nat)
    requires StrictlyIncreasing(guard)
    requires i <= j
    ensures guard(i) + (j - i) <= guard(j)
    decreases j - i
  {
    if i < j {
      GuardMonotone(guard, i + 1, j);
      assert guard(i) < guard(i + 1);
    }
  }

  /** Attempt `k` is made: the clock has not run out when it is read before it. */
  predicate InTime(start: int, timeout: int, guard: nat -> int, k: nat)
  {
    guard(k) - start < timeout
  }

  /**
   `while now() - start < timeout: attempt; sleep`. The loop ends at the
   first attempt that does not fail, and times out exactly when every
   attempt made in time fails.
   */
  method PollUntil(start: int, timeout: int, guard: nat -> int, attempt: nat -> Attempt) returns (r: Poll)
    requires StrictlyIncreasing(guard)
    ensures r.Succeeded? ==> InTime(start, timeout, guard, r.at) && attempt(r.at) == Passed
    ensures r.Aborted? ==> InTime(start, timeout, guard, r.at) && attempt(r.at) == Threw
    ensures !r.TimedOut? ==> forall j :: 0 <= j < r.at ==> attempt(j) == Failed
    ensures r.TimedOut? <==> forall j: nat :: InTime(start, timeout, guard, j) ==> attempt(j) == Failed
  {
    var k: nat := 0;
    while InTime(start, timeout, guard, k)
      invariant forall j :: 0 <= j < k ==> attempt(j) == Failed
      decreases timeout - (guard(k) - start)
    {
      assert guard(k) < guard(k + 1);
      match attempt(k)
      case Passed =>
        return Succeeded(k);
      case Threw =>
        return Aborted(k);
      case Failed =>
        k := k + 1;
    }
    forall j: nat | InTime(start, timeout, guard, j)
      ensures attempt(j) == Failed
    {
      if j >= k {
        GuardMonotone(guard, k, j);
      }
    }
    return TimedOut;
  }
}
