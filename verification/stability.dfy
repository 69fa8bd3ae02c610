/**
 The benchmark's stability tests on top of the ring oracle
 (`chord_benchmark.py`): `is_stable`, a debounce over repeated ring
 checks, and `wait_for_stability`, which repeats `is_stable` until a
 deadline. The cluster changes between checks, so check `i` is given by
 its verdict `checks(i)`; the pauses between checks are left out.
 */
module Stability {
  import opened RingOracle
  import opened Polling

  /** The number of passing checks immediately before check `i`. */
  function Trailing(checks: nat -> Verdict, i: nat): (run: nat)
    ensures run <= i
  {
    if i == 0 then 0
    else if checks(i - 1) == Consistent then Trailing(checks, i - 1) + 1
    else 0
  }

  /** Checks `i - m` .. `i - 1` all passed. */
  ghost predicate WindowEndsAt(checks: nat -> Verdict, m: nat, i: nat)
  {
    m <= i && forall j :: i - m <= j < i ==> checks(j) == Consistent
  }

  /** The counter reaches `m` exactly where a window of `m` passing checks ends. */
  lemma {:induction false} TrailingMeansWindow(checks: nat -> Verdict, m: nat, i: nat)
    ensures Trailing(checks, i) >= m <==> WindowEndsAt(checks, m, i)
    decreases i
  {
    if i > 0 && m > 0 {
      TrailingMeansWindow(checks, m - 1, i - 1);
      if checks(i - 1) == Consistent && WindowEndsAt(checks, m - 1, i - 1) {
        assert WindowEndsAt(checks, m, i);
      }
    }
  }

  /** No check before `i` raised. */
  ghost predicate NoRaiseBefore(checks: nat -> Verdict, i: nat)
  {
    forall j :: 0 <= j < i ==> checks(j) != Raised
  }

  /**
   `is_stable`: up to `2 * m` checks; a passing check extends the run of
   passes, a failing one resets it, and the answer is true as soon as the
   run reaches `m`. An exception from a check escapes. `count` is the
   number of checks made.
   */
  method IsStable(checks: nat -> Verdict, m: nat) returns (r: Verdict, count: nat)
    ensures count <= 2 * m
    ensures count >= 1 ==> NoRaiseBefore(checks, count - 1)
    ensures r == Raised <==> count >= 1 && checks(count - 1) == Raised
    ensures r == Consistent ==> WindowEndsAt(checks, m, count)
                                && forall i :: 1 <= i < count ==> !WindowEndsAt(checks, m, i)
    ensures r == Inconsistent ==> count == 2 * m
    ensures r == Consistent <==>
              m > 0 && exists i :: m <= i <= 2 * m && WindowEndsAt(checks, m, i) && NoRaiseBefore(checks, i)
  {
    var run: nat := 0;
    var i: nat := 0;
    while i < 2 * m
      invariant i <= 2 * m
      invariant run == Trailing(checks, i)
      invariant NoRaiseBefore(checks, i)
      invariant forall j :: 1 <= j <= i ==> Trailing(checks, j) < m
      decreases 2 * m - i
    {
      match checks(i) {
        case Consistent =>
          run := run + 1;
          if run >= m {
            assert run == Trailing(checks, i + 1);
            OnWindow(checks, m, i + 1);
            return Consistent, i + 1;
          }
        case Inconsistent =>
          run := 0;
        case Raised =>
          OnRaise(checks, m, i);
          return Raised, i + 1;
      }
      i := i + 1;
    }
    if m > 0 {
      OnExhausted(checks, m);
    }
    return Inconsistent, 2 * m;
  }

  /** The run reaches `m` at `k` for the first time: `k` is the first window end, and it counts. */
  lemma OnWindow(checks: nat -> Verdict, m: nat, k: nat)
    requires 1 <= k <= 2 * m && Trailing(checks, k) >= m
    requires NoRaiseBefore(checks, k)
    requires forall j :: 1 <= j < k ==> Trailing(checks, j) < m
    ensures WindowEndsAt(checks, m, k) && m > 0
    ensures forall i :: 1 <= i < k ==> !WindowEndsAt(checks, m, i)
  {
    TrailingMeansWindow(checks, m, k);
    forall i | 1 <= i < k
      ensures !WindowEndsAt(checks, m, i)
    {
      TrailingMeansWindow(checks, m, i);
    }
  }

  /** Check `k` raised before any window closed: no window without an earlier exception exists. */
  lemma OnRaise(checks: nat -> Verdict, m: nat, k: nat)
    requires k < 2 * m && checks(k) == Raised
    requires forall j :: 1 <= j <= k ==> Trailing(checks, j) < m
    ensures !exists i :: m <= i <= 2 * m && WindowEndsAt(checks, m, i) && NoRaiseBefore(checks, i)
  {
    forall i | m <= i <= 2 * m && WindowEndsAt(checks, m, i)
      ensures !NoRaiseBefore(checks, i)
    {
      if i <= k {
        TrailingMeansWindow(checks, m, i);
      }
    }
  }

  /** All `2 * m` checks ran without a window. */
  lemma OnExhausted(checks: nat -> Verdict, m: nat)
    requires m > 0
    requires forall j :: 1 <= j <= 2 * m ==> Trailing(checks, j) < m
    ensures !exists i :: m <= i <= 2 * m && WindowEndsAt(checks, m, i)
  {
    forall i | m <= i <= 2 * m
      ensures !WindowEndsAt(checks, m, i)
    {
      TrailingMeansWindow(checks, m, i);
    }
  }

  // ----- wait_for_stability -----

  /** `(success, elapsed)` as returned, or an exception from a ring check that escapes. */
  datatype WaitResult = Finished(success: bool, elapsed: int) | Escaped

  function AsAttempt(v: Verdict): Attempt
  {
    match v
    case Consistent => Passed
    case Inconsistent => Failed
    case Raised => Threw
  }

  /**
   `wait_for_stability`: `stable(k)` is the result of the `k`-th call of
   `is_stable`, `guard(k)` the clock before it and `after(k)` the clock
   after it. On success the elapsed time is read after the call; on
   timeout the answer is `(False, timeout)` whatever the clock says.
   */
  method WaitForStability(start: int, timeout: int, guard: nat -> int, after: nat -> int, stable: nat -> Verdict)
    returns (r: WaitResult)
    requires StrictlyIncreasing(guard)
    requires start <= guard(0)
    requires forall k: nat :: guard(k) <= after(k)
    ensures r == Finished(false, timeout)
            <==> forall j: nat :: InTime(start, timeout, guard, j) ==> stable(j) == Inconsistent
    ensures r.Finished? && r.success ==> r.elapsed >= 0
    ensures r.Finished? && r.success <==>
              exists k: nat :: InTime(start, timeout, guard, k) && stable(k) == Consistent
                               && (forall j :: 0 <= j < k ==> stable(j) == Inconsistent)
                               && r == Finished(true, after(k) - start)
    ensures r.Finished? && !r.success ==> r.elapsed == timeout
  {
    var attempt := (k: nat) => AsAttempt(stable(k));
    var p := PollUntil(start, timeout, guard, attempt);
    match p
    case Succeeded(k) =>
      GuardMonotone(guard, 0, k);
      r := Finished(true, after(k) - start);
      forall j | 0 <= j < k
        ensures stable(j) == Inconsistent
      {
        assert attempt(j) == Failed;
      }
      assert stable(k) == Consistent;
    case TimedOut =>
      r := Finished(false, timeout);
      forall j: nat | InTime(start, timeout, guard, j)
        ensures stable(j) == Inconsistent
      {
        assert attempt(j) == Failed;
      }
    case Aborted(k) =>
      r := Escaped;
      assert stable(k) == Raised;
      forall k': nat | InTime(start, timeout, guard, k') && stable(k') == Consistent
        ensures exists j :: 0 <= j < k' && stable(j) != Inconsistent
      {
        assert k' != k;
        if k < k' {
          assert stable(k) != Inconsistent;
        }
      }
  }
}
