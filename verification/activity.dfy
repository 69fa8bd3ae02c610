/**
 The node's idle timer (`activity.rs`). The monotonic clock is a
 parameter: `now` is the number of milliseconds since the timer was made.
 */
module Activity {
  import opened Base

  /** `ActivityTimer`: time of the last activity and the idle limit in seconds. */
  datatype ActivityTimer = ActivityTimer(lastMs: u64, idleLimitSecs: u64)

  /** `ActivityTimer::new`: no activity yet (last = 0), limit of the given minutes in seconds. */
  function NewTimer(idleLimitMins: u64): (t: ActivityTimer)
    requires idleLimitMins * 60 < U64_LIMIT
    ensures t.lastMs == 0
    ensures t.idleLimitSecs == idleLimitMins * 60
  {
    ActivityTimer(0, idleLimitMins * 60)
  }

  /** `touch`: records `now` as the last activity; the limit is kept. */
  function Touch(t: ActivityTimer, nowMs: u64): (r: ActivityTimer)
    ensures r.lastMs == nowMs
    ensures r.idleLimitSecs == t.idleLimitSecs
  {
    t.(lastMs := nowMs)
  }

  /** `is_idle`: at least the limit has passed since the last activity (saturating at zero). */
  predicate IsIdle(t: ActivityTimer, nowMs: u64)
  {
    SaturatingSub(nowMs, t.lastMs) >= t.idleLimitSecs * 1000
  }

  /** Right after a touch, a timer with a positive limit is not idle. */
  lemma TouchedTimerIsBusy(t: ActivityTimer, nowMs: u64)
    requires t.idleLimitSecs > 0
    ensures !IsIdle(Touch(t, nowMs), nowMs)
  {
  }

  /** Once idle, a timer stays idle as the clock advances without a touch. */
  lemma IdleIsMonotone(t: ActivityTimer, a: u64, b: u64)
    requires a <= b
    ensures IsIdle(t, a) ==> IsIdle(t, b)
  {
  }

  /**
   A clock reading before the last touch does not make the timer idle: the
   saturating subtraction yields zero, which is idle only for a zero limit.
   */
  lemma ClockBeforeTouch(t: ActivityTimer, nowMs: u64)
    requires nowMs < t.lastMs
    ensures IsIdle(t, nowMs) <==> t.idleLimitSecs == 0
  {
  }

  /** A fresh timer becomes idle exactly when the limit, in milliseconds, has elapsed since start. */
  lemma FreshTimerIdleAfterLimit(idleLimitMins: u64, nowMs: u64)
    requires idleLimitMins * 60 < U64_LIMIT
    ensures IsIdle(NewTimer(idleLimitMins), nowMs) <==> nowMs >= idleLimitMins * 60_000
  {
  }
}
