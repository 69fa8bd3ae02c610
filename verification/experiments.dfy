/**
 Bookkeeping of the benchmark's three experiments (`ChordBenchmark` in
 `chord_benchmark.py`): which sizes are tried, which nodes leave or
 crash, the one `BenchmarkResult` each repetition appends, and the counts
 the summary and the crash-tolerance plot group them by. The HTTP calls,
 the random choices and the waits are inputs; durations are integers
 (milliseconds, say) and the statistics over them are left out.
 */
module Experiments {
  import opened Base
  import Decimal
  import opened Stability

  datatype Experiment = Growth | Shrink | Crash

  /** The `experiment` string of a record. */
  function Name(e: Experiment): (s: string)
    ensures s == "growth" <==> e == Growth
    ensures s == "shrink" <==> e == Shrink
    ensures s == "crash" <==> e == Crash
  {
    match e
    case Growth => "growth"
    case Shrink => "shrink"
    case Crash => "crash"
  }

  /** `BenchmarkResult`: one row of the benchmark's output. */
  datatype BenchmarkResult = BenchmarkResult(
    experiment: Experiment,
    networkSize: nat,
    targetSize: nat,
    duration: int,
    success: bool,
    details: string)

  /** The duration recorded when a run fails before anything is measured. */
  const SETUP_FAILED: int := -1

  const NOT_ALIVE := "Not all nodes alive"
  const TIMEOUT := "Timeout waiting for stability"
  const NOT_STABLE := "Initial network didn't stabilize"

  /** What `wait_for_stability` guarantees: a success never reports a negative time. */
  predicate WellFormedWait(w: WaitResult)
  {
    w.Finished? && w.success ==> w.elapsed >= 0
  }

  /**
   The shape every appended record has: a success carries a measured,
   non-negative duration and no details; a failure always says why; a
   setup failure is never a success.
   */
  predicate Sound(r: BenchmarkResult)
  {
    && (r.success ==> r.duration >= 0 && r.details == "")
    && (!r.success ==> r.details != "")
    && (r.duration == SETUP_FAILED ==> !r.success)
  }

  // ----- one repetition -----

  /**
   One repetition of `experiment_network_growth` for `size` nodes of which
   `alive` answer a ping, `wait` being the outcome of the wait that
   follows when all are alive. `None`: an exception ended the benchmark
   and nothing is appended.
   */
  function GrowthRecord(size: nat, alive: nat, wait: WaitResult): (r: Option<BenchmarkResult>)
    ensures r.None? <==> alive == size && wait.Escaped?
    ensures r.Some? ==> r.value.experiment == Growth && r.value.networkSize == size && r.value.targetSize == size
    ensures r.Some? ==> (r.value.success <==> alive == size && wait.Finished? && wait.success)
    ensures r.Some? && alive != size ==> r.value.duration == SETUP_FAILED && r.value.details == NOT_ALIVE
    ensures r.Some? && alive == size ==> r.value.duration == wait.elapsed
    ensures r.Some? && WellFormedWait(wait) ==> Sound(r.value)
  {
    if alive != size then Some(BenchmarkResult(Growth, size, size, SETUP_FAILED, false, NOT_ALIVE))
    else match wait
      case Escaped => None
      case Finished(true, elapsed) => Some(BenchmarkResult(Growth, size, size, elapsed, true, ""))
      case Finished(false, elapsed) => Some(BenchmarkResult(Growth, size, size, elapsed, false, TIMEOUT))
  }

  /**
   One repetition of `experiment_network_shrinking` from `start` to `end`
   nodes: `initial` is the wait for the full network, `final` the wait
   after the leaves, which only happens when the first succeeded.
   */
  function ShrinkRecord(start: nat, end: nat, initial: WaitResult, final: WaitResult): (r: Option<BenchmarkResult>)
    ensures r.None? <==> initial.Escaped? || (initial.Finished? && initial.success && final.Escaped?)
    ensures r.Some? ==> r.value.experiment == Shrink && r.value.networkSize == start && r.value.targetSize == end
    ensures r.Some? ==> (r.value.success <==> initial.success && final.Finished? && final.success)
    ensures r.Some? && !initial.success ==> r.value.duration == SETUP_FAILED && r.value.details == NOT_STABLE
    ensures r.Some? && initial.success ==> r.value.duration == final.elapsed
    ensures r.Some? && WellFormedWait(final) ==> Sound(r.value)
  {
    match initial
    case Escaped => None
    case Finished(false, _) => Some(BenchmarkResult(Shrink, start, end, SETUP_FAILED, false, NOT_STABLE))
    case Finished(true, _) =>
      match final
      case Escaped => None
      case Finished(true, elapsed) => Some(BenchmarkResult(Shrink, start, end, elapsed, true, ""))
      case Finished(false, elapsed) => Some(BenchmarkResult(Shrink, start, end, elapsed, false, TIMEOUT))
  }

  /** The crash experiment always starts from this many nodes. */
  const NETWORK_SIZE: nat := 32

  /** The fixed text around the burst in the crash experiment's failure detail. */
  const CRASH_PREFIX := "Network couldn't tolerate "
  const CRASH_SUFFIX := " crashes"

  /** `f"Network couldn't tolerate {burst_size} crashes"` */
  function CrashDetails(burst: nat): (s: string)
    ensures |s| > |CRASH_PREFIX| + |CRASH_SUFFIX|
    ensures s[..|CRASH_PREFIX|] == CRASH_PREFIX && s[|s| - |CRASH_SUFFIX|..] == CRASH_SUFFIX
    ensures var d := s[|CRASH_PREFIX|..|s| - |CRASH_SUFFIX|];
            (forall i :: 0 <= i < |d| ==> Decimal.IsDigit(d[i])) && Decimal.DigitsValue(d) == burst
  {
    var d := Decimal.NatToDecimal(burst);
    var s := CRASH_PREFIX + d + CRASH_SUFFIX;
    assert s[|CRASH_PREFIX|..|s| - |CRASH_SUFFIX|] == d;
    s
  }

  /** The failure detail names its burst: different bursts give different texts. */
  lemma CrashDetailsNameTheBurst(a: nat, b: nat)
    ensures CrashDetails(a) == CrashDetails(b) <==> a == b
  {
    if CrashDetails(a) == CrashDetails(b) {
      var s := CrashDetails(a);
      assert Decimal.DigitsValue(s[|CRASH_PREFIX|..|s| - |CRASH_SUFFIX|]) == a;
    }
  }

  /** One repetition of `experiment_crash_tolerance` with `burst` simultaneous crashes. */
  function CrashRecord(burst: nat, initial: WaitResult, final: WaitResult): (r: Option<BenchmarkResult>)
    requires burst <= NETWORK_SIZE
    ensures r.None? <==> initial.Escaped? || (initial.Finished? && initial.success && final.Escaped?)
    ensures r.Some? ==> r.value.experiment == Crash && r.value.networkSize == NETWORK_SIZE
                        && r.value.targetSize + burst == NETWORK_SIZE
    ensures r.Some? ==> (r.value.success <==> initial.success && final.Finished? && final.success)
    ensures r.Some? && !initial.success ==> r.value.duration == SETUP_FAILED && r.value.details == NOT_STABLE
    ensures r.Some? && initial.success && !r.value.success ==> r.value.details == CrashDetails(burst)
    ensures r.Some? && WellFormedWait(final) ==> Sound(r.value)
  {
    var target := NETWORK_SIZE - burst;
    match initial
    case Escaped => None
    case Finished(false, _) => Some(BenchmarkResult(Crash, NETWORK_SIZE, target, SETUP_FAILED, false, NOT_STABLE))
    case Finished(true, _) =>
      match final
      case Escaped => None
      case Finished(success, elapsed) =>
        Some(BenchmarkResult(Crash, NETWORK_SIZE, target, elapsed, success, if success then "" else CrashDetails(burst)))
  }

  /** `r.network_size - r.target_size`: the key the crash plot groups by. */
  function BurstOf(r: BenchmarkResult): int
  {
    r.networkSize - r.targetSize
  }

  /** Every crash record, setup failure or not, is grouped under the burst it was run with. */
  lemma BurstOfCrashRecord(burst: nat, initial: WaitResult, final: WaitResult)
    requires burst <= NETWORK_SIZE
    requires CrashRecord(burst, initial, final).Some?
    ensures BurstOf(CrashRecord(burst, initial, final).value) == burst
  {
  }

  // ----- sizes -----

  const GROWTH_SIZES: seq<nat> := [2, 4, 8, 16, 32]

  /** The sizes of `sizes` that do not exceed the pool, in order. */
  function Fitting(sizes: seq<nat>, pool: nat): (r: seq<nat>)
    ensures forall x :: x in r <==> x in sizes && x <= pool
    ensures |r| <= |sizes|
  {
    if |sizes| == 0 then []
    else if sizes[0] <= pool then [sizes[0]] + Fitting(sizes[1..], pool)
    else Fitting(sizes[1..], pool)
  }

  /** `experiment_network_growth` skips the sizes larger than the pool of nodes. */
  function GrowthSizes(pool: nat): (r: seq<nat>)
    ensures forall x :: x in r <==> x in GROWTH_SIZES && x <= pool
  {
    Fitting(GROWTH_SIZES, pool)
  }

  /** In ascending order, the sizes tried are the smallest ones: a prefix of the list. */
  lemma {:induction false} FittingAscendingIsPrefix(sizes: seq<nat>, pool: nat)
    requires forall i, j :: 0 <= i < j < |sizes| ==> sizes[i] < sizes[j]
    ensures Fitting(sizes, pool) == sizes[..|Fitting(sizes, pool)|]
    decreases |sizes|
  {
    if |sizes| > 0 {
      FittingAscendingIsPrefix(sizes[1..], pool);
      if sizes[0] > pool {
        FittingNone(sizes[1..], pool);
      }
    }
  }

  lemma FittingNone(sizes: seq<nat>, pool: nat)
    requires forall i :: 0 <= i < |sizes| ==> sizes[i] > pool
    ensures Fitting(sizes, pool) == []
  {
    if |Fitting(sizes, pool)| > 0 {
      assert Fitting(sizes, pool)[0] in Fitting(sizes, pool);
    }
  }

  lemma GrowthSizesArePrefix(pool: nat)
    ensures GrowthSizes(pool) == GROWTH_SIZES[..|GrowthSizes(pool)|]
  {
    FittingAscendingIsPrefix(GROWTH_SIZES, pool);
  }

  /** `(start_size, end_size)` pairs of `experiment_network_shrinking`. */
  const SHRINK_CASES: seq<(nat, nat)> := [(32, 16), (16, 8), (8, 4), (4, 2)]

  /**
   The cases whose start size fits the pool, in order: the case list runs
   from the largest start down, so they are its last entries.
   */
  function ShrinkCases(pool: nat): (r: seq<(nat, nat)>)
    ensures forall c :: c in r <==> c in SHRINK_CASES && c.0 <= pool
    ensures |r| <= |SHRINK_CASES| && r == SHRINK_CASES[|SHRINK_CASES| - |r|..]
    ensures forall c :: c in r ==> c.1 < c.0 && c.0 - c.1 == c.1
  {
    ShrinkCasesDescend();
    FitDescendingIsSuffix(SHRINK_CASES, pool);
    FitCases(SHRINK_CASES, pool)
  }

  /** The shrink cases run from the largest start size down, and each halves the network. */
  lemma ShrinkCasesDescend()
    ensures forall i, j :: 0 <= i < j < |SHRINK_CASES| ==> SHRINK_CASES[i].0 >= SHRINK_CASES[j].0
    ensures forall c :: c in SHRINK_CASES ==> c.1 < c.0 && c.0 - c.1 == c.1
  {
  }

  /** From cases with descending start sizes, those that fit are the last ones. */
  lemma {:induction false} FitDescendingIsSuffix(cases: seq<(nat, nat)>, pool: nat)
    requires forall i, j :: 0 <= i < j < |cases| ==> cases[i].0 >= cases[j].0
    ensures |FitCases(cases, pool)| <= |cases|
    ensures FitCases(cases, pool) == cases[|cases| - |FitCases(cases, pool)|..]
    decreases |cases|
  {
    if |cases| > 0 {
      if cases[0].0 <= pool {
        assert forall i :: 0 <= i < |cases| ==> cases[i].0 <= pool;
      } else {
        var tail := cases[1..];
        FitDescendingIsSuffix(tail, pool);
        var r := FitCases(tail, pool);
        assert FitCases(cases, pool) == r;
        assert tail[|tail| - |r|..] == cases[|cases| - |r|..];
      }
    }
  }

  /** The cases whose start size fits the pool, in their original order. */
  function FitCases(cases: seq<(nat, nat)>, pool: nat): (r: seq<(nat, nat)>)
    ensures forall c :: c in r <==> c in cases && c.0 <= pool
    ensures |r| <= |cases|
    ensures (forall i :: 0 <= i < |cases| ==> cases[i].0 <= pool) ==> r == cases
    ensures (forall i :: 0 <= i < |cases| ==> cases[i].0 > pool) ==> r == []
  {
    if |cases| == 0 then []
    else if cases[0].0 <= pool then [cases[0]] + FitCases(cases[1..], pool)
    else FitCases(cases[1..], pool)
  }

  /**
   `all_test_nodes[:end_size]` stay and `all_test_nodes[end_size:]` leave:
   together they are the test nodes, and with distinct nodes no node both
   stays and leaves.
   */
  function KeepAndLeave(nodes: seq<string>, end: nat): (r: (seq<string>, seq<string>))
    requires end <= |nodes|
    ensures r.0 + r.1 == nodes
    ensures |r.0| == end && |r.1| == |nodes| - end
    ensures Distinct(nodes) ==> forall x :: x in r.0 ==> x !in r.1
  {
    var keep, leave := nodes[..end], nodes[end..];
    assert keep + leave == nodes;
    (keep, leave)
  }

  /** Every shrink case sends a leave to exactly `start - end` nodes, half of them. */
  lemma ShrinkLeavesHalf(pool: nat, c: (nat, nat), nodes: seq<string>)
    requires c in ShrinkCases(pool) && |nodes| == c.0
    ensures |KeepAndLeave(nodes, c.1).1| == c.0 - c.1 == c.1
  {
  }

  /** `min(16, network_size // 2)` */
  const MAX_BURST: nat := if 16 < NETWORK_SIZE / 2 then 16 else NETWORK_SIZE / 2

  /** `range(1, max_crash_burst + 1)`, or nothing when the pool is smaller than the network. */
  function CrashBursts(pool: nat): (r: seq<nat>)
    ensures pool < NETWORK_SIZE ==> r == []
    ensures pool >= NETWORK_SIZE ==> |r| == 16
    ensures forall i :: 0 <= i < |r| ==> r[i] == i + 1
  {
    if pool < NETWORK_SIZE then [] else seq(MAX_BURST, i => i + 1)
  }

  /** Every burst leaves at least half of the network standing. */
  lemma CrashTargetsAtLeastHalf(pool: nat, b: nat)
    requires b in CrashBursts(pool)
    ensures 1 <= b <= 16 && NETWORK_SIZE - b >= NETWORK_SIZE / 2
  {
  }

  /** `[n for n in all_test_nodes if n not in nodes_to_crash]` */
  function Survivors(nodes: seq<string>, crashed: set<string>): (r: seq<string>)
    ensures forall x :: x in r <==> x in nodes && x !in crashed
    ensures |r| <= |nodes|
    ensures |nodes| == 1 ==> r == (if nodes[0] in crashed then [] else nodes)
  {
    if |nodes| == 0 then []
    else if nodes[|nodes| - 1] in crashed then Survivors(nodes[..|nodes| - 1], crashed)
    else Survivors(nodes[..|nodes| - 1], crashed) + [nodes[|nodes| - 1]]
  }

  /**
   The filter keeps list order: the survivors of two lists in a row are
   the survivors of the first followed by those of the second. With the
   one-node case this fixes the survivors of every list.
   */
  lemma {:induction false} SurvivorsConcat(a: seq<string>, b: seq<string>, crashed: set<string>)
    ensures Survivors(a + b, crashed) == Survivors(a, crashed) + Survivors(b, crashed)
    decreases |b|
  {
    if |b| == 0 {
      assert a + b == a;
    } else {
      var init := b[..|b| - 1];
      assert (a + b)[..|a + b| - 1] == a + init;
      assert (a + b)[|a + b| - 1] == b[|b| - 1];
      SurvivorsConcat(a, init, crashed);
    }
  }

  /** With distinct test nodes and crashes among them, exactly `|nodes| - |crashed|` survive. */
  lemma {:induction false} SurvivorCount(nodes: seq<string>, crashed: set<string>)
    requires Distinct(nodes)
    requires forall x :: x in crashed ==> x in nodes
    ensures |Survivors(nodes, crashed)| == |nodes| - |crashed|
    decreases |nodes|
  {
    if |nodes| == 0 {
      assert crashed == {};
    } else {
      var init := nodes[..|nodes| - 1];
      var last := nodes[|nodes| - 1];
      assert Distinct(init);
      assert last !in init;
      if last in crashed {
        var rest := crashed - {last};
        SurvivorsIgnoreAbsent(init, crashed, rest);
        SurvivorCount(init, rest);
      } else {
        SurvivorCount(init, crashed);
      }
    }
  }

  /** Crashes of addresses not in the list do not change the survivors. */
  lemma {:induction false} SurvivorsIgnoreAbsent(nodes: seq<string>, a: set<string>, b: set<string>)
    requires forall x :: x in nodes ==> (x in a <==> x in b)
    ensures Survivors(nodes, a) == Survivors(nodes, b)
    decreases |nodes|
  {
    if |nodes| > 0 {
      var init := nodes[..|nodes| - 1];
      assert forall x :: x in init ==> x in nodes;
      SurvivorsIgnoreAbsent(init, a, b);
    }
  }

  /** The crash experiment's expected size is exactly the number of survivors. */
  lemma CrashExpectsTheSurvivors(nodes: seq<string>, crashed: seq<string>, burst: nat)
    requires |nodes| == NETWORK_SIZE && Distinct(nodes)
    requires |crashed| == burst && Distinct(crashed)
    requires forall i :: 0 <= i < |crashed| ==> crashed[i] in nodes
    ensures |Survivors(nodes, set x | x in crashed)| == NETWORK_SIZE - burst
  {
    DistinctCard(crashed);
    SurvivorCount(nodes, set x | x in crashed);
  }

  lemma {:induction false} DistinctCard(s: seq<string>)
    requires Distinct(s)
    ensures |set x | x in s| == |s|
    decreases |s|
  {
    if |s| > 0 {
      var init := s[..|s| - 1];
      assert Distinct(init);
      DistinctCard(init);
      assert (set x | x in s) == (set x | x in init) + {s[|s| - 1]};
      assert s[|s| - 1] !in (set x | x in init);
    }
  }

  // ----- the records of a whole experiment -----

  /**
   `for rep in range(repetitions)` for case `c`: the records of the
   repetitions in order, or `None` once one of them ends the benchmark.
   */
  function Repetitions<C>(c: C, reps: nat, rec: (C, nat) -> Option<BenchmarkResult>): (r: Option<seq<BenchmarkResult>>)
    ensures r.Some? <==> forall j :: 0 <= j < reps ==> rec(c, j).Some?
    ensures r.Some? ==> |r.value| == reps && forall j :: 0 <= j < reps ==> r.value[j] == rec(c, j).value
  {
    if reps == 0 then Some([])
    else match Repetitions(c, reps - 1, rec)
      case None => None
      case Some(front) =>
        match rec(c, reps - 1)
        case None => None
        case Some(x) => Some(front + [x])
  }

  /**
   `for case in cases: for rep in range(repetitions)`: one record per
   repetition of every case, case after case.
   */
  function RunCases<C>(cases: seq<C>, reps: nat, rec: (C, nat) -> Option<BenchmarkResult>): (r: Option<seq<BenchmarkResult>>)
    ensures r.Some? <==> forall i, j :: 0 <= i < |cases| && 0 <= j < reps ==> rec(cases[i], j).Some?
    ensures r.Some? ==> |r.value| == |cases| * reps
  {
    if |cases| == 0 then Some([])
    else
      var last := cases[|cases| - 1];
      match RunCases(cases[..|cases| - 1], reps, rec)
      case None => None
      case Some(front) =>
        match Repetitions(last, reps, rec)
        case None => None
        case Some(more) =>
          assert (|cases| - 1) * reps + reps == |cases| * reps;
          Some(front + more)
  }

  /**
   The records come case after case: record i x reps + j is repetition j
   of case i. By induction on the cases after case i.
   */
  lemma {:induction false} RunCasesInOrder<C>(cases: seq<C>, reps: nat, rec: (C, nat) -> Option<BenchmarkResult>,
                                              out: seq<BenchmarkResult>, i: nat, j: nat)
    requires RunCases(cases, reps, rec) == Some(out)
    requires i < |cases| && j < reps
    ensures i * reps + j < |out| && rec(cases[i], j) == Some(out[i * reps + j])
    decreases |cases|
  {
    var init, last := cases[..|cases| - 1], cases[|cases| - 1];
    var front := RunCases(init, reps, rec).value;
    var more := Repetitions(last, reps, rec).value;
    assert out == front + more;
    SlotAppended(i, |init|, reps, j, front, more);
    if i < |init| {
      RunCasesInOrder(init, reps, rec, front, i, j);
      assert init[i] == cases[i];
    }
  }

  /**
   Where slot i x reps + j of `front + more` comes from, when `front` holds
   n blocks of `reps` records and `more` one more block.
   */
  lemma SlotAppended<T>(i: nat, n: nat, reps: nat, j: nat, front: seq<T>, more: seq<T>)
    requires i <= n && |front| == n * reps && |more| == reps
    ensures |front + more| == (n + 1) * reps
    ensures j < reps && i < n ==> i * reps + j < |front| && (front + more)[i * reps + j] == front[i * reps + j]
    ensures j < reps && i == n ==> i * reps + j < |front + more| && (front + more)[i * reps + j] == more[j]
  {
    assert (n + 1) * reps == n * reps + reps;
    if j < reps && i < n {
      RecordBelow(i, n, reps, j);
    }
  }

  /** Repetition j of a case before case n lies before all records of case n. */
  lemma RecordBelow(i: nat, n: nat, reps: nat, j: nat)
    requires i < n && j < reps
    ensures i * reps + j < n * reps
  {
    assert (i + 1) * reps == i * reps + reps;
    assert (i + 1) * reps <= n * reps;
  }

  // ----- summary counts -----

  /** How many records satisfy `p`. */
  function CountWhere(s: seq<BenchmarkResult>, p: BenchmarkResult -> bool): (n: nat)
    ensures n <= |s|
  {
    if |s| == 0 then 0
    else CountWhere(s[..|s| - 1], p) + (if p(s[|s| - 1]) then 1 else 0)
  }

  lemma {:induction false} CountWhereConcat(a: seq<BenchmarkResult>, b: seq<BenchmarkResult>, p: BenchmarkResult -> bool)
    ensures CountWhere(a + b, p) == CountWhere(a, p) + CountWhere(b, p)
    decreases |b|
  {
    if |b| == 0 {
      assert a + b == a;
    } else {
      assert (a + b)[..|a + b| - 1] == a + b[..|b| - 1];
      CountWhereConcat(a, b[..|b| - 1], p);
    }
  }

  /** `len(exp_results)` in `print_summary`. */
  function Runs(results: seq<BenchmarkResult>, e: Experiment): nat
  {
    CountWhere(results, (r: BenchmarkResult) => r.experiment == e)
  }

  /** `len(successful)` in `print_summary`. */
  function Successes(results: seq<BenchmarkResult>, e: Experiment): nat
  {
    CountWhere(results, (r: BenchmarkResult) => r.experiment == e && r.success)
  }

  /** Every record belongs to exactly one of the three experiments. */
  lemma {:induction false} RunsPartition(results: seq<BenchmarkResult>)
    ensures Runs(results, Growth) + Runs(results, Shrink) + Runs(results, Crash) == |results|
    decreases |results|
  {
    if |results| > 0 {
      RunsPartition(results[..|results| - 1]);
    }
  }

  /** Successful runs are among the runs. */
  lemma {:induction false} SuccessesWithinRuns(results: seq<BenchmarkResult>, e: Experiment)
    ensures Successes(results, e) <= Runs(results, e)
    decreases |results|
  {
    if |results| > 0 {
      SuccessesWithinRuns(results[..|results| - 1], e);
    }
  }

  /** The crash plot's group for one burst size: every crash record with that burst. */
  function RunsWithBurst(results: seq<BenchmarkResult>, b: int): nat
  {
    CountWhere(results, (r: BenchmarkResult) => r.experiment == Crash && BurstOf(r) == b)
  }

  /** One repetition of the crash experiment for every burst, given the outcomes of its two waits. */
  function CrashRun(initial: (nat, nat) -> WaitResult, final: (nat, nat) -> WaitResult): (nat, nat) -> Option<BenchmarkResult>
  {
    (burst: nat, j: nat) =>
      if burst <= NETWORK_SIZE then CrashRecord(burst, initial(burst, j), final(burst, j)) else None
  }

  /**
   Running the crash experiment over its bursts puts exactly `reps`
   records in the group of each burst, whatever the outcomes.
   */
  lemma CrashGroupsHoldEveryRepetition(pool: nat, reps: nat, initial: (nat, nat) -> WaitResult,
                                       final: (nat, nat) -> WaitResult, b: nat)
    requires pool >= NETWORK_SIZE && 1 <= b <= 16
    requires RunCases(CrashBursts(pool), reps, CrashRun(initial, final)).Some?
    ensures RunsWithBurst(RunCases(CrashBursts(pool), reps, CrashRun(initial, final)).value, b) == reps
  {
    var rec := CrashRun(initial, final);
    var bursts := CrashBursts(pool);
    forall burst: nat, j: nat | rec(burst, j).Some?
      ensures rec(burst, j).value.experiment == Crash && BurstOf(rec(burst, j).value) == burst
    {
      BurstOfCrashRecord(burst, initial(burst, j), final(burst, j));
    }
    assert bursts[..|bursts|] == bursts;
    GroupCount(bursts, reps, rec, b, |bursts|);
  }

  /** Over the first `n` bursts, the group of `b` holds `reps` records if `b` is among them, else none. */
  lemma {:induction false} GroupCount(bursts: seq<nat>, reps: nat, rec: (nat, nat) -> Option<BenchmarkResult>, b: nat, n: nat)
    requires n <= |bursts| && forall i :: 0 <= i < |bursts| ==> bursts[i] == i + 1
    requires forall burst: nat, j: nat :: rec(burst, j).Some? ==>
               rec(burst, j).value.experiment == Crash && BurstOf(rec(burst, j).value) == burst
    requires RunCases(bursts[..n], reps, rec).Some?
    ensures RunsWithBurst(RunCases(bursts[..n], reps, rec).value, b) == if 1 <= b <= n then reps else 0
    decreases n
  {
    if n > 0 {
      var front := bursts[..n][..n - 1];
      assert front == bursts[..n - 1];
      assert bursts[..n][n - 1] == n;
      GroupCount(bursts, reps, rec, b, n - 1);
      var more := Repetitions(n, reps, rec).value;
      CountWhereConcat(RunCases(front, reps, rec).value, more, (r: BenchmarkResult) => r.experiment == Crash && BurstOf(r) == b);
      RepetitionsGroup(reps, n, rec, b);
    }
  }

  lemma {:induction false} RepetitionsGroup(reps: nat, burst: nat, rec: (nat, nat) -> Option<BenchmarkResult>, b: nat)
    requires forall j: nat :: rec(burst, j).Some? ==>
               rec(burst, j).value.experiment == Crash && BurstOf(rec(burst, j).value) == burst
    requires Repetitions(burst, reps, rec).Some?
    ensures RunsWithBurst(Repetitions(burst, reps, rec).value, b) == if b == burst then reps else 0
    decreases reps
  {
    if reps > 0 {
      RepetitionsGroup(reps - 1, burst, rec, b);
    }
  }
}
