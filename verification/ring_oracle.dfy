/**
 The benchmark's ring-consistency oracle (`NetworkStabilityChecker` in
 `chord_benchmark.py`). The cluster is a snapshot: which addresses answer
 a ping, what `/node-info` returns for each address, and whether Python's
 `int` accepts a port text. HTTP failures are already folded into the
 snapshot: a failed info request is an empty answer.
 */
module RingOracle {
  import opened Base
  import opened Text

  /**
   The parsed `/node-info` body: the `successor` and `predecessor` keys,
   `None` when the key is absent or null.
   */
  datatype NodeInfo = NodeInfo(successor: Option<string>, predecessor: Option<string>)

  /** What the oracle can observe of the cluster. */
  datatype Cluster = Cluster(
    ping: string -> bool,
    nodeInfo: string -> Option<NodeInfo>,
    portParses: string -> bool)

  /**
   `ChordNode(address)` succeeds: the address splits on ':' into exactly
   two pieces and the second is an integer literal for Python's `int`.
   */
  predicate AddressParses(c: Cluster, a: string)
  {
    var parts := Pieces(a, ':');
    |parts| == 2 && c.portParses(parts[1])
  }

  /** The outcome of visiting one address on the walk. */
  datatype Step = Raise | Dead | To(next: string)

  /**
   One visit: building the wrapper raises on a malformed address; an
   empty info, a missing or null successor, or an empty successor string
   ends the walk; otherwise the walk moves to the successor.
   */
  function StepAt(c: Cluster, a: string): Step
  {
    if !AddressParses(c, a) then Raise
    else match c.nodeInfo(a)
      case None => Dead
      case Some(info) =>
        match info.successor
        case None => Dead
        case Some(succ) => if succ == "" then Dead else To(succ)
  }

  /**
   The cluster as the walk sees it: what a visit of each address yields.
   The walk and its meaning below are stated for any such observation.
   */
  function Observe(c: Cluster): string -> Step
  {
    a => StepAt(c, a)
  }

  /** The successor the walk moves to from `a`, if it moves on. */
  function Next(step: string -> Step, a: string): Option<string>
  {
    match step(a)
    case To(b) => Some(b)
    case _ => None
  }

  /** One step from a position of the walk; an undefined position stays undefined. */
  function Advance(step: string -> Step, at: Option<string>): Option<string>
  {
    match at
    case None => None
    case Some(a) => Next(step, a)
  }

  /** The address reached after `k` successor steps from `start`, if every step is defined. */
  function Path(step: string -> Step, start: string, k: nat): Option<string>
  {
    if k == 0 then Some(start)
    else Advance(step, Path(step, start, k - 1))
  }

  /** After `k >= 1` steps the walk is back at `start`. */
  predicate Returns(step: string -> Step, start: string, k: nat)
  {
    k >= 1 && Path(step, start, k) == Some(start)
  }

  /** `t` is the first return: the successor cycle through `start` has length `t`. */
  ghost predicate FirstReturn(step: string -> Step, start: string, t: nat)
  {
    Returns(step, start, t) && forall j :: 1 <= j < t ==> !Returns(step, start, j)
  }

  /** The walk is defined up to address `l`, and the visit of that address does not move on. */
  predicate StopsAt(step: string -> Step, start: string, l: nat)
  {
    Path(step, start, l).Some? && !step(Path(step, start, l).value).To?
  }

  /** The three ways the oracle can end: true, false, or an exception. */
  datatype Verdict = Consistent | Inconsistent | Raised

  /**
   The oracle's meaning. When the successor cycle through `start` closes
   within `e` steps, the answer is whether it has exactly `e` members.
   Otherwise the walk either stops within the first `e + 1` visits (an
   exception for a malformed address, false for a dead end) or runs past
   `e` visits without closing (false).
   */
  ghost function RingVerdict(step: string -> Step, start: string, e: nat): Verdict
  {
    if exists t :: 1 <= t <= e && FirstReturn(step, start, t) then
      (if FirstReturn(step, start, e) then Consistent else Inconsistent)
    else if exists l: nat :: l <= e && StopsAt(step, start, l) && step(Path(step, start, l).value) == Raise then
      Raised
    else Inconsistent
  }

  // ----- facts about the walk -----

  lemma {:induction false} PathPrefix(step: string -> Step, start: string, i: nat, k: nat)
    requires i <= k && Path(step, start, k).Some?
    ensures Path(step, start, i).Some?
    decreases k - i
  {
    if i < k {
      PathPrefix(step, start, i + 1, k);
    }
  }

  /** The walk is deterministic: equal positions stay equal the same number of steps later. */
  lemma {:induction false} PathShift(step: string -> Step, start: string, i: nat, j: nat, s: nat)
    requires Path(step, start, i) == Path(step, start, j)
    ensures Path(step, start, i + s) == Path(step, start, j + s)
    decreases s
  {
    if s > 0 {
      PathShift(step, start, i, j, s - 1);
      assert Path(step, start, i + s) == Advance(step, Path(step, start, i + s - 1));
      assert Path(step, start, j + s) == Advance(step, Path(step, start, j + s - 1));
    }
  }

  /** Before its first return the walk visits pairwise distinct addresses. */
  lemma FirstReturnIsSimple(step: string -> Step, start: string, t: nat, i: nat, j: nat)
    requires FirstReturn(step, start, t)
    requires i < j < t
    ensures Path(step, start, i) != Path(step, start, j)
  {
    if Path(step, start, i) == Path(step, start, j) {
      PathShift(step, start, i, j, t - j);
      assert Returns(step, start, i + t - j);
      assert false;
    }
  }

  /** A walk that stops at `l` is undefined after it, so it cannot return later. */
  lemma {:induction false} NothingAfterStop(step: string -> Step, start: string, l: nat, k: nat)
    requires StopsAt(step, start, l) && l < k
    ensures Path(step, start, k) == None
    decreases k - l
  {
    if k > l + 1 {
      NothingAfterStop(step, start, l, k - 1);
    }
  }

  // ----- the oracle -----

  /** The addresses visited by the first `k` iterations of the walk. */
  function Visited(step: string -> Step, start: string, k: nat): set<string>
  {
    if k == 0 then {}
    else Visited(step, start, k - 1) + (match Path(step, start, k - 1) case Some(a) => {a} case None => {})
  }

  /** Every address the walk reached before iteration `k` is in the visited set. */
  lemma {:induction false} VisitedContains(step: string -> Step, start: string, j: nat, k: nat)
    requires j < k && Path(step, start, j).Some?
    ensures Path(step, start, j).value in Visited(step, start, k)
    decreases k
  {
    if j < k - 1 {
      VisitedContains(step, start, j, k - 1);
    }
  }

  /** Every visited address was reached at some iteration before `k`. */
  lemma {:induction false} VisitedWitness(step: string -> Step, start: string, a: string, k: nat) returns (j: nat)
    requires a in Visited(step, start, k)
    ensures j < k && Path(step, start, j) == Some(a)
    decreases k
  {
    if a in Visited(step, start, k - 1) {
      j := VisitedWitness(step, start, a, k - 1);
    } else {
      j := k - 1;
    }
  }

  lemma {:induction false} VisitedBound(step: string -> Step, start: string, k: nat)
    ensures |Visited(step, start, k)| <= k
    decreases k
  {
    if k > 0 {
      VisitedBound(step, start, k - 1);
    }
  }

  /** Up to the first return, every iteration adds a new address. */
  lemma {:induction false} VisitedOnFirstReturn(step: string -> Step, start: string, t: nat, k: nat)
    requires FirstReturn(step, start, t) && k <= t
    ensures |Visited(step, start, k)| == k
    decreases k
  {
    if k > 0 {
      VisitedOnFirstReturn(step, start, t, k - 1);
      PathPrefix(step, start, k - 1, t);
      var a := Path(step, start, k - 1).value;
      assert Visited(step, start, k) == Visited(step, start, k - 1) + {a};
      if a in Visited(step, start, k - 1) {
        var j := VisitedWitness(step, start, a, k - 1);
        FirstReturnIsSimple(step, start, t, j, k - 1);
      }
    }
  }

  /** No return to `start` at any of the steps 1 .. k-1. */
  predicate NoReturnBefore(step: string -> Step, start: string, k: nat)
    decreases k
  {
    k <= 1 || (NoReturnBefore(step, start, k - 1) && !Returns(step, start, k - 1))
  }

  lemma {:induction false} NoReturnBeforeMeans(step: string -> Step, start: string, k: nat)
    ensures NoReturnBefore(step, start, k) <==> forall j :: 1 <= j < k ==> !Returns(step, start, j)
    decreases k
  {
    if k > 1 {
      NoReturnBeforeMeans(step, start, k - 1);
    }
  }

  /**
   The walk of `_check_ring_consistency` from `start`. The result agrees
   with `RingVerdict`; `visits` counts the loop iterations that visited an
   address, never more than `e + 1`, and exactly `e` when the ring is
   accepted.
   */
  method WalkRing(step: string -> Step, start: string, e: nat) returns (v: Verdict, visits: nat)
    ensures v == RingVerdict(step, start, e)
    ensures visits <= e + 1
    ensures v == Consistent ==> visits == e
  {
    var visited: set<string> := {};
    var cur := start;
    var k: nat := 0;
    while k < e + 1
      invariant k <= e + 1
      invariant Path(step, start, k) == Some(cur)
      invariant visited == Visited(step, start, k)
      invariant NoReturnBefore(step, start, k)
      decreases e + 1 - k
    {
      if k >= 1 {
        VisitedContains(step, start, 0, k);
      }
      if cur in visited && cur == start {
        OnReturn(step, start, e, k);
        return (if |visited| == e && cur == start then Consistent else Inconsistent), k;
      }
      assert !Returns(step, start, k);
      visited := visited + {cur};
      match step(cur)
      case Raise =>
        OnStop(step, start, e, k);
        return Raised, k + 1;
      case Dead =>
        OnStop(step, start, e, k);
        return Inconsistent, k + 1;
      case To(next) =>
        WalkAdvance(step, start, k, cur, next);
        cur := next;
        k := k + 1;
        assert Path(step, start, k) == Some(cur) && visited == Visited(step, start, k);
        if |visited| > e {
          VisitedBound(step, start, k);
          assert k == e + 1;
          OnOverflow(step, start, e);
          return Inconsistent, k;
        }
    }
    OnOverflow(step, start, e);
    if cur == start {
      OnLateReturn(step, start, e);
    }
    return (if |visited| == e && cur == start then Consistent else Inconsistent), e + 1;
  }

  /** The loop breaks at iteration `k`: the first return, judged by its length. */
  lemma OnReturn(step: string -> Step, start: string, e: nat, k: nat)
    requires 1 <= k <= e && NoReturnBefore(step, start, k) && Returns(step, start, k)
    ensures |Visited(step, start, k)| == k
    ensures RingVerdict(step, start, e) == if k == e then Consistent else Inconsistent
  {
    NoReturnBeforeMeans(step, start, k);
    assert FirstReturn(step, start, k);
    VisitedOnFirstReturn(step, start, k, k);
    RingVerdictOnReturn(step, start, e, k);
  }

  /** The visit at iteration `l` does not move on. */
  lemma OnStop(step: string -> Step, start: string, e: nat, l: nat)
    requires l <= e && Path(step, start, l).Some? && !step(Path(step, start, l).value).To?
    requires NoReturnBefore(step, start, l) && !Returns(step, start, l)
    ensures RingVerdict(step, start, e) == if step(Path(step, start, l).value) == Raise then Raised else Inconsistent
  {
    NoReturnBeforeMeans(step, start, l);
    RingVerdictOnStop(step, start, e, l);
  }

  /** All `e + 1` iterations ran without a return. */
  lemma OnOverflow(step: string -> Step, start: string, e: nat)
    requires Path(step, start, e + 1).Some? && NoReturnBefore(step, start, e + 1)
    ensures RingVerdict(step, start, e) == Inconsistent
  {
    NoReturnBeforeMeans(step, start, e + 1);
    RingVerdictOnOverflow(step, start, e);
  }

  /** A first return after `e + 1` steps means `e + 1` distinct visits. */
  lemma OnLateReturn(step: string -> Step, start: string, e: nat)
    requires NoReturnBefore(step, start, e + 1) && Returns(step, start, e + 1)
    ensures |Visited(step, start, e + 1)| == e + 1
  {
    NoReturnBeforeMeans(step, start, e + 1);
    assert FirstReturn(step, start, e + 1);
    VisitedOnFirstReturn(step, start, e + 1, e + 1);
  }

  /** One completed iteration: the walk moves on and the visited set grows by the current address. */
  lemma WalkAdvance(step: string -> Step, start: string, k: nat, cur: string, next: string)
    requires Path(step, start, k) == Some(cur) && step(cur) == To(next)
    requires NoReturnBefore(step, start, k) && !Returns(step, start, k)
    ensures Path(step, start, k + 1) == Some(next)
    ensures Visited(step, start, k + 1) == Visited(step, start, k) + {cur}
    ensures NoReturnBefore(step, start, k + 1)
  {
  }

  lemma RingVerdictOnReturn(step: string -> Step, start: string, e: nat, k: nat)
    requires 1 <= k <= e && FirstReturn(step, start, k)
    ensures RingVerdict(step, start, e) == if k == e then Consistent else Inconsistent
  {
    assert Returns(step, start, k);
  }

  lemma RingVerdictOnStop(step: string -> Step, start: string, e: nat, l: nat)
    requires l <= e && StopsAt(step, start, l)
    requires forall j :: 1 <= j <= l ==> !Returns(step, start, j)
    ensures RingVerdict(step, start, e) == if step(Path(step, start, l).value) == Raise then Raised else Inconsistent
  {
    forall t: nat | l < t
      ensures !Returns(step, start, t)
    {
      NothingAfterStop(step, start, l, t);
    }
    forall l2: nat | l2 <= e && StopsAt(step, start, l2)
      ensures l2 == l
    {
      if l2 < l {
        NothingAfterStop(step, start, l2, l);
      } else if l < l2 {
        NothingAfterStop(step, start, l, l2);
      }
    }
  }

  lemma RingVerdictOnOverflow(step: string -> Step, start: string, e: nat)
    requires Path(step, start, e + 1).Some?
    requires forall j :: 1 <= j <= e ==> !Returns(step, start, j)
    ensures RingVerdict(step, start, e) == Inconsistent
  {
    forall l: nat | l <= e && StopsAt(step, start, l)
      ensures false
    {
      NothingAfterStop(step, start, l, e + 1);
    }
  }

  /** `for node in nodes: if node.ping()`: the first address in list order that answers. */
  function FirstResponsive(c: Cluster, nodes: seq<string>): (r: Option<nat>)
    ensures r.None? <==> forall i :: 0 <= i < |nodes| ==> !c.ping(nodes[i])
    ensures r.Some? ==> r.value < |nodes| && c.ping(nodes[r.value])
                        && forall i :: 0 <= i < r.value ==> !c.ping(nodes[i])
  {
    if |nodes| == 0 then None
    else if c.ping(nodes[0]) then Some(0)
    else match FirstResponsive(c, nodes[1..])
      case None => None
      case Some(i) => Some(i + 1)
  }

  /**
   `_check_ring_consistency`: false when no listed node answers a ping;
   otherwise the walk from the first one that does.
   */
  method CheckRingConsistency(c: Cluster, nodes: seq<string>, e: nat) returns (v: Verdict, visits: nat)
    ensures FirstResponsive(c, nodes).None? ==> v == Inconsistent && visits == 0
    ensures FirstResponsive(c, nodes).Some? ==> v == RingVerdict(Observe(c), nodes[FirstResponsive(c, nodes).value], e)
    ensures visits <= e + 1
  {
    match FirstResponsive(c, nodes)
    case None =>
      return Inconsistent, 0;
    case Some(i) =>
      v, visits := WalkRing(Observe(c), nodes[i], e);
  }

  // ----- consequences -----

  /** An expected size of zero is never confirmed: a ring needs at least one step to close. */
  lemma EmptyRingNeverConsistent(step: string -> Step, start: string)
    ensures RingVerdict(step, start, 0) != Consistent
  {
  }

  /** A single node that names itself as successor is a consistent ring of one. */
  lemma SelfLoopIsRingOfOne(step: string -> Step, a: string)
    requires step(a) == To(a)
    ensures RingVerdict(step, a, 1) == Consistent
  {
    assert FirstReturn(step, a, 1);
  }

  /** The member after position `i` of a ring, wrapping to the first. */
  function RingNext(ring: seq<string>, i: nat): string
    requires i < |ring|
  {
    if i + 1 < |ring| then ring[i + 1] else ring[0]
  }

  /** Along a ring whose members each name the next as successor, the walk visits them in order. */
  lemma {:induction false} RingPath(step: string -> Step, ring: seq<string>, k: nat)
    requires |ring| >= 1
    requires forall i :: 0 <= i < |ring| ==> step(ring[i]) == To(RingNext(ring, i))
    requires k <= |ring|
    ensures Path(step, ring[0], k) == Some(if k < |ring| then ring[k] else ring[0])
    decreases k
  {
    if k > 0 {
      var i := k - 1;
      RingPath(step, ring, i);
      assert Path(step, ring[0], i) == Some(ring[i]);
      assert Next(step, ring[i]) == Some(RingNext(ring, i));
      assert Path(step, ring[0], k) == Advance(step, Path(step, ring[0], i));
    }
  }

  /**
   A ring of `n` distinct addresses, each naming the next as successor and
   the last naming the first, is accepted with expected size `n`, and
   rejected with any other expected size.
   */
  lemma PerfectRingIsConsistent(step: string -> Step, ring: seq<string>, e: nat)
    requires |ring| >= 1
    requires forall i, j :: 0 <= i < j < |ring| ==> ring[i] != ring[j]
    requires forall i :: 0 <= i < |ring| ==> step(ring[i]) == To(RingNext(ring, i))
    ensures RingVerdict(step, ring[0], e) == (if e == |ring| then Consistent else Inconsistent)
  {
    var n := |ring|;
    RingPath(step, ring, n);
    forall j | 1 <= j < n
      ensures !Returns(step, ring[0], j)
    {
      RingPath(step, ring, j);
    }
    assert FirstReturn(step, ring[0], n);
    if e >= n {
      RingVerdictOnReturn(step, ring[0], e, n);
    } else {
      forall l: nat | l <= e
        ensures !StopsAt(step, ring[0], l)
      {
        RingPath(step, ring, l);
        assert step(ring[l]) == To(RingNext(ring, l));
      }
    }
  }

  /**
   The oracle never checks that the ring it walks is made of the listed
   nodes: a list holding one node whose successor chain runs through an
   unlisted address is accepted as a ring of two.
   */
  lemma OutsiderRingAccepted()
    ensures var c := Cluster(
              _ => true,
              a => if a == "a:1" then Some(NodeInfo(Some("b:2"), None))
                   else if a == "b:2" then Some(NodeInfo(Some("a:1"), None))
                   else None,
              _ => true);
            && FirstResponsive(c, ["a:1"]) == Some(0)
            && RingVerdict(Observe(c), "a:1", 2) == Consistent
  {
    var c := Cluster(
      _ => true,
      a => if a == "a:1" then Some(NodeInfo(Some("b:2"), None))
           else if a == "b:2" then Some(NodeInfo(Some("a:1"), None))
           else None,
      _ => true);
    var ring := ["a:1", "b:2"];
    StepOnColonAddress(c, "a", "1", "b:2");
    StepOnColonAddress(c, "b", "2", "a:1");
    var step := Observe(c);
    assert step(ring[0]) == To(RingNext(ring, 0));
    assert step(ring[1]) == To(RingNext(ring, 1));
    PerfectRingIsConsistent(step, ring, 2);
  }

  /** A `host:port` address with a parsable port and a non-empty successor moves the walk on. */
  lemma StepOnColonAddress(c: Cluster, host: string, port: string, succ: string)
    requires ':' !in host && ':' !in port && c.portParses(port)
    requires succ != "" && c.nodeInfo(host + ":" + port).Some?
    requires c.nodeInfo(host + ":" + port).value.successor == Some(succ)
    ensures StepAt(c, host + ":" + port) == To(succ)
  {
    ColonSplits(host, port);
  }

  /** A host and a port text without ':' split back into the two pieces. */
  lemma ColonSplits(host: string, port: string)
    requires ':' !in host && ':' !in port
    ensures Split(host + ":" + port, ':') == [host, port]
  {
    assert JoinWith([host, port], ':') == host + ":" + port by {
      assert [host, port][..1] == [host];
    }
    SplitJoin([host, port], ':');
  }
}
