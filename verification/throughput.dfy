/**
 The helpers of the throughput script (`throughput.py`): picking the test
 nodes, the per-round stability predicate of `check_network_stability`
 and its deadline loop, the read-back check of `ThroughputTester.run_test`,
 and the call sequence of `setup_chord_ring`. Each HTTP call is an input:
 the parsed `/node-info` body (`None` for a non-200 answer or an
 exception), or whether a call was answered with 200.
 */
module Throughput {
  import opened Base
  import opened Polling
  import opened RingOracle
  import Chord
  import StorageHandler

  // ----- get_node_list -----

  /**
   `get_node_list`: a `ValueError` when more nodes are asked for than
   given; otherwise the nodes at the positions `random.sample` picked.
   */
  function GetNodeList(nodes: seq<string>, count: nat, picks: seq<nat>): (r: Result<seq<string>, string>)
    requires count <= |nodes| ==> |picks| == count
    requires forall i :: 0 <= i < |picks| ==> picks[i] < |nodes|
    requires forall i, j :: 0 <= i < j < |picks| ==> picks[i] != picks[j]
    ensures r.Err? <==> count > |nodes|
    ensures r.Err? ==> r.error == "Not enough nodes provided"
    ensures r.Ok? ==> |r.value| == count && forall x :: x in r.value ==> x in nodes
    ensures r.Ok? && Distinct(nodes) ==> Distinct(r.value)
  {
    if count > |nodes| then Err("Not enough nodes provided")
    else
      var chosen := seq(count, i requires 0 <= i < count => nodes[picks[i]]);
      assert forall x :: x in chosen ==> x in nodes by {
        forall x | x in chosen
          ensures x in nodes
        {
          var i :| 0 <= i < count && chosen[i] == x;
          assert nodes[picks[i]] == x;
        }
      }
      Ok(chosen)
  }

  // ----- check_network_stability -----

  /** One node's info passes the round: a successor, and a predecessor unless the list has one node. */
  predicate InfoPasses(info: Option<NodeInfo>, listSize: nat)
  {
    info.Some? && info.value.successor.Some? && (listSize == 1 || info.value.predecessor.Some?)
  }

  /** The round passes when every listed node's info passes. */
  ghost predicate RoundPasses(nodes: seq<string>, info: string -> Option<NodeInfo>)
  {
    forall i :: 0 <= i < |nodes| ==> InfoPasses(info(nodes[i]), |nodes|)
  }

  /**
   One round of `check_network_stability`, as written: collect the infos
   into a dict, stopping at the first missing one, then check each
   collected info for a successor and, for more than one node, a
   predecessor.
   */
  method StabilityRound(nodes: seq<string>, info: string -> Option<NodeInfo>) returns (pass: bool)
    ensures pass <==> RoundPasses(nodes, info)
  {
    var infos: map<string, NodeInfo> := map[];
    var i := 0;
    while i < |nodes|
      invariant i <= |nodes|
      invariant forall k :: 0 <= k < i ==> info(nodes[k]).Some?
      invariant forall a :: a in infos <==> exists k :: 0 <= k < i && nodes[k] == a
      invariant forall a :: a in infos ==> info(a) == Some(infos[a])
    {
      var got := info(nodes[i]);
      if got.None? {
        return false;
      }
      infos := infos[nodes[i] := got.value];
      i := i + 1;
    }
    var keys := infos.Keys;
    while keys != {}
      invariant keys <= infos.Keys
      invariant forall a :: a in infos && a !in keys ==> InfoPasses(Some(infos[a]), |nodes|)
      decreases |keys|
    {
      var a :| a in keys;
      var entry := infos[a];
      if entry.successor.None? {
        return false;
      }
      if |nodes| != 1 && entry.predecessor.None? {
        return false;
      }
      keys := keys - {a};
    }
    forall k | 0 <= k < |nodes|
      ensures InfoPasses(info(nodes[k]), |nodes|)
    {
      assert nodes[k] in infos;
    }
    return true;
  }

  /**
   `check_network_stability`: rounds until one passes or the deadline;
   `infos(k)` is what `/node-info` answers during round `k`, `guard(k)`
   the clock before it.
   */
  method CheckNetworkStability(nodes: seq<string>, start: int, timeout: int, guard: nat -> int,
                               infos: nat -> (string -> Option<NodeInfo>))
    returns (stable: bool)
    requires StrictlyIncreasing(guard)
    ensures stable <==> exists k: nat :: InTime(start, timeout, guard, k) && RoundPasses(nodes, infos(k))
  {
    var attempt := (k: nat) => if RoundPassesCompiled(nodes, infos(k)) then Passed else Failed;
    var p := PollUntil(start, timeout, guard, attempt);
    match p
    case Succeeded(k) =>
      RoundPassesCompiledIsRound(nodes, infos(k));
      return true;
    case TimedOut =>
      forall k: nat | InTime(start, timeout, guard, k)
        ensures !RoundPasses(nodes, infos(k))
      {
        assert attempt(k) == Failed;
        RoundPassesCompiledIsRound(nodes, infos(k));
      }
      return false;
    case Aborted(k) =>
      assert false;
      return false;
  }

  /** The round as a recursive check, usable inside the deadline loop's attempt function. */
  function RoundPassesCompiled(nodes: seq<string>, info: string -> Option<NodeInfo>): bool
  {
    AllPass(nodes, info, |nodes|)
  }

  function AllPass(ns: seq<string>, info: string -> Option<NodeInfo>, listSize: nat): bool
  {
    |ns| == 0 || (InfoPasses(info(ns[0]), listSize) && AllPass(ns[1..], info, listSize))
  }

  lemma {:induction false} AllPassMeans(ns: seq<string>, info: string -> Option<NodeInfo>, listSize: nat)
    ensures AllPass(ns, info, listSize) <==> forall i :: 0 <= i < |ns| ==> InfoPasses(info(ns[i]), listSize)
    decreases |ns|
  {
    if |ns| > 0 {
      AllPassMeans(ns[1..], info, listSize);
      assert forall i :: 1 <= i < |ns| ==> ns[1..][i - 1] == ns[i];
    }
  }

  lemma RoundPassesCompiledIsRound(nodes: seq<string>, info: string -> Option<NodeInfo>)
    ensures RoundPassesCompiled(nodes, info) <==> RoundPasses(nodes, info)
  {
    AllPassMeans(nodes, info, |nodes|);
  }

  /** What GET /node-info of the running node says: a successor label, and no predecessor key. */
  function ServedInfo(kn: Chord.KnownNodes): (info: NodeInfo)
    ensures info.successor == Some(Chord.ToViewmodel(kn).successor)
    ensures info.predecessor.None?
  {
    NodeInfo(Some(Chord.ToViewmodel(kn).successor), None)
  }

  /**
   The node-info body carries no `predecessor` key, so against nodes that
   serve it a round over two or more nodes never passes, while a round
   over one node does.
   */
  lemma ServedInfoRounds(nodes: seq<string>, state: string -> Chord.KnownNodes)
    ensures |nodes| >= 2 ==> !RoundPasses(nodes, a => Some(ServedInfo(state(a))))
    ensures |nodes| == 1 ==> RoundPasses(nodes, a => Some(ServedInfo(state(a))))
  {
    if |nodes| >= 2 {
      var info := a => Some(ServedInfo(state(a)));
      assert !InfoPasses(info(nodes[0]), |nodes|);
    }
  }

  // ----- run_test -----

  /**
   What `get_value` yields for one key: the decoded body of a 200 answer,
   `None` for any other status, or an exception (a transport error, or a
   body that is not UTF-8).
   */
  datatype Fetch = Value(text: string) | NotOk | FetchRaised

  /** How `run_test` ends: the operation count, or the exception that escapes it. */
  datatype TestOutcome = Completed(operations: nat) | PutRaised(at: nat) | GetRaised(at: nat) | Mismatch(at: nat)

  /**
   `run_test`: every pair is written, then each key is read back in order.
   `putOk(i)` says whether the write of pair `i` returns without an
   exception (its status is not looked at), and `fetch(i)` is what the read
   of key `i` yields. The first exception escapes; the first read that does
   not give the written value raises the mismatch; otherwise the test
   counts one put and one get per pair.
   */
  method RunTest(pairs: seq<(string, string)>, putOk: nat -> bool, fetch: nat -> Fetch) returns (r: TestOutcome)
    ensures r.Completed? <==> (forall i :: 0 <= i < |pairs| ==> putOk(i))
                              && forall i :: 0 <= i < |pairs| ==> fetch(i) == Value(pairs[i].1)
    ensures r.Completed? ==> r.operations == 2 * |pairs|
    ensures r.PutRaised? <==> exists i :: 0 <= i < |pairs| && !putOk(i)
    ensures r.PutRaised? ==> r.at < |pairs| && !putOk(r.at) && forall j :: 0 <= j < r.at ==> putOk(j)
    ensures r.GetRaised? || r.Mismatch? ==>
              && (forall i :: 0 <= i < |pairs| ==> putOk(i))
              && r.at < |pairs|
              && fetch(r.at) != Value(pairs[r.at].1)
              && forall j :: 0 <= j < r.at ==> fetch(j) == Value(pairs[j].1)
    ensures r.GetRaised? ==> fetch(r.at) == FetchRaised
    ensures r.Mismatch? ==> fetch(r.at) != FetchRaised
  {
    var i := 0;
    while i < |pairs|
      invariant i <= |pairs|
      invariant forall k :: 0 <= k < i ==> putOk(k)
    {
      if !putOk(i) {
        return PutRaised(i);
      }
      i := i + 1;
    }
    i := 0;
    while i < |pairs|
      invariant i <= |pairs|
      invariant forall k :: 0 <= k < i ==> fetch(k) == Value(pairs[k].1)
    {
      match fetch(i) {
        case FetchRaised =>
          return GetRaised(i);
        case NotOk =>
          return Mismatch(i);
        case Value(text) =>
          if text != pairs[i].1 {
            return Mismatch(i);
          }
      }
      i := i + 1;
    }
    return Completed(2 * |pairs|);
  }

  /**
   A cluster that behaves as one last-writer-wins map passes the test:
   the pairs come from a dict, so their keys are distinct, and each read
   sees its own pair's value.
   */
  lemma OneMapPassesReadBack(pairs: seq<(string, string)>, i: nat)
    requires forall a, b :: 0 <= a < b < |pairs| ==> pairs[a].0 != pairs[b].0
    requires i < |pairs|
    ensures StorageHandler.Get(StorageHandler.PutAll(StorageHandler.New(), pairs), pairs[i].0) == Some(pairs[i].1)
  {
    StorageHandler.WritesReadBack(StorageHandler.New(), pairs, pairs[i].0);
    var last := StorageHandler.LastWrite(pairs, pairs[i].0);
    assert last == i;
  }

  // ----- setup_chord_ring -----

  /** The HTTP calls `setup_chord_ring` makes. */
  datatype Call = Recover(node: string) | Reset(node: string) | Join(node: string, via: string)

  /** Recover and reset every node, in list order. */
  function RecoverAndReset(nodes: seq<string>): (r: seq<Call>)
    ensures |r| == 2 * |nodes|
    ensures forall i :: 0 <= i < |nodes| ==> r[2 * i] == Recover(nodes[i]) && r[2 * i + 1] == Reset(nodes[i])
    ensures forall c :: c in r ==> !c.Join?
  {
    if |nodes| == 0 then []
    else RecoverAndReset(nodes[..|nodes| - 1]) + [Recover(nodes[|nodes| - 1]), Reset(nodes[|nodes| - 1])]
  }

  /** Every call of a successful setup, in order: all recoveries and resets, then the joins. */
  function Plan(nodes: seq<string>): (r: seq<Call>)
    requires |nodes| >= 1
  {
    RecoverAndReset(nodes) + seq(|nodes| - 1, i requires 0 <= i < |nodes| - 1 => Join(nodes[i + 1], nodes[0]))
  }

  /** The plan joins every node after the first, once each and via the first, after all resets. */
  lemma PlanJoinsViaFirst(nodes: seq<string>)
    requires |nodes| >= 1
    ensures |Plan(nodes)| == 3 * |nodes| - 1
    ensures forall k :: 0 <= k < 2 * |nodes| ==> !Plan(nodes)[k].Join?
    ensures forall i :: 1 <= i < |nodes| ==> Plan(nodes)[2 * |nodes| + i - 1] == Join(nodes[i], nodes[0])
  {
  }

  /**
   `setup_chord_ring`: `ok(k)` says whether the `k`-th call of the plan
   gets a 200 answer (a failure or an exception makes the setup return
   false at once), and `stable` is the final stability check. The calls
   issued are always a prefix of the plan.
   */
  method SetupChordRing(nodes: seq<string>, ok: nat -> bool, stable: bool) returns (done: bool, issued: seq<Call>)
    ensures |nodes| == 0 ==> !done && issued == []
    ensures |nodes| >= 1 ==> issued <= Plan(nodes)
    ensures forall k :: 0 <= k < |issued| - 1 ==> ok(k)
    ensures |nodes| >= 1 && issued != Plan(nodes) ==> |issued| >= 1 && !ok(|issued| - 1)
    ensures done <==> |nodes| >= 1 && (forall k :: 0 <= k < |Plan(nodes)| ==> ok(k)) && stable
  {
    if |nodes| == 0 {
      return false, [];
    }
    var plan := Plan(nodes);
    var k := 0;
    while k < |plan|
      invariant k <= |plan|
      invariant forall j :: 0 <= j < k ==> ok(j)
    {
      if !ok(k) {
        return false, plan[..k + 1];
      }
      k := k + 1;
    }
    return stable, plan;
  }
}
