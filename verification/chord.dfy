/**
 The node's own view of the ring (`chord.rs`): addresses, ids, the finger
 table, the single-node start state, key responsibility, finger routing and
 the two list builders served over HTTP. Identifiers are M = 16 bits wide
 (hash of the address label), finger starts are computed on the full u64
 circle.
 */
module Chord {
  import opened Base
  import opened Decimal
  import opened Utils
  import Config

  /** A node address; equality is by value. */
  datatype NodeAddr = NodeAddr(host: string, port: u16)

  /** `NodeAddr::label`: "host:port". */
  function Label(a: NodeAddr): string
  {
    a.host + ":" + NatToDecimal(a.port)
  }

  /** `NodeAddr::to_url`: the label behind an http scheme. */
  function ToUrl(a: NodeAddr): (url: string)
    ensures |url| > 7 && url[..7] == "http://"
    ensures url[7..] == Label(a)
  {
    "http://" + Label(a)
  }

  datatype Node = Node(id: u64, addr: NodeAddr)

  /** `Node::new`: the id is the hash of the address label. */
  function NewNode(sha1: string -> Digest, addr: NodeAddr): (n: Node)
    ensures n.addr == addr
    ensures n.id == HashKey(sha1, Label(addr))
    ensures n.id < Pow2(Config.M)
  {
    Node(HashKey(sha1, Label(addr)), addr)
  }

  datatype FingerEntry = FingerEntry(start: u64, node: Node)

  /** `KnownNodes`: what a node knows of the ring. */
  datatype KnownNodes = KnownNodes(
    me: Node,
    predecessor: Node,
    successor: Node,
    fingerTable: seq<FingerEntry>)

  /** `(id + 2^i) mod 2^64`, the start of finger i; not reduced to M bits. */
  function FingerStart(id: u64, i: nat): (start: u64)
    requires i < 64
    ensures start == (id + Pow2(i)) % U64_LIMIT
  {
    Pow2Below64(i);
    WrappingAdd64(id, Pow2(i))
  }

  /**
   `ChordNode::new`: a ring of one. Predecessor and successor are the node
   itself, and each of the M fingers starts at `(id + 2^i) mod 2^64` and
   points back at the node.
   */
  function NewChordNode(sha1: string -> Digest, addr: NodeAddr): (kn: KnownNodes)
    ensures kn.me == NewNode(sha1, addr)
    ensures kn.predecessor == kn.me && kn.successor == kn.me
    ensures |kn.fingerTable| == Config.M
    ensures forall i :: 0 <= i < |kn.fingerTable| ==>
              kn.fingerTable[i].node == kn.me && kn.fingerTable[i].start == FingerStart(kn.me.id, i)
  {
    var node := NewNode(sha1, addr);
    KnownNodes(node, node, node,
      seq(Config.M, i requires 0 <= i < Config.M => FingerEntry(FingerStart(node.id, i), node)))
  }

  /** `ChordNode::responsible_for`: the key's id lies in (predecessor, me]. */
  predicate ResponsibleFor(sha1: string -> Digest, kn: KnownNodes, key: string)
  {
    InOpenClosed(HashKey(sha1, key), kn.predecessor.id, kn.me.id)
  }

  /** A fresh node owns every key: its predecessor is itself, so the arc is the whole circle. */
  lemma FreshNodeOwnsEveryKey(sha1: string -> Digest, addr: NodeAddr, key: string)
    ensures ResponsibleFor(sha1, NewChordNode(sha1, addr), key)
  {
  }

  /** Finger j's node lies strictly between this node and the target id. */
  predicate Precedes(ft: seq<FingerEntry>, meId: u64, id: u64, j: int)
    requires 0 <= j < |ft|
  {
    InOpenOpen(ft[j].node.id, meId, id)
  }

  /**
   Reverse scan of the finger table: the node of the highest-index finger
   that precedes `id`, or `fallback` when none does.
   */
  function ScanFingers(ft: seq<FingerEntry>, meId: u64, id: u64, fallback: Node): (r: Node)
    ensures (exists j :: 0 <= j < |ft| && Precedes(ft, meId, id, j) && r == ft[j].node
               && forall k :: j < k < |ft| ==> !Precedes(ft, meId, id, k))
         || (r == fallback && forall j :: 0 <= j < |ft| ==> !Precedes(ft, meId, id, j))
    decreases |ft|
  {
    if |ft| == 0 then fallback
    else if InOpenOpen(ft[|ft| - 1].node.id, meId, id) then ft[|ft| - 1].node
    else
      var r := ScanFingers(ft[..|ft| - 1], meId, id, fallback);
      assert forall k :: 0 <= k < |ft| - 1 ==> Precedes(ft[..|ft| - 1], meId, id, k) == Precedes(ft, meId, id, k);
      r
  }

  /**
   `closest_preceding_node`: the highest-index finger whose node lies in
   (me, id), or the successor when no finger does.
   */
  function ClosestPrecedingNode(kn: KnownNodes, id: u64): (r: Node)
    ensures (exists j :: 0 <= j < |kn.fingerTable| && Precedes(kn.fingerTable, kn.me.id, id, j)
               && r == kn.fingerTable[j].node
               && forall k :: j < k < |kn.fingerTable| ==> !Precedes(kn.fingerTable, kn.me.id, id, k))
         || (r == kn.successor
               && forall j :: 0 <= j < |kn.fingerTable| ==> !Precedes(kn.fingerTable, kn.me.id, id, j))
  {
    ScanFingers(kn.fingerTable, kn.me.id, id, kn.successor)
  }

  /** On a fresh node no finger precedes anything, so routing falls back to the successor, itself. */
  lemma FreshNodeRoutesToItself(sha1: string -> Digest, addr: NodeAddr, id: u64)
    ensures ClosestPrecedingNode(NewChordNode(sha1, addr), id) == NewNode(sha1, addr)
  {
    var kn := NewChordNode(sha1, addr);
    assert forall j :: 0 <= j < |kn.fingerTable| ==> !Precedes(kn.fingerTable, kn.me.id, id, j);
  }

  /** Labels of the finger nodes, in table order, duplicates kept. */
  function FingerLabels(ft: seq<FingerEntry>): (labels: seq<string>)
    ensures |labels| == |ft|
    ensures forall i :: 0 <= i < |ft| ==> labels[i] == Label(ft[i].node.addr)
  {
    seq(|ft|, i requires 0 <= i < |ft| => Label(ft[i].node.addr))
  }

  /** Appends `x` unless it is already present, as `if !v.contains(&x) { v.push(x) }`. */
  function PushAbsent(s: seq<string>, x: string): (r: seq<string>)
    ensures x in s ==> r == s
    ensures x !in s ==> r == s + [x]
  {
    if x in s then s else s + [x]
  }

  /**
   `get_known_nodes`: all finger labels in table order (duplicates kept),
   then the predecessor's and then the successor's label, each only if not
   yet present. Both neighbours always end up in the list, and nothing else
   is added.
   */
  function GetKnownNodes(kn: KnownNodes): (r: seq<string>)
    ensures |kn.fingerTable| <= |r| <= |kn.fingerTable| + 2
    ensures r[..|kn.fingerTable|] == FingerLabels(kn.fingerTable)
    ensures Label(kn.predecessor.addr) in r && Label(kn.successor.addr) in r
    ensures forall x :: x in r <==>
              x in FingerLabels(kn.fingerTable) || x == Label(kn.predecessor.addr) || x == Label(kn.successor.addr)
    ensures forall i :: |kn.fingerTable| <= i < |r| ==> r[i] !in r[..i]
    ensures |r| == |kn.fingerTable| + (if Label(kn.predecessor.addr) in FingerLabels(kn.fingerTable) then 0 else 1)
                   + (if Label(kn.successor.addr) in FingerLabels(kn.fingerTable)
                         || Label(kn.successor.addr) == Label(kn.predecessor.addr) then 0 else 1)
    ensures Label(kn.predecessor.addr) !in FingerLabels(kn.fingerTable) ==>
              r[|kn.fingerTable|] == Label(kn.predecessor.addr)
    ensures Label(kn.successor.addr) !in FingerLabels(kn.fingerTable)
            && Label(kn.successor.addr) != Label(kn.predecessor.addr) ==>
              r[|r| - 1] == Label(kn.successor.addr)
  {
    var labels := FingerLabels(kn.fingerTable);
    var withPre := PushAbsent(labels, Label(kn.predecessor.addr));
    var r := PushAbsent(withPre, Label(kn.successor.addr));
    assert withPre[..|labels|] == labels;
    assert r[..|withPre|] == withPre;
    r
  }

  /**
   The run of equal neighbours that position `i` of `s` belongs to,
   counted from zero: how often the value changes between neighbours up to
   position `i`.
   */
  function RunIndex(s: seq<string>, i: nat): (k: nat)
    requires i < |s|
    ensures k <= i
  {
    if i == 0 then 0
    else (if s[0] != s[1] then 1 else 0) + RunIndex(s[1..], i - 1)
  }

  /**
   Vec::dedup: removes consecutive repeats only, keeping one element of each
   run. Non-adjacent repeats survive. The result has one entry per run of
   `s`, in order: position `i` of `s` lands on entry `RunIndex(s, i)`.
   */
  function Dedup(s: seq<string>): (r: seq<string>)
    ensures |s| == 0 ==> r == []
    ensures |s| > 0 ==> |r| == RunIndex(s, |s| - 1) + 1
    ensures forall i :: 0 <= i < |s| ==> RunIndex(s, i) < |r| && r[RunIndex(s, i)] == s[i]
    ensures |r| <= |s|
    ensures |s| > 0 ==> |r| > 0 && r[0] == s[0] && r[|r| - 1] == s[|s| - 1]
    ensures forall x :: x in r <==> x in s
    ensures forall i :: 0 <= i < |r| - 1 ==> r[i] != r[i + 1]
    decreases |s|
  {
    if |s| <= 1 then s
    else
      var rest := Dedup(s[1..]);
      assert forall x :: x in s <==> x == s[0] || x in s[1..];
      assert forall i :: 1 <= i < |s| ==> s[1..][i - 1] == s[i];
      if s[0] == s[1] then rest else [s[0]] + rest
  }

  /** Every run of `s` has a position: the run indices cover 0 .. the last one. */
  lemma {:induction false} RunIndexOnto(s: seq<string>, k: nat) returns (i: nat)
    requires |s| > 0 && k <= RunIndex(s, |s| - 1)
    ensures i < |s| && RunIndex(s, i) == k
    decreases |s|
  {
    if k == 0 {
      i := 0;
    } else {
      var d := if s[0] != s[1] then 1 else 0;
      var j := RunIndexOnto(s[1..], k - d);
      i := j + 1;
    }
  }

  /**
   Dedup is the only list with one entry per run of `s` in which every
   position of `s` finds its own value at its run's entry.
   */
  lemma DedupIsUnique(s: seq<string>, r: seq<string>)
    requires |s| == 0 ==> r == []
    requires |s| > 0 ==> |r| == RunIndex(s, |s| - 1) + 1
    requires forall i :: 0 <= i < |s| ==> RunIndex(s, i) < |r| && r[RunIndex(s, i)] == s[i]
    ensures r == Dedup(s)
  {
    if |s| > 0 {
      forall k | 0 <= k < |r|
        ensures r[k] == Dedup(s)[k]
      {
        var i := RunIndexOnto(s, k);
      }
    }
  }

  /** In a list with no adjacent repeats every position is a run of its own. */
  lemma {:induction false} RunIndexOfRunFree(s: seq<string>, i: nat)
    requires forall k :: 0 <= k < |s| - 1 ==> s[k] != s[k + 1]
    requires i < |s|
    ensures RunIndex(s, i) == i
    decreases i
  {
    if i > 0 {
      assert s[0] != s[1];
      var t := s[1..];
      forall k | 0 <= k < |t| - 1
        ensures t[k] != t[k + 1]
      {
        assert t[k] == s[k + 1] && t[k + 1] == s[k + 2];
      }
      RunIndexOfRunFree(t, i - 1);
    }
  }

  /** A list with no adjacent repeats is left as it is. */
  lemma DedupKeepsRunFreeList(s: seq<string>)
    requires forall i :: 0 <= i < |s| - 1 ==> s[i] != s[i + 1]
    ensures Dedup(s) == s
  {
    forall i | 0 <= i < |s|
      ensures RunIndex(s, i) == i
    {
      RunIndexOfRunFree(s, i);
    }
    DedupIsUnique(s, s);
  }

  /** Dedup is idempotent. */
  lemma DedupIdempotent(s: seq<string>)
    ensures Dedup(Dedup(s)) == Dedup(s)
  {
    DedupKeepsRunFreeList(Dedup(s));
  }

  /** Only adjacent repeats go: ["a", "b", "a"] is unchanged. */
  lemma DedupKeepsDistantRepeats()
    ensures Dedup(["a", "b", "a"]) == ["a", "b", "a"]
  {
    DedupKeepsRunFreeList(["a", "b", "a"]);
  }

  /** A finger whose node is neither this node nor the successor. */
  predicate IsOtherFinger(e: FingerEntry, meId: u64, succId: u64)
  {
    e.node.id != meId && e.node.id != succId
  }

  /** How many of the first `i` fingers point at neither this node nor the successor. */
  function OthersBefore(ft: seq<FingerEntry>, meId: u64, succId: u64, i: nat): (n: nat)
    requires i <= |ft|
    ensures n <= i
  {
    if i == 0 then 0
    else (if IsOtherFinger(ft[0], meId, succId) then 1 else 0) + OthersBefore(ft[1..], meId, succId, i - 1)
  }

  /**
   `r` holds the labels of the fingers pointing neither at this node nor at
   the successor, in table order: one entry per such finger, and finger `i`
   at entry `OthersBefore(ft, meId, succId, i)`.
   */
  ghost predicate OthersInOrder(ft: seq<FingerEntry>, meId: u64, succId: u64, r: seq<string>)
  {
    && |r| == OthersBefore(ft, meId, succId, |ft|)
    && forall i :: 0 <= i < |ft| && IsOtherFinger(ft[i], meId, succId) ==>
         OthersBefore(ft, meId, succId, i) < |r| && r[OthersBefore(ft, meId, succId, i)] == Label(ft[i].node.addr)
  }

  /** Putting the first finger's label (when kept) in front of the rest's keeps the order. */
  lemma OthersInOrderCons(ft: seq<FingerEntry>, meId: u64, succId: u64, rest: seq<string>)
    requires |ft| > 0
    requires OthersInOrder(ft[1..], meId, succId, rest)
    ensures OthersInOrder(ft, meId, succId,
                          if IsOtherFinger(ft[0], meId, succId) then [Label(ft[0].node.addr)] + rest else rest)
  {
    var r := if IsOtherFinger(ft[0], meId, succId) then [Label(ft[0].node.addr)] + rest else rest;
    forall i | 0 <= i < |ft| && IsOtherFinger(ft[i], meId, succId)
      ensures OthersBefore(ft, meId, succId, i) < |r| && r[OthersBefore(ft, meId, succId, i)] == Label(ft[i].node.addr)
    {
      if i > 0 {
        assert ft[1..][i - 1] == ft[i];
      }
    }
  }

  /**
   The finger labels kept by the filter of `to_viewmodel`: those of the
   fingers pointing neither at this node nor at the successor, in table
   order and with duplicates kept.
   */
  function OtherFingerLabels(ft: seq<FingerEntry>, meId: u64, succId: u64): (r: seq<string>)
    ensures OthersInOrder(ft, meId, succId, r)
    ensures forall x :: x in r <==>
              exists i :: 0 <= i < |ft| && ft[i].node.id != meId && ft[i].node.id != succId
                          && x == Label(ft[i].node.addr)
    ensures (forall i :: 0 <= i < |ft| ==> ft[i].node.id == meId || ft[i].node.id == succId) ==> r == []
    decreases |ft|
  {
    if |ft| == 0 then []
    else
      var rest := OtherFingerLabels(ft[1..], meId, succId);
      OthersInOrderCons(ft, meId, succId, rest);
      assert forall i :: 1 <= i < |ft| ==> ft[i] == ft[1..][i - 1];
      if IsOtherFinger(ft[0], meId, succId)
      then [Label(ft[0].node.addr)] + rest
      else rest
  }

  /** `KnownNodesViewmodel`, the body of GET /node-info. */
  datatype Viewmodel = Viewmodel(nodeHash: string, successor: string, others: seq<string>)

  /** The list `to_viewmodel` deduplicates: the other fingers' labels, then the predecessor's. */
  function OthersWithPredecessor(kn: KnownNodes): (pre: seq<string>)
    ensures |pre| == OthersBefore(kn.fingerTable, kn.me.id, kn.successor.id, |kn.fingerTable|) + 1
    ensures pre[|pre| - 1] == Label(kn.predecessor.addr)
    ensures forall i :: 0 <= i < |kn.fingerTable| && IsOtherFinger(kn.fingerTable[i], kn.me.id, kn.successor.id) ==>
              && OthersBefore(kn.fingerTable, kn.me.id, kn.successor.id, i) < |pre| - 1
              && pre[OthersBefore(kn.fingerTable, kn.me.id, kn.successor.id, i)] == Label(kn.fingerTable[i].node.addr)
  {
    OtherFingerLabels(kn.fingerTable, kn.me.id, kn.successor.id) + [Label(kn.predecessor.addr)]
  }

  /**
   `to_viewmodel`: the node hash as sixteen lower-case hex digits that read
   back as this node's id, the successor's label, and as `others` the labels
   of fingers pointing neither at this node nor at the successor, in table
   order, followed by the predecessor's label, with adjacent repeats
   removed: position `i` of that list lands on entry `RunIndex(pre, i)`.
   */
  function ToViewmodel(kn: KnownNodes): (vm: Viewmodel)
    ensures |vm.nodeHash| == 16 && forall i :: 0 <= i < 16 ==> IsLowerHex(vm.nodeHash[i])
    ensures HexStringValue(vm.nodeHash) == kn.me.id
    ensures vm.successor == Label(kn.successor.addr)
    ensures var pre := OthersWithPredecessor(kn);
            && |vm.others| == RunIndex(pre, |pre| - 1) + 1
            && (forall i :: 0 <= i < |pre| ==> RunIndex(pre, i) < |vm.others| && vm.others[RunIndex(pre, i)] == pre[i])
    ensures |vm.others| >= 1 && vm.others[|vm.others| - 1] == Label(kn.predecessor.addr)
    ensures forall x :: x in vm.others <==>
              x == Label(kn.predecessor.addr)
              || exists i :: 0 <= i < |kn.fingerTable| && kn.fingerTable[i].node.id != kn.me.id
                             && kn.fingerTable[i].node.id != kn.successor.id
                             && x == Label(kn.fingerTable[i].node.addr)
    ensures forall i :: 0 <= i < |vm.others| - 1 ==> vm.others[i] != vm.others[i + 1]
  {
    Hex16RoundTrip(kn.me.id);
    var pre := OthersWithPredecessor(kn);
    assert forall x :: x in pre <==> x in OtherFingerLabels(kn.fingerTable, kn.me.id, kn.successor.id)
                                     || x == Label(kn.predecessor.addr);
    Viewmodel(Hex16(kn.me.id), Label(kn.successor.addr), Dedup(pre))
  }

  /** A fresh node reports itself as successor and as its only other node. */
  lemma FreshNodeViewmodel(sha1: string -> Digest, addr: NodeAddr)
    ensures ToViewmodel(NewChordNode(sha1, addr)).successor == Label(addr)
    ensures ToViewmodel(NewChordNode(sha1, addr)).others == [Label(addr)]
  {
    var kn := NewChordNode(sha1, addr);
    var filtered := OtherFingerLabels(kn.fingerTable, kn.me.id, kn.successor.id);
    assert forall i :: 0 <= i < |kn.fingerTable| ==> kn.fingerTable[i].node.id == kn.me.id;
    assert filtered == [];
    var pre := OthersWithPredecessor(kn);
    assert pre == [Label(addr)];
    var vm := ToViewmodel(kn);
    assert RunIndex(pre, 0) == 0;
    assert |vm.others| == 1 && vm.others[0] == pre[0];
  }

  /** The two list builders agree: every label `/node-info` reports is one `get_known_nodes` lists. */
  lemma ViewmodelLabelsAreKnown(kn: KnownNodes)
    ensures ToViewmodel(kn).successor in GetKnownNodes(kn)
    ensures forall x :: x in ToViewmodel(kn).others ==> x in GetKnownNodes(kn)
  {
    forall x | x in ToViewmodel(kn).others
      ensures x in GetKnownNodes(kn)
    {
      if x != Label(kn.predecessor.addr) {
        var i :| 0 <= i < |kn.fingerTable| && x == Label(kn.fingerTable[i].node.addr);
        assert x == FingerLabels(kn.fingerTable)[i];
      }
    }
  }

  /** A fresh node knows only itself: one copy of its label per finger, nothing appended. */
  lemma FreshNodeKnownNodes(sha1: string -> Digest, addr: NodeAddr)
    ensures GetKnownNodes(NewChordNode(sha1, addr)) == seq(Config.M, i => Label(addr))
  {
    var kn := NewChordNode(sha1, addr);
    assert FingerLabels(kn.fingerTable)[0] == Label(addr);
    assert FingerLabels(kn.fingerTable) == seq(Config.M, i => Label(addr));
  }

  /** Finger starts are not reduced to M bits: node 0xffff has finger 0 starting at 2^16. */
  lemma FingerStartMayLeaveIdSpace()
    ensures FingerStart(0xffff, 0) == Pow2(Config.M)
  {
    Pow2Values();
  }
}
