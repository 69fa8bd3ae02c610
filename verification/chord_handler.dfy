/**
 The older static-ring variant of the node (`chord_handler.rs`): every node
 is told the full member list up front and builds its neighbours and finger
 table locally. Identifiers are the first eight digest bytes (M = 64).
 Address, node, finger and view types, the interval predicates, routing and
 `get_known_nodes` are textually the same as in `chord.rs` and `utils.rs`
 and are shared with the Chord and Utils modules.
 */
module ChordHandler {
  import opened Base
  import opened Utils
  import opened Chord

  /** Identifier width and hop limit of this variant. */
  const M: nat := 64
  const HOP_LIMIT: nat := 64

  /** `hash_key` of this variant: the first eight digest bytes as a big-endian u64. */
  function HashKey64(sha1: string -> Digest, key: string): (id: u64)
    ensures ToBigEndian(id, 8) == sha1(key)[..8]
  {
    IdFromDigest(sha1(key), 8)
  }

  /** `Node::new` of this variant. */
  function NewNode64(sha1: string -> Digest, addr: NodeAddr): (n: Node)
    ensures n.addr == addr
    ensures ToBigEndian(n.id, 8) == sha1(Label(addr))[..8]
  {
    Node(HashKey64(sha1, Label(addr)), addr)
  }

  /**
   The member list with our own address appended exactly when no entry has
   the same host and port.
   */
  function IncludeSelf(me: NodeAddr, all: seq<NodeAddr>): (r: seq<NodeAddr>)
    ensures me in r
    ensures (exists k :: 0 <= k < |all| && all[k].host == me.host && all[k].port == me.port) ==> r == all
    ensures (forall k :: 0 <= k < |all| ==> all[k].host != me.host || all[k].port != me.port) ==> r == all + [me]
  {
    if exists k :: 0 <= k < |all| && all[k].host == me.host && all[k].port == me.port then
      var k :| 0 <= k < |all| && all[k].host == me.host && all[k].port == me.port;
      assert all[k] == me;
      all
    else all + [me]
  }

  ghost predicate SortedById(s: seq<Node>)
  {
    forall i, j :: 0 <= i < j < |s| ==> s[i].id <= s[j].id
  }

  /** Inserts `x` into a list after every leading element with an id not above its own. */
  function InsertById(x: Node, s: seq<Node>): (r: seq<Node>)
    ensures multiset(r) == multiset(s) + multiset{x}
    ensures |r| == |s| + 1
    decreases |s|
  {
    if |s| == 0 then [x]
    else if x.id < s[0].id then [x] + s
    else
      assert s == [s[0]] + s[1..];
      [s[0]] + InsertById(x, s[1..])
  }

  /** Inserting into a sorted list keeps it sorted. */
  lemma {:induction false} InsertByIdSorted(x: Node, s: seq<Node>)
    requires SortedById(s)
    ensures SortedById(InsertById(x, s))
    decreases |s|
  {
    if |s| > 0 && x.id >= s[0].id {
      var rest := InsertById(x, s[1..]);
      InsertByIdSorted(x, s[1..]);
      forall j | 0 <= j < |rest|
        ensures s[0].id <= rest[j].id
      {
        assert rest[j] in multiset(rest);
        if rest[j] != x {
          assert rest[j] in multiset(s[1..]);
          assert rest[j] in s[1..];
        }
      }
      SortedCons(s[0], rest);
    }
  }

  lemma SortedCons(a: Node, s: seq<Node>)
    requires SortedById(s)
    requires forall j :: 0 <= j < |s| ==> a.id <= s[j].id
    ensures SortedById([a] + s)
  {
  }

  /**
   `nodes.sort_by(|a, b| a.id.cmp(&b.id))`: a stable insertion sort,
   each later element placed after the earlier ones with the same id.
   */
  function SortById(s: seq<Node>): (r: seq<Node>)
    ensures SortedById(r)
    ensures multiset(r) == multiset(s)
    ensures |r| == |s|
    decreases |s|
  {
    if |s| == 0 then []
    else
      assert s == s[..|s| - 1] + [s[|s| - 1]];
      InsertByIdSorted(s[|s| - 1], SortById(s[..|s| - 1]));
      InsertById(s[|s| - 1], SortById(s[..|s| - 1]))
  }

  /** `position(|n| n.id == id)`: the first index holding `id`. */
  function PositionOfId(nodes: seq<Node>, id: u64): (r: Option<nat>)
    ensures r.Some? ==> r.value < |nodes| && nodes[r.value].id == id
                        && forall k :: 0 <= k < r.value ==> nodes[k].id != id
    ensures r.None? ==> forall k :: 0 <= k < |nodes| ==> nodes[k].id != id
    decreases |nodes|
  {
    if |nodes| == 0 then None
    else if nodes[0].id == id then Some(0)
    else
      match PositionOfId(nodes[1..], id)
      case None => None
      case Some(k) => Some(k + 1)
  }

  /** Index of the first node whose id is at least `start`; `|nodes|` when there is none. */
  function LowerBound(nodes: seq<Node>, start: u64): (r: nat)
    ensures r <= |nodes|
    ensures forall k :: 0 <= k < r ==> nodes[k].id < start
    ensures r < |nodes| ==> nodes[r].id >= start
    decreases |nodes|
  {
    if |nodes| == 0 then 0
    else if nodes[0].id >= start then 0
    else 1 + LowerBound(nodes[1..], start)
  }

  /**
   The binary search `init_chord` performs: on a list sorted by id it finds
   the first index whose id is at least `start`.
   */
  method BinarySearchLowerBound(nodes: seq<Node>, start: u64) returns (idx: nat)
    requires SortedById(nodes)
    ensures idx <= |nodes|
    ensures forall k :: 0 <= k < idx ==> nodes[k].id < start
    ensures forall k :: idx <= k < |nodes| ==> nodes[k].id >= start
    ensures idx == LowerBound(nodes, start)
  {
    var lo, hi := 0, |nodes|;
    while lo < hi
      invariant 0 <= lo <= hi <= |nodes|
      invariant forall k :: 0 <= k < lo ==> nodes[k].id < start
      invariant forall k :: hi <= k < |nodes| ==> nodes[k].id >= start
      decreases hi - lo
    {
      var mid := lo + (hi - lo) / 2;
      if nodes[mid].id < start {
        lo := mid + 1;
      } else {
        hi := mid;
      }
    }
    idx := lo;
    LowerBoundUnique(nodes, start, idx);
  }

  /** Any split point with ids below `start` before it and none after is the lower bound. */
  lemma LowerBoundUnique(nodes: seq<Node>, start: u64, idx: nat)
    requires idx <= |nodes|
    requires forall k :: 0 <= k < idx ==> nodes[k].id < start
    requires forall k :: idx <= k < |nodes| ==> nodes[k].id >= start
    ensures idx == LowerBound(nodes, start)
  {
    var lb := LowerBound(nodes, start);
    assert idx < |nodes| ==> nodes[idx].id >= start;
    assert lb < |nodes| ==> nodes[lb].id >= start;
  }

  /**
   Finger node for `start`: the node with the smallest id at or above
   `start`, wrapping round to the first (smallest-id) node when every id is
   below `start`.
   */
  function FingerTarget(nodes: seq<Node>, start: u64): (n: Node)
    requires |nodes| > 0 && SortedById(nodes)
    ensures n in nodes
    ensures (exists k :: 0 <= k < |nodes| && nodes[k].id >= start) ==>
              n.id >= start && forall k :: 0 <= k < |nodes| && nodes[k].id >= start ==> n.id <= nodes[k].id
    ensures (forall k :: 0 <= k < |nodes| ==> nodes[k].id < start) ==>
              n == nodes[0] && forall k :: 0 <= k < |nodes| ==> n.id <= nodes[k].id
  {
    var idx := LowerBound(nodes, start);
    if idx < |nodes| then nodes[idx] else nodes[0]
  }

  /** Each address hashed into a node, in list order. */
  function HashAll(sha1: string -> Digest, addrs: seq<NodeAddr>): (nodes: seq<Node>)
    ensures |nodes| == |addrs|
    ensures forall k :: 0 <= k < |addrs| ==> nodes[k] == NewNode64(sha1, addrs[k])
  {
    seq(|addrs|, k requires 0 <= k < |addrs| => NewNode64(sha1, addrs[k]))
  }

  /**
   The member list `init_chord` works on: the members with our own address
   included, each hashed, sorted by id. It holds exactly those nodes, each
   as often as its address is listed.
   */
  function RingNodes(sha1: string -> Digest, me: NodeAddr, all: seq<NodeAddr>): (nodes: seq<Node>)
    ensures SortedById(nodes)
    ensures multiset(nodes) == multiset(HashAll(sha1, IncludeSelf(me, all)))
    ensures |nodes| >= 1
    ensures NewNode64(sha1, me) in nodes
    ensures forall a :: a in all ==> NewNode64(sha1, a) in nodes
  {
    var addrs := IncludeSelf(me, all);
    var hashed := HashAll(sha1, addrs);
    var k :| 0 <= k < |addrs| && addrs[k] == me;
    assert hashed[k] == NewNode64(sha1, me);
    assert NewNode64(sha1, me) in multiset(hashed);
    assert forall a :: a in all ==> NewNode64(sha1, a) in multiset(hashed) by {
      forall a | a in all
        ensures NewNode64(sha1, a) in multiset(hashed)
      {
        var j :| 0 <= j < |all| && all[j] == a;
        assert addrs[j] == a;
        assert hashed[j] == NewNode64(sha1, a);
      }
    }
    SortById(hashed)
  }

  /** Our index in the sorted list: always found, because our own node is in it. */
  function OwnIndex(sha1: string -> Digest, me: NodeAddr, all: seq<NodeAddr>): (i: nat)
    ensures i < |RingNodes(sha1, me, all)|
    ensures RingNodes(sha1, me, all)[i].id == HashKey64(sha1, Label(me))
    ensures forall k :: 0 <= k < i ==> RingNodes(sha1, me, all)[k].id != HashKey64(sha1, Label(me))
  {
    var nodes := RingNodes(sha1, me, all);
    MemberIdIsFound(nodes, NewNode64(sha1, me));
    PositionOfId(nodes, HashKey64(sha1, Label(me))).value
  }

  lemma MemberIdIsFound(nodes: seq<Node>, x: Node)
    requires x in nodes
    ensures PositionOfId(nodes, x.id).Some?
  {
    var k :| 0 <= k < |nodes| && nodes[k] == x;
    assert nodes[k].id == x.id;
  }

  /** `(i + 1) % n`: the successor's position in a ring of n. */
  function NextIndex(i: nat, n: nat): (r: nat)
    requires i < n
    ensures r < n
    ensures i + 1 < n ==> r == i + 1
    ensures i + 1 == n ==> r == 0
  {
    (i + 1) % n
  }

  /** `(i + n - 1) % n`: the predecessor's position in a ring of n. */
  function PrevIndex(i: nat, n: nat): (r: nat)
    requires i < n
    ensures r < n
    ensures i > 0 ==> r == i - 1
    ensures i == 0 ==> r == n - 1
  {
    (i + n - 1) % n
  }

  /** The 64 finger entries for a node with id `meId` over the sorted member list. */
  function BuildFingers(nodes: seq<Node>, meId: u64): (ft: seq<FingerEntry>)
    requires |nodes| > 0 && SortedById(nodes)
    ensures |ft| == M
    ensures forall k :: 0 <= k < M ==> ft[k].start == FingerStart(meId, k)
    ensures forall k :: 0 <= k < M ==> ft[k].node == FingerTarget(nodes, ft[k].start)
  {
    seq(M, k requires 0 <= k < M => FingerEntry(FingerStart(meId, k), FingerTarget(nodes, FingerStart(meId, k))))
  }

  /**
   `init_chord`: with i our index in the sorted list of n nodes, the
   successor is entry (i+1) mod n and the predecessor entry (i+n-1) mod n;
   the 64 fingers start at (id + 2^k) mod 2^64 and each points at the node
   found by the wrapping search.
   */
  function InitChord(sha1: string -> Digest, me: NodeAddr, all: seq<NodeAddr>): (kn: KnownNodes)
    ensures kn.me == RingNodes(sha1, me, all)[OwnIndex(sha1, me, all)]
    ensures kn.me.id == HashKey64(sha1, Label(me))
    ensures kn.successor == RingNodes(sha1, me, all)[NextIndex(OwnIndex(sha1, me, all), |RingNodes(sha1, me, all)|)]
    ensures kn.predecessor == RingNodes(sha1, me, all)[PrevIndex(OwnIndex(sha1, me, all), |RingNodes(sha1, me, all)|)]
    ensures kn.fingerTable == BuildFingers(RingNodes(sha1, me, all), kn.me.id)
  {
    var nodes := RingNodes(sha1, me, all);
    var i := OwnIndex(sha1, me, all);
    var n := |nodes|;
    var fingers := BuildFingers(nodes, nodes[i].id);
    KnownNodes(nodes[i], nodes[PrevIndex(i, n)], nodes[NextIndex(i, n)], fingers)
  }

  /** With no other member, the node is its own successor and predecessor. */
  lemma SingleMemberRing(sha1: string -> Digest, me: NodeAddr)
    ensures InitChord(sha1, me, []).successor == NewNode64(sha1, me)
    ensures InitChord(sha1, me, []).predecessor == NewNode64(sha1, me)
    ensures InitChord(sha1, me, []).me == NewNode64(sha1, me)
  {
    var nodes := RingNodes(sha1, me, []);
    assert IncludeSelf(me, []) == [me];
    assert |nodes| == 1;
    assert nodes[0] == NewNode64(sha1, me);
  }

  ghost predicate StrictlySortedById(s: seq<Node>)
  {
    forall i, j :: 0 <= i < j < |s| ==> s[i].id < s[j].id
  }

  /**
   On a ring sorted by distinct ids, no member id lies strictly between a
   member and the next one (its successor by modular index).
   */
  lemma NoMemberBetweenNeighbours(nodes: seq<Node>, i: nat)
    requires StrictlySortedById(nodes) && i < |nodes|
    ensures forall k :: 0 <= k < |nodes| ==>
              !InOpenOpen(nodes[k].id, nodes[i].id, nodes[NextIndex(i, |nodes|)].id)
  {
    var n := |nodes|;
    forall k | 0 <= k < n
      ensures !InOpenOpen(nodes[k].id, nodes[i].id, nodes[NextIndex(i, n)].id)
    {
      if i + 1 < n {
        if k < i {
          assert nodes[k].id < nodes[i].id;
        } else if k > i + 1 {
          assert nodes[i + 1].id < nodes[k].id;
        }
      } else {
        if k != 0 && k != i {
          assert nodes[0].id < nodes[k].id < nodes[i].id;
        }
      }
    }
  }

  /**
   On a ring sorted by distinct ids, member i owns id h (h lies in the arc
   from its predecessor, exclusive, to itself, inclusive) exactly when it is
   the node the wrapping search picks for h. So the arcs split the circle:
   every id has exactly one owner, the first member at or after it.
   */
  lemma OwnerIsSearchTarget(nodes: seq<Node>, i: nat, h: u64)
    requires StrictlySortedById(nodes) && i < |nodes|
    ensures InOpenClosed(h, nodes[PrevIndex(i, |nodes|)].id, nodes[i].id)
            <==> nodes[i] == FingerTarget(nodes, h)
  {
    var n := |nodes|;
    if n > 1 && i > 0 {
      InteriorOwner(nodes, i, h);
    } else if n > 1 {
      WrapOwner(nodes, h);
    }
  }

  lemma InteriorOwner(nodes: seq<Node>, i: nat, h: u64)
    requires StrictlySortedById(nodes) && 0 < i < |nodes|
    ensures nodes[i - 1].id < h <= nodes[i].id <==> nodes[i] == FingerTarget(nodes, h)
  {
    var n := |nodes|;
    var lb := LowerBound(nodes, h);
    assert nodes[i - 1].id < nodes[i].id;
    if lb == i {
      assert nodes[i - 1].id < h;
    } else if lb < i {
      assert nodes[lb].id <= nodes[i - 1].id;
      assert nodes[lb].id < nodes[i].id;
    } else {
      assert nodes[i].id < h;
      if lb < n {
        assert nodes[i].id < nodes[lb].id;
      } else {
        assert nodes[0].id < nodes[i].id;
      }
    }
  }

  lemma WrapOwner(nodes: seq<Node>, h: u64)
    requires StrictlySortedById(nodes) && 1 < |nodes|
    ensures (h > nodes[|nodes| - 1].id || h <= nodes[0].id) <==> nodes[0] == FingerTarget(nodes, h)
  {
    var n := |nodes|;
    var lb := LowerBound(nodes, h);
    assert nodes[0].id < nodes[n - 1].id;
    if 0 < lb < n {
      assert nodes[0].id < h <= nodes[lb].id;
      assert nodes[lb].id <= nodes[n - 1].id;
      assert nodes[0].id < nodes[lb].id;
    } else if lb == n {
      assert nodes[n - 1].id < h;
    }
  }

  /** `ChordHandler::responsible_for`: the key's 64-bit id lies in (predecessor, me]. */
  predicate ResponsibleFor64(sha1: string -> Digest, kn: KnownNodes, key: string)
  {
    InOpenClosed(HashKey64(sha1, key), kn.predecessor.id, kn.me.id)
  }

  /**
   After `init_chord` over members with distinct ids, a node is responsible
   for a key exactly when it is the first member at or after the key's id
   (wrapping round), and no member lies between it and its successor.
   */
  lemma StaticRingIsConsistent(sha1: string -> Digest, me: NodeAddr, all: seq<NodeAddr>, key: string)
    requires StrictlySortedById(RingNodes(sha1, me, all))
    ensures ResponsibleFor64(sha1, InitChord(sha1, me, all), key)
            <==> InitChord(sha1, me, all).me == FingerTarget(RingNodes(sha1, me, all), HashKey64(sha1, key))
    ensures forall k :: 0 <= k < |RingNodes(sha1, me, all)| ==>
              !InOpenOpen(RingNodes(sha1, me, all)[k].id, InitChord(sha1, me, all).me.id,
                          InitChord(sha1, me, all).successor.id)
  {
    var nodes := RingNodes(sha1, me, all);
    var i := OwnIndex(sha1, me, all);
    OwnerIsSearchTarget(nodes, i, HashKey64(sha1, key));
    NoMemberBetweenNeighbours(nodes, i);
  }
}
