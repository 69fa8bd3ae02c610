/**
 The decisions of the node's HTTP handlers (`api.rs`), with the transport,
 the locks and JSON encoding left out: each handler is a function from the
 request data and the node state to a response and the next state. Where a
 handler forwards to another node, the outcome of that call is a parameter.
 */
module Api {
  import opened Base
  import opened Decimal
  import opened Utils
  import opened Chord
  import Config
  import Storage
  import opened Text

  /** Body of a response: plain text, a node as JSON, or nothing. */
  datatype Body = Text(text: string) | NodeJson(node: Node) | NoBody

  datatype Response = Response(status: nat, body: Body)

  /** A 200 response. */
  function Ok200(body: Body): Response { Response(200, body) }

  // ----- request parameters -----

  /** A query-string value (`web::Query` keys are case-sensitive), absent when the request has none. */
  function Lookup(m: map<string, string>, name: string): (v: Option<string>)
    ensures v.Some? <==> name in m
    ensures v.Some? ==> v.value == m[name]
  {
    if name in m then Some(m[name]) else None
  }

  /**
   `.and_then(parse).unwrap_or(0)`: the parsed value when the parameter is
   present and parses as an integer below `limit`, zero otherwise.
   */
  function ParseOrZero(v: Option<string>, limit: nat): (n: nat)
    requires limit > 0
    ensures n < limit
    ensures n != 0 ==> v.Some? && ParseUnsigned(v.value, limit) == Some(n)
    ensures v.Some? && ParseUnsigned(v.value, limit).Some? ==> n == ParseUnsigned(v.value, limit).value
  {
    match v
    case None => 0
    case Some(s) =>
      match ParseUnsigned(s, limit)
      case Some(n) => n
      case None => 0
  }

  /** A value rendered in decimal and parsed back with a default is the value. */
  lemma RenderedParameterReadsBack(n: nat, limit: nat)
    requires n < limit
    ensures ParseOrZero(Some(NatToDecimal(n)), limit) == n
  {
    ParseRendered(n, limit);
  }

  // ----- POST /join -----

  /**
   The parameter checks of `post_join`: `nprime` must be present, must
   split on ':' into exactly two pieces, and the second must parse as a
   u16 port; each failure is a 400 with its own message.
   */
  function ParseJoin(query: map<string, string>): (r: Result<NodeAddr, Response>)
    ensures r.Err? ==> r.error.status == 400
    ensures "nprime" !in query <==> r == Err(Response(400, Text("Missing nprime parameter")))
    ensures (r.Err? && r.error.body == Text("Invalid nprime format"))
              <==> ("nprime" in query && CountOf(query["nprime"], ':') != 1)
    ensures (r.Err? && "nprime" in query && CountOf(query["nprime"], ':') == 1)
              ==> r.error == Response(400, Text("Invalid port number"))
    ensures r.Ok? <==> ("nprime" in query && CountOf(query["nprime"], ':') == 1
                        && ParseUnsigned(Split(query["nprime"], ':')[1], U16_LIMIT).Some?)
    ensures r.Ok? ==> query["nprime"] == r.value.host + ":" + Split(query["nprime"], ':')[1]
    ensures r.Ok? ==> ParseUnsigned(Split(query["nprime"], ':')[1], U16_LIMIT) == Some(r.value.port as nat)
  {
    if "nprime" !in query then Err(Response(400, Text("Missing nprime parameter")))
    else
      var parts := Split(query["nprime"], ':');
      if |parts| != 2 then Err(Response(400, Text("Invalid nprime format")))
      else
        assert JoinWith(parts, ':') == parts[0] + [':'] + parts[1] by {
          assert parts[..1] == [parts[0]];
        }
        match ParseUnsigned(parts[1], U16_LIMIT)
        case None => Err(Response(400, Text("Invalid port number")))
        case Some(port) => Ok(NodeAddr(parts[0], port))
  }

  /** The label a node serves parses back to its address, when the host holds no ':'. */
  lemma JoinParsesLabel(a: NodeAddr)
    requires ':' !in a.host
    ensures ParseJoin(map["nprime" := Label(a)]) == Ok(a)
  {
    var digits := NatToDecimal(a.port);
    RenderedHasNoColon(a.port);
    assert JoinWith([a.host, digits], ':') == Label(a) by {
      assert [a.host, digits][..1] == [a.host];
    }
    SplitJoin([a.host, digits], ':');
    ParseRendered(a.port, U16_LIMIT);
  }

  /** A host with a ':' in it (an IPv6 literal, say) cannot be joined by its label. */
  lemma JoinRejectsColonHost(a: NodeAddr)
    requires CountOf(a.host, ':') >= 1
    ensures ParseJoin(map["nprime" := Label(a)]).Err?
  {
    var digits := NatToDecimal(a.port);
    RenderedHasNoColon(a.port);
    CountOfConcat(a.host, [':'] + digits, ':');
    CountOfConcat([':'], digits, ':');
    CountOfAbsent(digits, ':');
    assert Label(a) == a.host + ([':'] + digits);
  }

  // ----- GET /internal/find-successor -----

  /** One step of a lookup: answer with a node, or forward to `to` with the hop count raised. */
  datatype FindStep = Reply(node: Node) | Forward(to: Node, id: u64, hops: nat)

  /**
   `find_successor` up to the forwarded call: at or past the hop limit,
   for an id in (me, successor], or when routing points back at this
   node, answer with the successor; otherwise forward to the closest
   preceding node with one more hop.
   */
  function FindSuccessorStep(kn: KnownNodes, query: map<string, string>): (step: FindStep)
    ensures var id := ParseOrZero(Lookup(query, "id"), U64_LIMIT);
            var hops := ParseOrZero(Lookup(query, "hops"), U32_LIMIT);
            var n0 := ClosestPrecedingNode(kn, id);
            && (step.Forward? <==> hops < Config.HOP_LIMIT && !InOpenClosed(id, kn.me.id, kn.successor.id)
                                   && Label(n0.addr) != Label(kn.me.addr))
            && (step.Reply? ==> step.node == kn.successor)
            && (step.Forward? ==> step.to == n0 && step.id == id && step.hops == hops + 1
                                  && step.hops <= Config.HOP_LIMIT)
  {
    var id := ParseOrZero(Lookup(query, "id"), U64_LIMIT);
    var hops := ParseOrZero(Lookup(query, "hops"), U32_LIMIT);
    if hops >= Config.HOP_LIMIT then Reply(kn.successor)
    else if InOpenClosed(id, kn.me.id, kn.successor.id) then Reply(kn.successor)
    else
      var n0 := ClosestPrecedingNode(kn, id);
      if Label(n0.addr) == Label(kn.me.addr) then Reply(kn.successor)
      else Forward(n0, id, hops + 1)
  }

  /** The query string a forward carries: `id` and `hops` in decimal. */
  function ForwardQuery(id: u64, hops: nat): (q: map<string, string>)
    ensures q.Keys == {"id", "hops"}
  {
    map["id" := NatToDecimal(id), "hops" := NatToDecimal(hops)]
  }

  /** What came back from the forwarded call. */
  datatype ForwardReply = Unavailable | Undecodable | TransportError | Decoded(node: Node)

  /** The receiving node reads the forwarded id and hop count exactly. */
  lemma ForwardQueryReadsBack(id: u64, hops: nat)
    requires hops < U32_LIMIT
    ensures ParseOrZero(Lookup(ForwardQuery(id, hops), "id"), U64_LIMIT) == id
    ensures ParseOrZero(Lookup(ForwardQuery(id, hops), "hops"), U32_LIMIT) == hops
  {
    RenderedParameterReadsBack(id, U64_LIMIT);
    RenderedParameterReadsBack(hops, U32_LIMIT);
  }

  /**
   A whole lookup over a cluster, keyed by address label. A forward to a
   label that is not in the cluster (crashed, unreachable, answering with
   something that is not a node) falls back to the forwarding node's own
   successor, as do the 503, decode-error and transport-error branches.
   The result is the answer and the number of forwards made.
   */
  function Route(cluster: map<string, KnownNodes>, at: KnownNodes, id: u64, hops: nat): (r: (Node, nat))
    requires hops < U32_LIMIT
    ensures r.1 <= if hops < Config.HOP_LIMIT then Config.HOP_LIMIT - hops else 0
    ensures r.0 == at.successor || exists l :: l in cluster && r.0 == cluster[l].successor
    ensures r.1 == 0 ==> r.0 == at.successor
    decreases if hops < Config.HOP_LIMIT then Config.HOP_LIMIT - hops else 0
  {
    ForwardQueryReadsBack(id, hops);
    match FindSuccessorStep(at, ForwardQuery(id, hops))
    case Reply(n) => (n, 0)
    case Forward(to, fid, nextHops) =>
      if Label(to.addr) in cluster then
        var next := cluster[Label(to.addr)];
        var sub := Route(cluster, next, fid, nextHops);
        (sub.0, sub.1 + 1)
      else (at.successor, 0)
  }

  /** `find_successor` after the forward: a decoded node is passed on, any failure answers with the own successor. */
  function AfterForward(successor: Node, reply: ForwardReply): (r: Response)
    ensures r.status == 200 && r.body.NodeJson?
    ensures r.body.node == (if reply.Decoded? then reply.node else successor)
  {
    match reply
    case Decoded(node) => Ok200(NodeJson(node))
    case _ => Ok200(NodeJson(successor))
  }

  /** A lookup arriving with the hop count at the limit is answered locally, without a forward. */
  lemma HopLimitStopsForwarding(cluster: map<string, KnownNodes>, at: KnownNodes, id: u64, hops: nat)
    requires Config.HOP_LIMIT <= hops < U32_LIMIT
    ensures Route(cluster, at, id, hops) == (at.successor, 0)
  {
  }

  /** A node alone in its ring answers every lookup with itself and never forwards. */
  lemma FreshNodeAnswersItself(sha1: string -> Digest, addr: NodeAddr, cluster: map<string, KnownNodes>, id: u64, hops: nat)
    requires hops < U32_LIMIT
    ensures Route(cluster, NewChordNode(sha1, addr), id, hops) == (NewNode(sha1, addr), 0)
  {
    FreshNodeRoutesToItself(sha1, addr, id);
  }

  // ----- POST /internal/notify, set-successor, set-predecessor -----

  /**
   `notify(n')` when the lock is taken within the timeout: a node whose
   successor is itself takes n' as successor and predecessor (and as the
   node of finger 1 when the table has more than one entry); otherwise n'
   becomes the predecessor when the predecessor is the node itself or n'
   lies in (predecessor, me). On a lock timeout nothing changes. The
   answer is 200 either way.
   */
  function Notify(kn: KnownNodes, n: Node, locked: bool): (r: (KnownNodes, Response))
    ensures r.1 == Ok200(NoBody)
    ensures r.0.me == kn.me && |r.0.fingerTable| == |kn.fingerTable|
    ensures !locked ==> r.0 == kn
    ensures locked && kn.successor.id == kn.me.id ==>
              && r.0.successor == n && r.0.predecessor == n
              && (forall i :: 0 <= i < |kn.fingerTable| ==>
                    r.0.fingerTable[i].start == kn.fingerTable[i].start
                    && r.0.fingerTable[i].node == (if i == 1 then n else kn.fingerTable[i].node))
    ensures locked && kn.successor.id != kn.me.id ==>
              && r.0.successor == kn.successor && r.0.fingerTable == kn.fingerTable
              && r.0.predecessor == (if kn.predecessor.id == kn.me.id || InOpenOpen(n.id, kn.predecessor.id, kn.me.id)
                                     then n else kn.predecessor)
  {
    if !locked then (kn, Ok200(NoBody))
    else if kn.successor.id == kn.me.id then
      var ft := if |kn.fingerTable| > 1
                then kn.fingerTable[1 := kn.fingerTable[1].(node := n)]
                else kn.fingerTable;
      (kn.(successor := n, predecessor := n, fingerTable := ft), Ok200(NoBody))
    else if kn.predecessor.id == kn.me.id || InOpenOpen(n.id, kn.predecessor.id, kn.me.id) then
      (kn.(predecessor := n), Ok200(NoBody))
    else (kn, Ok200(NoBody))
  }

  /** Hearing the same notification twice has the effect of hearing it once. */
  lemma NotifyIdempotent(kn: KnownNodes, n: Node)
    ensures Notify(Notify(kn, n, true).0, n, true).0 == Notify(kn, n, true).0
  {
    var once := Notify(kn, n, true).0;
    if kn.successor.id == kn.me.id && n.id != kn.me.id {
      assert !InOpenOpen(n.id, n.id, kn.me.id);
    }
  }

  /**
   A notification never moves the predecessor away from the node: the new
   predecessor is the notifier only when the notifier is no further
   counter-clockwise than the old one, or the old one was the node itself.
   */
  lemma NotifyTightensPredecessor(kn: KnownNodes, n: Node)
    requires kn.successor.id != kn.me.id && kn.predecessor.id != kn.me.id
    ensures var p := Notify(kn, n, true).0.predecessor;
            p == kn.predecessor || (p == n && Clockwise(n.id, kn.me.id) < Clockwise(kn.predecessor.id, kn.me.id))
  {
    var p := kn.predecessor.id;
    var m := kn.me.id;
    if InOpenOpen(n.id, p, m) {
      OpenOpenIsClockwiseArc(n.id, p, m);
    }
  }

  /** Two fresh nodes: the first hears from the second and links both ways to it. */
  lemma NotifyLinksFreshNode(sha1: string -> Digest, a: NodeAddr, b: Node)
    ensures var kn := Notify(NewChordNode(sha1, a), b, true).0;
            kn.successor == b && kn.predecessor == b && kn.fingerTable[1].node == b
  {
  }

  /** `set_successor`: only the successor changes; a lock timeout is a 408 and changes nothing. */
  function SetSuccessor(kn: KnownNodes, n: Node, locked: bool): (r: (KnownNodes, Response))
    ensures locked ==> r.1 == Ok200(NoBody) && r.0 == KnownNodes(kn.me, kn.predecessor, n, kn.fingerTable)
    ensures !locked ==> r.1 == Response(408, Text("Timeout acquiring lock")) && r.0 == kn
  {
    if locked then (kn.(successor := n), Ok200(NoBody))
    else (kn, Response(408, Text("Timeout acquiring lock")))
  }

  /** `set_predecessor`: only the predecessor changes; a lock timeout is a 408 and changes nothing. */
  function SetPredecessor(kn: KnownNodes, n: Node, locked: bool): (r: (KnownNodes, Response))
    ensures locked ==> r.1 == Ok200(NoBody) && r.0 == KnownNodes(kn.me, n, kn.successor, kn.fingerTable)
    ensures !locked ==> r.1 == Response(408, Text("Timeout acquiring lock")) && r.0 == kn
  {
    if locked then (kn.(predecessor := n), Ok200(NoBody))
    else (kn, Response(408, Text("Timeout acquiring lock")))
  }

  /** The two setters touch different fields, so their order does not matter, and the last write wins. */
  lemma SettersCommute(kn: KnownNodes, a: Node, b: Node)
    ensures SetPredecessor(SetSuccessor(kn, a, true).0, b, true).0
         == SetSuccessor(SetPredecessor(kn, b, true).0, a, true).0
    ensures SetSuccessor(SetSuccessor(kn, a, true).0, b, true).0 == SetSuccessor(kn, b, true).0
  {
  }

  // ----- POST /reset -----

  /** `post_reset`: a fresh ring of one at the same address, and an empty store. */
  function PostReset(sha1: string -> Digest, kn: KnownNodes, store: Storage.Storage): (r: (KnownNodes, Storage.Storage, Response))
    ensures r.0 == NewChordNode(sha1, kn.me.addr)
    ensures forall key :: Storage.Get(r.1, key) == None
    ensures r.2 == Ok200(Text("Node reset to initial state"))
  {
    (NewChordNode(sha1, kn.me.addr), Storage.Clear(store), Ok200(Text("Node reset to initial state")))
  }

  /** Resetting twice is resetting once, and a reset node owns every key again. */
  lemma ResetIdempotent(sha1: string -> Digest, kn: KnownNodes, store: Storage.Storage, key: string)
    ensures var once := PostReset(sha1, kn, store);
            PostReset(sha1, once.0, once.1) == once
    ensures ResponsibleFor(sha1, PostReset(sha1, kn, store).0, key)
  {
    FreshNodeOwnsEveryKey(sha1, kn.me.addr, key);
  }

  // ----- GET and PUT /storage/{key} -----

  /** A storage handler either answers here or hands the request on with the hop count it read. */
  datatype StorageAction = Answer(response: Response) | ForwardStorage(key: string, hops: nat)

  /** A request header as received: name and value. */
  datatype Header = Header(name: string, value: string)

  /** The header a forwarded storage request carries its hop count in. */
  const HOP_HEADER: string := "X-Chord-Hop-Count"

  /**
   The position of the first header whose name equals `name` up to ASCII
   case, as `HeaderMap::get` finds it (header names are case-insensitive,
   and the first of several values is returned).
   */
  function FindHeader(headers: seq<Header>, name: string): (r: Option<nat>)
    ensures r.Some? ==> r.value < |headers| && SameIgnoringAsciiCase(headers[r.value].name, name)
                        && forall j :: 0 <= j < r.value ==> !SameIgnoringAsciiCase(headers[j].name, name)
    ensures r.None? ==> forall j :: 0 <= j < |headers| ==> !SameIgnoringAsciiCase(headers[j].name, name)
    decreases |headers|
  {
    if |headers| == 0 then None
    else if SameIgnoringAsciiCase(headers[0].name, name) then Some(0)
    else
      match FindHeader(headers[1..], name)
      case None => None
      case Some(k) => Some(k + 1)
  }

  /**
   The value of the hop-count header, zero when absent or not a u32. A value
   that is not visible ASCII fails `to_str` and reads as zero, as it would
   fail the digit check of `parse` anyway.
   */
  function HopCount(headers: seq<Header>): (hops: nat)
    ensures hops < U32_LIMIT
    ensures FindHeader(headers, HOP_HEADER).None? ==> hops == 0
    ensures FindHeader(headers, HOP_HEADER).Some? ==>
              hops == ParseOrZero(Some(headers[FindHeader(headers, HOP_HEADER).value].value), U32_LIMIT)
  {
    match FindHeader(headers, HOP_HEADER)
    case None => 0
    case Some(i) => ParseOrZero(Some(headers[i].value), U32_LIMIT)
  }

  /** The hop-count header is found whatever the case of its name: "x-chord-hop-count: 3" reads as 3. */
  lemma HopCountIgnoresNameCase(rest: seq<Header>)
    ensures HopCount([Header("x-chord-hop-count", "3")] + rest) == 3
    ensures HopCount([Header("X-CHORD-HOP-COUNT", "3")] + rest) == 3
    ensures HopCount([Header("X-Chord-Hop-Count", "3")] + rest) == 3
  {
    HopHeaderSpellings();
    ParseRendered(3, U32_LIMIT);
    assert NatToDecimal(3) == "3";
  }

  /** Three spellings of the hop-count header name that fold to the same lower-case name. */
  lemma HopHeaderSpellings()
    ensures SameIgnoringAsciiCase("x-chord-hop-count", HOP_HEADER)
    ensures SameIgnoringAsciiCase("X-CHORD-HOP-COUNT", HOP_HEADER)
    ensures SameIgnoringAsciiCase("X-Chord-Hop-Count", HOP_HEADER)
  {
    var lower := "x-chord-hop-count";
    assert LowerAsciiString(HOP_HEADER) == lower;
    assert LowerAsciiString("x-chord-hop-count") == lower;
    assert LowerAsciiString("X-CHORD-HOP-COUNT") == lower;
  }

  /** A hop count sent in the header, under any spelling of its name, is read back exactly. */
  lemma HopCountReadsBack(name: string, hops: nat, rest: seq<Header>)
    requires SameIgnoringAsciiCase(name, HOP_HEADER)
    requires hops < U32_LIMIT
    ensures HopCount([Header(name, NatToDecimal(hops))] + rest) == hops
  {
    RenderedParameterReadsBack(hops, U32_LIMIT);
  }

  /**
   `get_storage`: a responsible node answers 200 with the value or 404
   "Key not found"; any other node forwards with the hop count it read.
   */
  function GetStorage(sha1: string -> Digest, kn: KnownNodes, store: Storage.Storage,
                      headers: seq<Header>, key: string): (a: StorageAction)
    ensures a.Answer? <==> ResponsibleFor(sha1, kn, key)
    ensures a.Answer? ==>
              match Storage.Get(store, key)
              case Some(v) => a.response == Ok200(Text(v))
              case None => a.response == Response(404, Text("Key not found"))
    ensures a.ForwardStorage? ==> a.key == key && a.hops == HopCount(headers)
  {
    if ResponsibleFor(sha1, kn, key) then
      match Storage.Get(store, key)
      case Some(v) => Answer(Ok200(Text(v)))
      case None => Answer(Response(404, Text("Key not found")))
    else ForwardStorage(key, HopCount(headers))
  }

  /**
   `put_storage`: a responsible node stores the body when it is valid
   UTF-8 (given here already decoded, or absent when it is not) and
   answers 200, or answers 400 and stores nothing; any other node forwards
   and stores nothing.
   */
  function PutStorage(sha1: string -> Digest, kn: KnownNodes, store: Storage.Storage,
                      headers: seq<Header>, key: string, body: Option<string>): (r: (Storage.Storage, StorageAction))
    ensures r.1.Answer? <==> ResponsibleFor(sha1, kn, key)
    ensures r.1.Answer? && body.Some? ==>
              r.1.response == Ok200(Text("Value stored")) && r.0 == Storage.Put(store, key, body.value)
    ensures r.1.Answer? && body.None? ==>
              r.1.response == Response(400, Text("Value must be valid UTF-8")) && r.0 == store
    ensures r.1.ForwardStorage? ==> r.0 == store && r.1.key == key && r.1.hops == HopCount(headers)
  {
    if ResponsibleFor(sha1, kn, key) then
      match body
      case None => (store, Answer(Response(400, Text("Value must be valid UTF-8"))))
      case Some(v) => (Storage.Put(store, key, v), Answer(Ok200(Text("Value stored"))))
    else (store, ForwardStorage(key, HopCount(headers)))
  }

  /** On the responsible node, a stored value is what the next read returns; other keys read as before. */
  lemma PutThenGet(sha1: string -> Digest, kn: KnownNodes, store: Storage.Storage,
                   headers: seq<Header>, key: string, other: string, v: string)
    requires ResponsibleFor(sha1, kn, key)
    ensures var stored := PutStorage(sha1, kn, store, headers, key, Some(v)).0;
            GetStorage(sha1, kn, stored, headers, key) == Answer(Ok200(Text(v)))
    ensures other != key ==>
              var stored := PutStorage(sha1, kn, store, headers, key, Some(v)).0;
              GetStorage(sha1, kn, stored, headers, other) == GetStorage(sha1, kn, store, headers, other)
  {
  }
}
