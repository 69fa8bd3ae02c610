# Chord DHT: node logic and benchmark oracle in Dafny

This project models the two pieces of the inf3200 Chord distributed hash
table that hold real decisions. It proves properties about each.

- **The Rust node** (`src/webserver/src`):
  - The identifier-circle intervals and the truncation of a SHA-1 digest to an M-bit identifier.
  - The single-node start state, key responsibility and finger-table routing.
  - The two peer lists the node serves: `get_known_nodes` and the `/node-info` view model.
  - The static-ring variant that builds a full finger table from a member list by sorting and binary search.
  - The decision steps of the HTTP handlers: `nprime` parsing, hop counts, the local step of `find_successor`, `notify`, the two setters, `reset`, and the local branch of storage get/put.
  - The crash flag and its 503 gate.
  - The two key/value maps.
  - The idle timer.
- **The Python test scripts** (`src/tests`):
  - The ring-consistency oracle of the benchmark: a bounded successor walk from the first responsive node.
  - Its debounce `is_stable`.
  - The deadline loop `wait_for_stability`.
  - The records each experiment appends, with the size arithmetic and the counts the summary and crash plot group them by.
  - The helpers of the throughput script: node selection, the stability round and its deadline, the read-back check, and the call order of ring setup.

Every part of the environment the code reads is an input to the model:

- The cluster is a snapshot: which addresses answer a ping, and what `/node-info` returns for each.
- The clock is a sequence of integer readings that strictly increase, because there is a sleep between readings.
- Random choices are explicit picks.
- The outcome of each HTTP call is a parameter.
- SHA-1 is any function from strings to 20-byte digests.

Constants come from `config.rs`: M = 16 and HOP_LIMIT = 16 for `chord.rs`, `utils.rs` and `api.rs`. The older `chord_handler.rs` variant uses its own M = 64 and HOP_LIMIT = 64.

The central result is about the oracle. `RingOracle.WalkRing` is a loop that follows the Python code statement by statement. It is proved equal to `RingOracle.RingVerdict`, a declarative reading of the same check:

- When the successor cycle through the start closes within `expected_size` steps, the answer is whether its length is exactly `expected_size`.
- Otherwise the walk ends in one of two ways:
  - an exception, when it reaches a malformed address;
  - false, when it hits a dead end or never closes.

Two behaviours of the code are proved and kept as they are:

- **The oracle accepts outsiders.** It never checks that the ring it walks consists of the listed nodes. A one-node list whose successor chain runs through an unlisted node is accepted as a ring of two (`RingOracle.OutsiderRingAccepted`).
- **The node serves no `predecessor` key.** The `/node-info` body (`chord.rs:51-56`, `88-92`) has none. The throughput script's stability round requires that key whenever more than one node is listed (`throughput.py:183-196`), so against nodes serving this body that round never passes on a ring of two or more (`Throughput.ServedInfoRounds`). Which side is meant to change is not decided here.

Files: one module per source component.

| file | models |
|---|---|
| `base.dfy` | `Option`/`Result`, the `u16`/`u32`/`u64` ranges, powers of two, wrapping and saturating arithmetic |
| `text.dfy` | splitting on one separator character (Rust `str::split`, Python `str.split`) |
| `decimal.dfy` | decimal and `{:016x}` rendering, Rust's unsigned `parse` |
| `config.dfy` | `config.rs` |
| `utils.dfy` | `utils.rs` |
| `chord.dfy` | `chord.rs` |
| `chord_handler.dfy` | `chord_handler.rs` |
| `api.dfy` | `api.rs` |
| `simulate.dfy` | `simulate.rs` |
| `storage.dfy` | `storage.rs` |
| `storage_handler.dfy` | `storage_handler.rs` |
| `activity.dfy` | `activity.rs` |
| `ring_oracle.dfy` | `NetworkStabilityChecker._check_ring_consistency` |
| `polling.dfy` | the deadline loop shared by `wait_for_stability` and `check_network_stability` |
| `stability.dfy` | `is_stable`, `wait_for_stability` |
| `experiments.dfy` | `BenchmarkResult` and the three experiments' bookkeeping |
| `throughput.dfy` | `throughput.py` |

## Model

| member | source | states |
|---|---|---|
| Base.WrappingAdd64 | src/webserver/src/chord.rs:118 | `wrapping_add`: the plain sum when it fits in 64 bits, otherwise the sum minus 2^64 |
| Base.SaturatingSub | src/webserver/src/activity.rs:33 | `saturating_sub`: the exact difference when there is no underflow, zero when there would be |
| Text.Split | src/webserver/src/api.rs:109 | splitting on ':' yields one more piece than there are colons; no piece holds a colon; joining the pieces with ':' gives the input back |
| Text.SplitJoin | src/tests/chord_benchmark.py:30 | pieces free of the separator, joined with it and split again, come back unchanged |
| Text.PiecesJoin | src/webserver/src/api.rs:109 | the split pieces re-joined with the separator are the original text |
| Text.PiecesCount | src/webserver/src/api.rs:109-110 | the number of pieces is the number of separators plus one, so "exactly two parts" means "exactly one ':'" |
| Decimal.NatToDecimal | src/webserver/src/chord.rs:20 | `Display` for integers: at least one digit, no leading zero, and the digits read back as the number |
| Decimal.ParseUnsigned | src/webserver/src/api.rs:112 | `parse::<uN>()` succeeds exactly when the text after one optional '+' is a non-empty string of digits whose value is below the type's limit, and returns that value |
| Decimal.ParseRendered | src/webserver/src/api.rs:262 | a number rendered in decimal parses back to itself whenever it is in range |
| Decimal.ParsePadded | src/webserver/src/api.rs:112 | leading zeros and a '+' sign are accepted and ignored: "0" or "+" before a number's digits parses as the number |
| Decimal.Hex16 | src/webserver/src/chord.rs:89 | `{:016x}` of a u64 is exactly sixteen lower-case hex digits |
| Decimal.HexWidthValue | src/webserver/src/chord.rs:89 | the zero-padded hex rendering of a number below 16^width reads back as that number |
| Decimal.Hex16RoundTrip | src/webserver/src/chord.rs:89 | the node hash string reads back as the node id |
| Utils.InOpenOpen | src/webserver/src/utils.rs:17-25 | `in_interval_open_open`: for start < end the id is strictly between; for start > end (the arc wraps past zero) it is above start or below end; for start == end no id is in the arc |
| Utils.InOpenClosed | src/webserver/src/utils.rs:28-37 | `in_interval_open_closed`: for start < end the id is above start and at most end; for start > end it is above start or at most end; for start == end every id is in the arc |
| Utils.OpenOpenIsClockwiseArc | src/webserver/src/utils.rs:17-25 | `in_interval_open_open` holds iff the ends differ and the id is strictly between them going clockwise on the 2^64 circle |
| Utils.OpenClosedIsClockwiseArc | src/webserver/src/utils.rs:28-37 | `in_interval_open_closed` holds iff the ends coincide (the whole circle) or the id is after the start and no further than the end going clockwise |
| Utils.DegenerateArcs | src/webserver/src/utils.rs:17-37 | with start == end the open arc is empty and the half-open arc is the whole circle |
| Utils.OpenClosedIsOpenOpenPlusEnd | src/webserver/src/utils.rs:17-37 | with distinct ends, the half-open arc is the open arc plus the end point |
| Utils.ArcEndPoints | src/webserver/src/utils.rs:17-37 | with distinct ends, the start is in neither arc; the end is in the half-open arc only |
| Utils.OpenArcsAreComplementary | src/webserver/src/utils.rs:17-25 | for distinct ends and an id that is neither end, exactly one of (s, e) and (e, s) holds the id |
| Utils.BigEndianBound | src/webserver/src/utils.rs:13 | n bytes read big-endian give a value below 256^n |
| Utils.BigEndianRoundTrip | src/webserver/src/utils.rs:13 | reading bytes big-endian and writing the value back at the same width is the identity |
| Utils.DigestPrefixValue | src/webserver/src/utils.rs:11-13 | up to eight bytes right-aligned in eight zero bytes keep their big-endian value, which fits a u64 and writes back to those bytes |
| Utils.IdFromDigest | src/webserver/src/utils.rs:10-13 | the id built from the first n digest bytes is below 256^n and its n big-endian bytes are exactly that digest prefix |
| Utils.HashKey | src/webserver/src/utils.rs:5-14 | `hash_key` with M = 16 yields an identifier below 2^16 |
| Chord.Label | src/webserver/src/chord.rs:19-21 | `label`: the host, ':' and the port in decimal |
| Chord.ToUrl | src/webserver/src/chord.rs:15-21 | `to_url` is "http://" followed by the address label |
| Chord.NewNode | src/webserver/src/chord.rs:31-34 | `Node::new` keeps the address and takes `hash_key` of its label as id, below 2^M |
| Chord.FingerStart | src/webserver/src/chord.rs:118 | finger i starts at (id + 2^i) mod 2^64 |
| Chord.NewChordNode | src/webserver/src/chord.rs:105-127 | `ChordNode::new`: predecessor = successor = me, exactly M fingers, finger i starts at (id + 2^i) mod 2^64 and points at me |
| Chord.ResponsibleFor | src/webserver/src/chord.rs:130-136 | `responsible_for`: the key's hash lies in (predecessor, me] |
| Chord.FreshNodeOwnsEveryKey | src/webserver/src/chord.rs:130-136 | a freshly created node is responsible for every key |
| Chord.ScanFingers | src/webserver/src/chord.rs:140-146 | the reverse scan returns the node of the highest-index finger lying in (me, id), or the fallback exactly when no finger does |
| Chord.ClosestPrecedingNode | src/webserver/src/chord.rs:138-147 | `closest_preceding_node` is the highest-index finger node in (me, id), or the successor when there is none |
| Chord.FreshNodeRoutesToItself | src/webserver/src/chord.rs:138-147 | on a fresh node, routing returns the node itself for every id |
| Chord.FingerLabels | src/webserver/src/chord.rs:63-65 | one label per finger, in table order, duplicates kept |
| Chord.PushAbsent | src/webserver/src/chord.rs:67-72 | `if !contains { push }` leaves a list holding x unchanged and otherwise appends x |
| Chord.GetKnownNodes | src/webserver/src/chord.rs:60-75 | `get_known_nodes` starts with the finger labels in table order; then comes the predecessor's label when no finger has it, and last the successor's when neither a finger nor the predecessor has it; the length counts exactly those additions; the appended tail never repeats an earlier entry |
| Chord.Dedup | src/webserver/src/chord.rs:87 | `Vec::dedup` leaves one entry per run of equal neighbours, in order: position i of the input lands on entry RunIndex(s, i), the number of value changes up to i; so no two neighbours are equal, and first, last and set of elements are kept |
| Chord.DedupIsUnique | src/webserver/src/chord.rs:87 | any list with one entry per run in which every input position finds its own value at its run's entry is the dedup result, so the run characterisation fixes dedup completely |
| Chord.DedupKeepsRunFreeList | src/webserver/src/chord.rs:87 | a list with no equal neighbours is left unchanged by dedup |
| Chord.DedupIdempotent | src/webserver/src/chord.rs:87 | dedup applied twice is dedup applied once |
| Chord.DedupKeepsDistantRepeats | src/webserver/src/chord.rs:86-87 | non-adjacent repeats survive: ["a", "b", "a"] is unchanged |
| Chord.OtherFingerLabels | src/webserver/src/chord.rs:80-84 | the filter keeps the labels of fingers whose node is neither me nor the successor, in table order with duplicates kept: one entry per such finger, finger i at entry OthersBefore(i), the number of such fingers before it; empty when every finger is one of those two |
| Chord.ToViewmodel | src/webserver/src/chord.rs:77-93 | the node hash is sixteen lower-case hex digits reading back as me.id; `successor` is the successor's label; `others` is the dedup of the filtered finger labels followed by the predecessor's label: one entry per run of that list, in order, ending with the predecessor's label and with no equal neighbours |
| Chord.FreshNodeViewmodel | src/webserver/src/chord.rs:77-127 | a fresh node reports its own label as successor and as its only other node |
| Chord.ViewmodelLabelsAreKnown | src/webserver/src/chord.rs:60-93 | every label `/node-info` reports, successor and others, is one `get_known_nodes` lists |
| Chord.FreshNodeKnownNodes | src/webserver/src/chord.rs:60-75 | a fresh node's known list is its own label once per finger, with nothing appended |
| Chord.FingerStartMayLeaveIdSpace | src/webserver/src/chord.rs:117-118 | finger starts are not reduced to M bits: node 0xffff's finger 0 starts at 2^16 |
| ChordHandler.HashKey64 | src/webserver/src/chord_handler.rs:84-92 | this variant's id is the first eight digest bytes read big-endian |
| ChordHandler.NewNode64 | src/webserver/src/chord_handler.rs:34-38 | this variant's `Node::new` keeps the address and takes the 64-bit hash of its label |
| ChordHandler.IncludeSelf | src/webserver/src/chord_handler.rs:120-125 | the own address is appended exactly when no member has the same host and port; it is in the result either way |
| ChordHandler.InsertById | src/webserver/src/chord_handler.rs:130 | one insertion step of the sort adds exactly the inserted node to the list's multiset |
| ChordHandler.InsertByIdSorted | src/webserver/src/chord_handler.rs:130 | inserting into a list sorted by id keeps it sorted |
| ChordHandler.SortById | src/webserver/src/chord_handler.rs:130 | `sort_by` on id yields a list sorted by id that is a permutation of the input |
| ChordHandler.PositionOfId | src/webserver/src/chord_handler.rs:134-137 | `position` finds the first index holding the id, or none exactly when no entry has it |
| ChordHandler.LowerBound | src/webserver/src/chord_handler.rs:149-160 | every entry before the returned index has an id below `start`, and the entry at the index, if any, has an id at least `start` |
| ChordHandler.BinarySearchLowerBound | src/webserver/src/chord_handler.rs:149-157 | binary search on a list sorted by id finds the split between ids below `start` and ids at least `start` |
| ChordHandler.LowerBoundUnique | src/webserver/src/chord_handler.rs:149-160 | that split point is unique |
| ChordHandler.FingerTarget | src/webserver/src/chord_handler.rs:149-160 | the finger node is the member with the smallest id at or above `start`, or the member with the smallest id overall when every id is below `start` |
| ChordHandler.HashAll | src/webserver/src/chord_handler.rs:128 | each address becomes its node, position by position |
| ChordHandler.RingNodes | src/webserver/src/chord_handler.rs:120-130 | the working list is sorted by id and is, as a multiset, exactly the hashed member list with our own address included; so every member and our own node are in it |
| ChordHandler.OwnIndex | src/webserver/src/chord_handler.rs:133-138 | our own id is always found, at its first occurrence, so the `expect` never panics |
| ChordHandler.NextIndex | src/webserver/src/chord_handler.rs:141 | (i + 1) mod n is the next position, wrapping from the last to the first |
| ChordHandler.PrevIndex | src/webserver/src/chord_handler.rs:142 | (i + n - 1) mod n is the previous position, wrapping from the first to the last |
| ChordHandler.BuildFingers | src/webserver/src/chord_handler.rs:145-165 | exactly 64 fingers; finger k starts at (id + 2^k) mod 2^64 and points at the wrapping search's node for that start |
| ChordHandler.InitChord | src/webserver/src/chord_handler.rs:118-180 | `init_chord`: me is our own node, with the successor and predecessor at the neighbouring positions (modulo n) of the sorted list, and the finger table as built above |
| ChordHandler.SingleMemberRing | src/webserver/src/chord_handler.rs:118-142 | with no other member, the node is its own successor and predecessor |
| ChordHandler.NoMemberBetweenNeighbours | src/webserver/src/chord_handler.rs:141 | with distinct sorted ids, no member lies strictly between a member and its successor |
| ChordHandler.OwnerIsSearchTarget | src/webserver/src/chord_handler.rs:185-191 | with distinct sorted ids, member i owns id h (h in (pred, me]) exactly when i is the node the wrapping search picks for h |
| ChordHandler.StaticRingIsConsistent | src/webserver/src/chord_handler.rs:118-191 | after `init_chord`, a node is responsible for a key exactly when it is the first member at or after the key's id, and no member lies between it and its successor |
| ChordHandler.ResponsibleFor64 | src/webserver/src/chord_handler.rs:185-191 | this variant's `responsible_for`: the key's 64-bit hash lies in (predecessor, me] |
| Api.Lookup | src/webserver/src/api.rs:221-230 | `query.get(name)`: a value exactly when the query string has that key, and then the value stored under it |
| Api.ParseOrZero | src/webserver/src/api.rs:27-31 | an absent or unparsable value gives 0; a present value that parses gives that value |
| Api.RenderedParameterReadsBack | src/webserver/src/api.rs:222-231 | a value rendered in decimal and read with the zero default comes back unchanged |
| Api.ParseJoin | src/webserver/src/api.rs:106-139 | missing `nprime` gives 400 "Missing nprime parameter"; a count of colons other than one gives "Invalid nprime format"; one colon and a port that does not parse as a u16 gives "Invalid port number"; otherwise success, with the host the text before the colon and the parsed port |
| Api.JoinParsesLabel | src/webserver/src/api.rs:109-113 | a node's own label, for a host without ':', parses back to its address |
| Api.JoinRejectsColonHost | src/webserver/src/api.rs:109-110 | a host containing ':' (an IPv6 literal, say) cannot be joined by its label |
| Api.FindSuccessorStep | src/webserver/src/api.rs:222-262 | forwards exactly when hops < HOP_LIMIT, the id is outside (me, successor] and the closest preceding node has another label; the forward goes to that node with hops + 1; every other case answers with the successor |
| Api.ForwardQuery | src/webserver/src/api.rs:262 | the forwarded URL's query has exactly the two keys `id` and `hops`; `Api.ForwardQueryReadsBack` proves their values read back |
| Api.ForwardQueryReadsBack | src/webserver/src/api.rs:222-262 | the receiving node reads the forwarded id and hop count exactly |
| Api.Route | src/webserver/src/api.rs:217-285 | a whole lookup makes at most HOP_LIMIT - hops forwards; without a forward it answers with this node's successor, and otherwise with the successor of some node of the cluster map |
| Api.AfterForward | src/webserver/src/api.rs:263-284 | a decoded node is passed on; a 503, an undecodable body or a transport error answers with the own successor; always 200 |
| Api.HopLimitStopsForwarding | src/webserver/src/api.rs:233-237 | at or past the hop limit the answer is the local successor, with no forward |
| Api.FreshNodeAnswersItself | src/webserver/src/api.rs:240-259 | a node alone in its ring answers every lookup with itself and never forwards |
| Api.Notify | src/webserver/src/api.rs:293-329 | a lone node takes n' as successor and predecessor, and as finger 1 when the table has more than one entry; otherwise n' becomes predecessor iff the predecessor is the node itself or n' lies in (pred, me); a lock timeout changes nothing; always 200 |
| Api.NotifyIdempotent | src/webserver/src/api.rs:305-321 | the same notification twice has the effect of one |
| Api.NotifyTightensPredecessor | src/webserver/src/api.rs:319-321 | a notification replaces the predecessor only with a node that is strictly closer counter-clockwise |
| Api.NotifyLinksFreshNode | src/webserver/src/api.rs:309-316 | a fresh node notified by n' links to n' as successor, predecessor and finger 1, not finger 0 |
| Api.SetSuccessor | src/webserver/src/api.rs:333-351 | only the successor changes; a lock timeout answers 408 and changes nothing |
| Api.SetPredecessor | src/webserver/src/api.rs:355-373 | only the predecessor changes; a lock timeout answers 408 and changes nothing |
| Api.SettersCommute | src/webserver/src/api.rs:343-368 | the two setters commute, and a second set of the successor overrides the first |
| Api.PostReset | src/webserver/src/api.rs:162-173 | `reset` yields a fresh single-node state at the same address, an empty store and 200 |
| Api.ResetIdempotent | src/webserver/src/api.rs:162-173 | resetting twice is resetting once, and a reset node owns every key |
| Api.FindHeader | src/webserver/src/api.rs:27-29 | `HeaderMap::get` finds the first header whose name equals the one asked for up to ASCII case, or none exactly when no header does |
| Api.HopCount | src/webserver/src/api.rs:59-63 | the hop count is the u32 value of the first header named X-Chord-Hop-Count in any letter case, zero when there is none or it does not parse |
| Api.HopCountIgnoresNameCase | src/webserver/src/api.rs:27-31 | "x-chord-hop-count", "X-CHORD-HOP-COUNT" and "X-Chord-Hop-Count" with value "3" all read as 3 |
| Api.HopCountReadsBack | src/webserver/src/api.rs:59-63 | a hop count rendered in decimal under any spelling of the header name reads back exactly |
| Api.GetStorage | src/webserver/src/api.rs:19-47 | the node answers locally iff it is responsible: 200 with the value, or 404 "Key not found"; otherwise it forwards with the hop count it read |
| Api.PutStorage | src/webserver/src/api.rs:50-81 | a responsible node stores a valid UTF-8 body and answers 200, or answers 400 and stores nothing; any other node forwards and stores nothing |
| Api.PutThenGet | src/webserver/src/api.rs:36-74 | on the responsible node, a stored value is what the next read returns, and other keys read as before |
| Simulate.NewCrashState | src/webserver/src/simulate.rs:16-20 | a new node is not crashed |
| Simulate.IsCrashed | src/webserver/src/simulate.rs:35-37 | `is_crashed` reads the crash flag |
| Simulate.Crash | src/webserver/src/simulate.rs:23-26 | after `crash` the node is crashed |
| Simulate.Recover | src/webserver/src/simulate.rs:29-32 | after `recover` the node is not crashed |
| Simulate.CrashAndRecoverForgetThePast | src/webserver/src/simulate.rs:23-32 | crash and recover do not depend on the state before, and are idempotent |
| Simulate.Gate | src/webserver/src/simulate.rs:97-121 | 503 iff crashed and the path is neither "/sim-crash" nor "/sim-recover"; otherwise the request goes on with its path unchanged |
| Simulate.CrashRecoverCycle | src/webserver/src/simulate.rs:129-139 | fresh serves everything; crashed refuses all but the control endpoints; recovered serves everything again |
| Storage.Get | src/webserver/src/storage.rs:20-25 | a value is returned exactly for a stored key, and it is the stored value |
| Storage.New | src/webserver/src/storage.rs:13-17 | a new store has no value for any key |
| Storage.Put | src/webserver/src/storage.rs:28-32 | after `put`, the key reads back the value and every other key reads as before |
| Storage.Clear | src/webserver/src/storage.rs:35-39 | after `clear`, no key has a value |
| Storage.StoreUnitTests | src/webserver/src/storage.rs:46-58 | the two unit tests: a written value reads back, and an unknown key reads as none |
| Storage.PutOverwrites | src/webserver/src/storage.rs:28-32 | a second write to a key replaces the first |
| StorageHandler.Get | src/webserver/src/storage_handler.rs:20-25 | a value is returned exactly for a stored key, and it is the stored value |
| StorageHandler.New | src/webserver/src/storage_handler.rs:13-17 | a new handler has no value for any key |
| StorageHandler.Put | src/webserver/src/storage_handler.rs:28-32 | after `put`, the key reads back the value and every other key reads as before |
| StorageHandler.WritesReadBack | src/webserver/src/storage_handler.rs:20-32 | after any sequence of writes a key reads as its last write, or as before when it was never written |
| Activity.NewTimer | src/webserver/src/activity.rs:15-21 | a new timer has last = 0 and a limit of 60 seconds per minute given |
| Activity.Touch | src/webserver/src/activity.rs:24-27 | `touch` records the current time and keeps the limit |
| Activity.IsIdle | src/webserver/src/activity.rs:30-35 | idle when the saturating difference between now and the last touch reaches the limit in milliseconds |
| Activity.TouchedTimerIsBusy | src/webserver/src/activity.rs:24-35 | just after a touch, a timer with a positive limit is not idle |
| Activity.IdleIsMonotone | src/webserver/src/activity.rs:30-35 | without a touch, an idle timer stays idle as the clock advances |
| Activity.ClockBeforeTouch | src/webserver/src/activity.rs:31-34 | a reading before the last touch saturates to zero idle time, which counts as idle only with a zero limit |
| Activity.FreshTimerIdleAfterLimit | src/webserver/src/activity.rs:15-35 | a fresh timer is idle exactly once the limit in milliseconds has elapsed |
| RingOracle.AddressParses | src/tests/chord_benchmark.py:28-31 | `ChordNode.__init__` succeeds exactly when `split(':')` gives two pieces and `int()` accepts the second |
| RingOracle.StepAt | src/tests/chord_benchmark.py:214-225 | one visit: a malformed address raises; an empty info, a missing or null successor, or an empty successor string ends the walk with false; otherwise the walk moves to the successor |
| RingOracle.FirstResponsive | src/tests/chord_benchmark.py:193-200 | none exactly when no listed node answers a ping; otherwise the first index in list order that does |
| RingOracle.PathShift | src/tests/chord_benchmark.py:207-228 | the walk is deterministic: equal positions stay equal after the same number of steps |
| RingOracle.FirstReturnIsSimple | src/tests/chord_benchmark.py:203-212 | before its first return to the start, the walk visits pairwise distinct addresses |
| RingOracle.NothingAfterStop | src/tests/chord_benchmark.py:218-225 | once a visit does not move on, the walk is over and cannot come back |
| RingOracle.VisitedOnFirstReturn | src/tests/chord_benchmark.py:203-212 | up to the first return, each iteration adds a new address to `visited` |
| RingOracle.VisitedBound | src/tests/chord_benchmark.py:212 | k iterations visit at most k addresses |
| RingOracle.WalkRing | src/tests/chord_benchmark.py:202-235 | the loop returns exactly the declarative verdict, visits at most expected_size + 1 addresses, and exactly expected_size when it accepts |
| RingOracle.OnReturn | src/tests/chord_benchmark.py:208-210 | breaking at the first return within expected_size steps gives true iff that return is at exactly expected_size |
| RingOracle.OnStop | src/tests/chord_benchmark.py:215-225 | a walk that stops at a visit within expected_size steps gives the exception when that visit raises and false otherwise |
| RingOracle.OnOverflow | src/tests/chord_benchmark.py:230-232 | a walk that runs expected_size + 1 steps without closing gives false |
| RingOracle.CheckRingConsistency | src/tests/chord_benchmark.py:191-235 | false when no node answers a ping; otherwise the verdict of the walk from the first responsive node, within expected_size + 1 visits |
| RingOracle.EmptyRingNeverConsistent | src/tests/chord_benchmark.py:234-235 | an expected size of zero is never confirmed |
| RingOracle.SelfLoopIsRingOfOne | src/tests/chord_benchmark.py:202-235 | a node that names itself as successor is a consistent ring of one |
| RingOracle.RingPath | src/tests/chord_benchmark.py:221-228 | along a ring whose members each name the next, the walk visits them in order |
| RingOracle.PerfectRingIsConsistent | src/tests/chord_benchmark.py:202-235 | a ring of n distinct addresses, each naming the next, is accepted with expected size n and rejected with any other |
| RingOracle.StepOnColonAddress | src/tests/chord_benchmark.py:28-31 | a host:port address with a parsable port and a non-empty successor moves the walk on to that successor |
| RingOracle.ColonSplits | src/tests/chord_benchmark.py:30 | a host and a port text without ':' split back into exactly those two pieces |
| RingOracle.OutsiderRingAccepted | src/tests/chord_benchmark.py:215-228 | a one-node list whose successor chain passes through an unlisted address is accepted as a ring of two |
| Polling.GuardMonotone | src/tests/chord_benchmark.py:240-244 | with a sleep between readings, the clock advances by at least one unit per attempt |
| Polling.PollUntil | src/tests/chord_benchmark.py:240-246 | the loop ends at the first attempt that passes or raises, always within the deadline; it times out iff every attempt made in time failed |
| Stability.Trailing | src/tests/chord_benchmark.py:177-185 | `consecutive_successes` after i checks: never more than i; `Stability.TrailingMeansWindow` gives its meaning |
| Stability.TrailingMeansWindow | src/tests/chord_benchmark.py:177-185 | the consecutive-success counter reaches m at check i iff checks i-m .. i-1 all passed |
| Stability.IsStable | src/tests/chord_benchmark.py:176-189 | true iff m > 0 and a window of m consecutive passes closes within 2m checks with no exception before; at most 2m checks are made; an exception escapes; false only after all 2m checks |
| Stability.WaitForStability | src/tests/chord_benchmark.py:237-246 | (False, timeout) iff every call made in time was unstable; (True, elapsed) iff some call made in time was stable and every earlier one unstable, with elapsed the non-negative time after that call |
| Experiments.Name | src/tests/chord_benchmark.py:631 | the three experiment names are distinct |
| Experiments.GrowthRecord | src/tests/chord_benchmark.py:314-344 | a growth repetition appends one record, unless the wait raised; a missing node gives -1 with "Not all nodes alive"; success iff all nodes are alive and the wait succeeded; the duration is the wait's elapsed time; the record is well formed |
| Experiments.ShrinkRecord | src/tests/chord_benchmark.py:375-414 | a shrink repetition appends one record from start to end size, unless a wait raised; an unstable start gives -1 with "Initial network didn't stabilize"; success iff both waits succeeded |
| Experiments.CrashRecord | src/tests/chord_benchmark.py:449-485 | a crash repetition records 32 nodes and target 32 - burst; an unstable start gives -1; success iff both waits succeeded; a failed final wait names the burst size |
| Experiments.CrashDetails | src/tests/chord_benchmark.py:484 | the failure detail is the fixed prefix, the burst's decimal digits, and " crashes"; the digits read back as the burst |
| Experiments.CrashDetailsNameTheBurst | src/tests/chord_benchmark.py:484 | two failure details are equal iff their bursts are |
| Experiments.BurstOf | src/tests/chord_benchmark.py:569 | the plot's group key: network size minus target size; `Experiments.BurstOfCrashRecord` shows it is the burst |
| Experiments.BurstOfCrashRecord | src/tests/chord_benchmark.py:568-569 | network_size - target_size of every crash record is the burst it was run with |
| Experiments.Fitting | src/tests/chord_benchmark.py:293-296 | sizes larger than the pool are skipped, all others kept |
| Experiments.GrowthSizes | src/tests/chord_benchmark.py:290-296 | the growth sizes tried are exactly those of [2, 4, 8, 16, 32] that fit the pool |
| Experiments.FittingAscendingIsPrefix | src/tests/chord_benchmark.py:293-296 | from an ascending list, the sizes kept are a prefix |
| Experiments.GrowthSizesArePrefix | src/tests/chord_benchmark.py:291-296 | the growth sizes tried are a prefix of [2, 4, 8, 16, 32] |
| Experiments.FitCases | src/tests/chord_benchmark.py:347-352 | the loop runs exactly the cases whose start size fits the pool and skips the rest, never more than given; all of them when all fit, none when none does |
| Experiments.FitDescendingIsSuffix | src/tests/chord_benchmark.py:347-352 | over cases listed by descending start size, the ones that fit are a tail of the list |
| Experiments.ShrinkCases | src/tests/chord_benchmark.py:347-352 | exactly the cases whose start size fits the pool, in the original order, which makes them the last entries of the case list; each halves the network |
| Experiments.KeepAndLeave | src/tests/chord_benchmark.py:388-389 | the kept and leaving nodes together are the test nodes, in order, with end_size kept; with distinct nodes none both stays and leaves |
| Experiments.ShrinkLeavesHalf | src/tests/chord_benchmark.py:388-393 | every shrink case sends a leave to exactly start_size - end_size nodes |
| Experiments.CrashBursts | src/tests/chord_benchmark.py:417-424 | burst sizes are 1 .. 16, or none when the pool is smaller than 32 |
| Experiments.CrashTargetsAtLeastHalf | src/tests/chord_benchmark.py:418-424 | every burst is between 1 and 16 and leaves at least half of the network |
| Experiments.Survivors | src/tests/chord_benchmark.py:463 | the survivors are exactly the test nodes that were not crashed; a single node survives iff it was not crashed |
| Experiments.SurvivorsConcat | src/tests/chord_benchmark.py:463 | the filter keeps list order: the survivors of two lists in a row are those of the first followed by those of the second |
| Experiments.SurvivorCount | src/tests/chord_benchmark.py:462-463 | with distinct test nodes and crashes among them, exactly `|nodes| - |crashed|` survive |
| Experiments.CrashExpectsTheSurvivors | src/tests/chord_benchmark.py:462-472 | the expected size 32 - burst is exactly the number of survivors |
| Experiments.Repetitions | src/tests/chord_benchmark.py:300 | one record per repetition, in order, unless some repetition raised |
| Experiments.RunCases | src/tests/chord_benchmark.py:293-300 | the experiment finishes without exception iff every repetition of every case does, and then holds len(cases) x reps records |
| Experiments.RunCasesInOrder | src/tests/chord_benchmark.py:293-300 | the records come case after case in the loops' order: record i x reps + j is repetition j of case i |
| Experiments.Runs | src/tests/chord_benchmark.py:632 | `len(exp_results)`: the records of one experiment; `Experiments.RunsPartition` shows the three counts sum to all records |
| Experiments.Successes | src/tests/chord_benchmark.py:638 | `len(successful)`: the successful records of one experiment; `Experiments.SuccessesWithinRuns` bounds it by the runs |
| Experiments.RunsPartition | src/tests/chord_benchmark.py:631-632 | the per-experiment run counts of the summary add up to all records |
| Experiments.SuccessesWithinRuns | src/tests/chord_benchmark.py:637-638 | the successful runs of an experiment are among its runs |
| Experiments.RunsWithBurst | src/tests/chord_benchmark.py:565-571 | the size of one burst's group in the crash plot: the crash records whose network size minus target size is that burst; `Experiments.CrashGroupsHoldEveryRepetition` counts it |
| Experiments.CrashGroupsHoldEveryRepetition | src/tests/chord_benchmark.py:562-571 | running the crash experiment puts exactly `repetitions` records into the plot group of each burst size |
| Throughput.GetNodeList | src/tests/throughput.py:314-317 | ValueError "Not enough nodes provided" iff count exceeds the list; otherwise count nodes from the list, distinct when the list is |
| Throughput.InfoPasses | src/tests/throughput.py:185-196 | one node's info passes when it is present with a successor, and with a predecessor unless the list has a single node |
| Throughput.StabilityRound | src/tests/throughput.py:167-196 | a round passes iff every listed node returns an info with a successor and, when more than one node is listed, a predecessor |
| Throughput.CheckNetworkStability | src/tests/throughput.py:165-209 | true iff some round started before the deadline passes |
| Throughput.ServedInfo | src/webserver/src/api.rs:83-90 | what GET /node-info answers, read as the throughput script reads it: the viewmodel's successor label, and no predecessor |
| Throughput.ServedInfoRounds | src/tests/throughput.py:183-196 | against `/node-info` bodies as the node serves them, a round over two or more nodes never passes, and a round over one node does |
| Throughput.RunTest | src/tests/throughput.py:28-75 | the first put that raises ends the test; otherwise the first read that raises, or the first that does not give the written value, ends it; the test completes with 2 x len(pairs) operations iff every put returns and every read gives its pair's value |
| Throughput.OneMapPassesReadBack | src/tests/throughput.py:32-43 | a cluster acting as one last-writer-wins map returns each pair's own value, as the keys of a dict are distinct |
| Throughput.RecoverAndReset | src/tests/throughput.py:224-235 | each node gets a recover and then a reset, node by node in list order |
| Throughput.Plan | src/tests/throughput.py:224-255 | the calls of a setup that succeeds: recover and reset each node in order, then join every later node via the first; `Throughput.PlanJoinsViaFirst` states its shape |
| Throughput.PlanJoinsViaFirst | src/tests/throughput.py:242-255 | after all recoveries and resets, every node after the first joins via the first, in list order |
| Throughput.SetupChordRing | src/tests/throughput.py:211-269 | false with no call for an empty list; the calls made are a prefix of the plan and stop at the first failing call; true iff every planned call succeeds and the network stabilises |

## Left out

- SHA-1: the digest is a parameter, any function from strings to 20 bytes; only the truncation in `hash_key` is modelled.
- HTTP transport, JSON encoding and decoding, and the reqwest client: each call's outcome is a parameter, such as a `NodeInfo`, a `ForwardReply`, a success flag or a read value.
- Locks, atomics and async tasks (tokio `RwLock`, `tokio::time::timeout`, `AtomicBool`, `AtomicU64`), and the Actix `Transform`/`Service` plumbing. A lock timeout is the `locked` flag; every operation is a pure function of the state.
- `join_prepare`, `join_apply`, `leave_prepare` and `leave_apply`, which `post_join` and `post_leave` call. Their bodies are not in the source files; only the parameter checks of `post_join` are modelled.
- `get_known_nodes` in `api.rs:92-99`: it calls `get_all_nodes`, which `chord.rs` does not define. `Chord.GetKnownNodes` models the list builder that does exist.
- `helloworld`, `ping_handler`, `get_successor`, `get_predecessor`, `post_sim_crash` and `post_sim_recover` in `api.rs`: each returns a field or calls one `CrashState` operation, all of which are modelled.
- `src/webserver/src/network.rs`, and `forward_get`/`forward_put` in `chord_handler.rs`: HTTP forwarding. Their hop guard and next hop reuse `responsible_for` and `closest_preceding_node`, which are modelled.
- The interval functions, `responsible_for`, `closest_preceding_node` and `get_known_nodes` of `chord_handler.rs` are textually those of `utils.rs` and `chord.rs`. They are shared rather than repeated; only the 64-bit hash differs (`ChordHandler.ResponsibleFor64`).
- Server bootstrap (`src/webserver/src/main.rs`, `src/main.rs`), the maintenance loop and `MAINTENANCE_INTERVAL_MS`, `src/deploy`, `src/tests/health_check.py` and `precode/`: process, network and argument handling.
- Wall-clock time and `time.sleep`: the clock is a sequence of integer readings that strictly increase. Durations are integers, not floats.
- `random.sample` and `random.choice`: picks are inputs. `GetNodeList` takes the sampled positions. The experiments take the number of live nodes and the waits' outcomes. `RunTest` takes whatever each read returns.
- Plotting, numpy means and deviations, throughput arithmetic in floating point, `ResultsCollector`, and `PairGenerator` (uuid and random text).
- The actix header map: headers are a list of name/value pairs, and a lookup takes the first whose name equals the asked name up to ASCII case. Multiple values under one name and non-ASCII header bytes are not modelled; a value `to_str` rejects would also fail the u32 parse, so it reads as zero either way.
- The HTTP status of a put in `throughput.py`: `put_value` reads the response and ignores its status, so only an exception (`putOk` false) stops `Throughput.RunTest`; timing and the throughput division are left out.
- Python's `int()` on a port text is the parameter `Cluster.portParses`.
- `std::str::from_utf8(&body)` in `put_storage` (`api.rs:69`) is abstracted: the handler receives the decoded text, or nothing when the body is not valid UTF-8, and then answers 400 "Value must be valid UTF-8".
- ChordHandler.SortById: states sortedness and permutation only. It does not state that `sort_by` is stable (equal ids keep their input order), although the insertion sort modelled is stable.
- ChordHandler.FingerTarget: with two members of equal id, Rust's `binary_search_by` may return either one. The model returns the first. Both have the same id, which is all the contract states.
- Activity.NewTimer: requires that `idle_limit_mins * 60` fits in a u64. Beyond that, Rust's multiplication overflows, and the configured value is 10.
- Api.Route: follows forwards only among the nodes of a given cluster map. A forward to any other label takes the fallback answer, and the recursion is bounded by the hop limit. Concurrent state changes during a lookup are not modelled.
- Experiments.Repetitions: the hard reset, sampling, joins and leaves before each wait are not modelled as calls. Only their effect on the record is, through the inputs.
