/** The reference behaviour of the reorderer: a plain map from sequence number to packet.
    The ring, the rotating base index and the bitmap of the implementation are proved against
    this model in module `ReorderRing`. */
module ReorderModel {
  import opened Machine
  import opened Protocol

  datatype Config = Config(window: nat, zeroFill: bool)

  datatype Packet = Packet(header: CommonHeader, payload: Bytes)

  datatype OrderedPacket = OrderedPacket(
    header: CommonHeader, payload: Bytes, totalSize: nat,
    isZeroFilled: bool, isIncompleteFrame: bool, sequenceNumber: u32)

  datatype Statistics = Statistics(
    inOrder: nat, outOfOrder: nat, duplicate: nat, zeroFilled: nat, advanced: nat, buffered: nat)

  /** `log` is everything handed to the output callback so far. */
  datatype State = State(
    initialized: bool, next: u32, pending: map<u32, Packet>,
    stats: Statistics, lastAdvance: int, log: seq<OrderedPacket>)

  function Initial(start: int): State {
    State(false, 0, map[], Statistics(0, 0, 0, 0, 0, 0), start, [])
  }

  function Delivered(p: Packet, sequence: u32): OrderedPacket {
    OrderedPacket(p.header, p.payload, COMMON_HEADER_SIZE + |p.payload|, false, p.header.extFlags % 2 == 1, sequence)
  }

  function ZeroFilled(sequence: u32): OrderedPacket {
    OrderedPacket(
      ZERO_HEADER.(magic := PROTOCOL_MAGIC, sequenceNumber := sequence, packetType := PACKET_TYPE_DATA,
                   protocolVersion := PROTOCOL_VERSION, payloadLen := 0),
      [], COMMON_HEADER_SIZE, true, true, sequence)
  }

  /** Move the window one number forward. */
  function Advance(s: State, now: int): State {
    s.(next := Add32(s.next, 1), stats := s.stats.(advanced := s.stats.advanced + 1), lastAdvance := now)
  }

  function Emit(s: State, p: Packet, now: int): State {
    Advance(s.(log := s.log + [Delivered(p, s.next)], stats := s.stats.(inOrder := s.stats.inOrder + 1)), now)
  }

  /** Deliver the pending packet that is next in line and take it out of the buffer. */
  function EmitHead(s: State, now: int): State
    requires s.next in s.pending
  {
    var out := Emit(s, s.pending[s.next], now);
    out.(pending := s.pending - {s.next},
         stats := out.stats.(buffered := if s.stats.buffered > 0 then s.stats.buffered - 1 else 0))
  }

  /** Deliver the contiguous run of pending packets at the head of the window. */
  function Drain(s: State, now: int): State
    decreases |s.pending|
  {
    if s.next in s.pending then
      assert |s.pending - {s.next}| < |s.pending| by { RemovedKey(s.pending, s.next); }
      Drain(EmitHead(s, now), now)
    else s
  }

  lemma RemovedKey<K, V>(m: map<K, V>, k: K)
    requires k in m
    ensures |m - {k}| == |m| - 1
  {
  }

  function Duplicate(s: State): State {
    s.(stats := s.stats.(duplicate := s.stats.duplicate + 1))
  }

  /** The first packet fixes where the window starts. */
  function Start(s: State, sequence: u32): State {
    if s.initialized then s else s.(initialized := true, next := sequence)
  }

  function InsertStarted(cfg: Config, s: State, p: Packet, now: int): State {
    var sequence := p.header.sequenceNumber;
    if sequence == s.next then
      Drain(Emit(s, p, now), now)
    else if !IsSequenceNewer(sequence, s.next) || Sub32(sequence, s.next) >= cfg.window % TWO32 || sequence in s.pending then
      Duplicate(s)
    else
      s.(pending := s.pending[sequence := p],
         stats := s.stats.(outOfOrder := s.stats.outOfOrder + 1, buffered := s.stats.buffered + 1))
  }

  function Insert(cfg: Config, s: State, p: Packet, now: int): State {
    InsertStarted(cfg, Start(s, p.header.sequenceNumber), p, now)
  }

  function FillGap(cfg: Config, s: State): State {
    if cfg.zeroFill then
      s.(log := s.log + [ZeroFilled(s.next)], stats := s.stats.(zeroFilled := s.stats.zeroFilled + 1))
    else s
  }

  predicate Fires(s: State, now: int, timeoutMs: u32) {
    s.initialized && ElapsedMs(now, s.lastAdvance) >= timeoutMs
  }

  function Timeout(cfg: Config, s: State, now: int, timeoutMs: u32): State {
    if Fires(s, now, timeoutMs) then Drain(Advance(FillGap(cfg, s), now), now) else s
  }

  ghost function Least(keys: set<u32>): (least: u32)
    requires keys != {}
    ensures least in keys
    ensures forall k :: k in keys ==> least <= k
    decreases |keys|
  {
    var x :| x in keys;
    assert forall k :: k in keys ==> k == x || k in keys - {x};
    if keys - {x} == {} then x
    else
      var m := Least(keys - {x});
      if x <= m then x else m
  }

  /** The members of a set of sequence numbers, smallest raw number first. */
  ghost function Ascending(keys: set<u32>): seq<u32>
    decreases |keys|
  {
    if keys == {} then [] else [Least(keys)] + Ascending(keys - {Least(keys)})
  }

  lemma {:induction false} AscendingMembers(keys: set<u32>)
    ensures |Ascending(keys)| == |keys|
    ensures forall k :: k in Ascending(keys) <==> k in keys
    decreases |keys|
  {
    if keys != {} {
      AscendingMembers(keys - {Least(keys)});
    }
  }

  lemma LeastIsBelowTheRest(keys: set<u32>)
    requires keys != {}
    ensures forall k :: k in keys - {Least(keys)} ==> Least(keys) < k
  {
  }

  lemma {:induction false} AscendingSorted(keys: set<u32>)
    ensures IsAscending(Ascending(keys))
    decreases |keys|
  {
    if keys != {} {
      hide Least, IsAscending;
      var rest := keys - {Least(keys)};
      LeastIsBelowTheRest(keys);
      AscendingSorted(rest);
      AscendingMembers(rest);
      PrependSmaller(Least(keys), Ascending(rest));
    }
  }

  lemma PrependSmaller(x: u32, r: seq<u32>)
    requires IsAscending(r) && forall k :: k in r ==> x < k
    ensures IsAscending([x] + r)
  {
    forall i, j | 0 <= i < j < |[x] + r| ensures ([x] + r)[i] < ([x] + r)[j] {
      assert r[j - 1] in r;
    }
  }

  predicate IsAscending(r: seq<u32>) {
    forall i, j :: 0 <= i < j < |r| ==> r[i] < r[j]
  }

  /** Two strictly ascending listings of the same numbers are the same listing. */
  lemma {:induction false} AscendingUnique(a: seq<u32>, b: seq<u32>)
    requires IsAscending(a) && IsAscending(b)
    requires forall k :: k in a <==> k in b
    ensures a == b
  {
    if a == [] {
      NoneListed(b, a);
    } else if b == [] {
      NoneListed(a, b);
    } else {
      assert a[0] in b && b[0] in a;
      FirstIsLeast(a, b);
      FirstIsLeast(b, a);
      RestIsTheSame(a, b);
      AscendingUnique(a[1..], b[1..]);
    }
  }

  lemma NoneListed(s: seq<u32>, none: seq<u32>)
    requires none == [] && forall k :: k in s ==> k in none
    ensures s == []
  {
    SomeListed(s);
  }

  lemma SomeListed(s: seq<u32>)
    ensures s != [] ==> exists k :: k in s
  {
    if s != [] {
      assert s[0] in s;
    }
  }

  lemma FirstIsLeast(a: seq<u32>, b: seq<u32>)
    requires IsAscending(a) && a != [] && b != [] && b[0] in a
    ensures a[0] <= b[0]
  {
  }

  lemma RestIsTheSame(a: seq<u32>, b: seq<u32>)
    requires IsAscending(a) && IsAscending(b) && a != [] && b != [] && a[0] == b[0] && forall k :: k in a <==> k in b
    ensures forall k :: k in a[1..] <==> k in b[1..]
    ensures IsAscending(a[1..]) && IsAscending(b[1..])
  {
    forall k ensures k in a[1..] <==> k in b[1..] {
      assert k in a <==> k == a[0] || k in a[1..];
      assert k in b <==> k == b[0] || k in b[1..];
    }
  }

  /** The packets of `pending` named by `order`, as they are delivered. */
  function Deliveries(pending: map<u32, Packet>, order: seq<u32>): (out: seq<OrderedPacket>)
    requires forall k :: k in order ==> k in pending
    ensures |out| == |order|
  {
    seq(|order|, i requires 0 <= i < |order| => Delivered(pending[order[i]], order[i]))
  }

  ghost function Flush(s: State): State {
    AscendingMembers(s.pending.Keys);
    s.(log := s.log + Deliveries(s.pending, Ascending(s.pending.Keys)),
       pending := map[],
       stats := s.stats.(inOrder := s.stats.inOrder + |s.pending|, buffered := 0))
  }

  // ----- runs -----

  datatype Event =
    | Arrive(packet: Packet, now: int)
    | Tick(now: int, timeoutMs: u32)
    | FlushAll

  ghost function Step(cfg: Config, s: State, e: Event): State {
    match e
    case Arrive(p, now) => Insert(cfg, s, p, now)
    case Tick(now, timeoutMs) => Timeout(cfg, s, now, timeoutMs)
    case FlushAll => Flush(s)
  }

  ghost function Run(cfg: Config, start: int, events: seq<Event>): State {
    if events == [] then Initial(start)
    else Step(cfg, Run(cfg, start, events[..|events| - 1]), events[|events| - 1])
  }
}
