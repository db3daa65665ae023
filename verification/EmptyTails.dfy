/** When a frame whose fragments have all arrived is reported complete, in the sender's terms, and two runs in
    which the outcome is not what one would expect. */
module EmptyTails {
  import opened Machine
  import opened Protocol
  import opened ReassemblyModel
  import opened Assembly
  import opened ReassemblyRuns
  import FrozenKeys

  /** Every fragment of `key` announces `n` pieces and a tail of `tail` bytes. */
  ghost predicate Uniform(cfg: Config, e: Event, key: ReassemblyKey, n: nat, tail: nat) {
    e.Arrive? && e.packet.Valid() ==>
      var f := ParseFragment(cfg, e.packet);
      f.Some? && f.value.key == key ==> f.value.header.totalFrags == n && f.value.header.tailFragPayloadBytes == tail
  }

  /** A stored piece is not empty, unless it is the tail, which has the announced length. */
  ghost predicate Weighed(c: Context, n: nat, tail: nat) {
    && Coherent(c) && c.totalFrags == n && c.tailBytes == tail
    && forall i :: 0 <= i < n && c.received[i] ==> if i + 1 == n then c.sizes[i] == tail else c.sizes[i] > 0
  }

  lemma CompleteIffTail(cfg: Config, mem: Memory, key: ReassemblyKey, c: Context, n: nat, tail: nat)
    requires Weighed(c, n, tail) && c.Complete()
    ensures MakeFrame(cfg, mem, key, c).isComplete <==> tail > 0
  {
    CompleteIffAllReceived(c);
    CompletedFrameIsReportedCompleteIff(cfg, mem, key, c);
    assert c.sizes[n - 1] == tail;
  }

  ghost predicate KeyWeighed(s: State, key: ReassemblyKey, n: nat, tail: nat) {
    key in s.contexts ==> Weighed(s.contexts[key], n, tail)
  }

  /** A frame of `key` that the last call added is complete exactly with a tail. */
  ghost predicate Reported(frames: seq<Frame>, frames': seq<Frame>, key: ReassemblyKey, tail: nat) {
    |frames'| > |frames| && frames'[|frames'| - 1].key == key ==> (frames'[|frames'| - 1].isComplete <==> tail > 0)
  }

  lemma StoreWeighs(cfg: Config, c: Context, f: Fragment, r: FragmentRef, n: nat, tail: nat)
    requires Weighed(c, n, tail) && Judge(cfg, c, f) == Store && RefSize(r) == f.size
    requires f.header.totalFrags == n && f.header.tailFragPayloadBytes == tail
    ensures Weighed(StoreFragment(c, f, r), n, tail)
  {
    StoreCoherent(cfg, c, f, r);
  }

  lemma SnapshotWeighs(c: Context, f: Fragment, n: nat, tail: nat)
    requires Weighed(c, n, tail)
    ensures Weighed(WithSnapshot(c, f), n, tail) && WithSnapshot(c, f).Shape()
  {
  }

  lemma FreshWeighs(f: Fragment, now: u64)
    requires 0 < f.header.totalFrags <= MAX_FRAGMENTS
    ensures Weighed(NewContext(f.header.totalFrags, f.header.tailFragPayloadBytes, f.header.dataTimestamp, now),
                    f.header.totalFrags, f.header.tailFragPayloadBytes)
  {
    NewContextCoherent(f.header.totalFrags, f.header.tailFragPayloadBytes, f.header.dataTimestamp, now);
  }

  lemma AddReports(cfg: Config, mem: Memory, s: State, f: Fragment, r: FragmentRef, carrier: Carrier, key: ReassemblyKey, n: nat, tail: nat)
    requires f.key in s.contexts && s.contexts[f.key].Shape() && WithSnapshot(s.contexts[f.key], f).Shape() && RefSize(r) == f.size
    requires KeyWeighed(s, key, n, tail)
    requires f.key == key ==> f.header.totalFrags == n && f.header.tailFragPayloadBytes == tail
    ensures var s' := AddToContext(cfg, mem, s, f, r, carrier);
      KeyWeighed(s', key, n, tail) && Reported(s.frames, s'.frames, key, tail)
  {
    hide Weighed, AddToContext, Complete, StoreFragment, WithSnapshot, MakeFrame;
    var c := WithSnapshot(s.contexts[f.key], f);
    AddCases(cfg, mem, s, f, r, carrier);
    if f.key == key {
      SnapshotWeighs(s.contexts[key], f, n, tail);
    }
    if Judge(cfg, c, f) == Store {
      StoreShaped(cfg, c, f, r);
      var c' := StoreFragment(c, f, r);
      if f.key == key {
        StoreWeighs(cfg, c, f, r, n, tail);
      }
      if c'.Complete() {
        CompleteEffect(cfg, mem, s.(contexts := s.contexts[f.key := c']), f.key, None);
        MadeKey(cfg, mem, f.key, c');
        if f.key == key {
          CompleteIffTail(cfg, mem, key, c', n, tail);
        }
      }
    }
  }

  lemma ProcessReports(cfg: Config, mem: Memory, s: State, p: ParsedPacket, carrier: Carrier, now: u64, key: ReassemblyKey, n: nat, tail: nat)
    requires p.Valid() && ContextsShaped(s) && cfg.Valid() && KeyWeighed(s, key, n, tail)
    requires Uniform(cfg, Arrive(p, carrier, now, mem), key, n, tail)
    ensures var s' := Process(cfg, mem, s, p, carrier, now);
      KeyWeighed(s', key, n, tail) && Reported(s.frames, s'.frames, key, tail)
  {
    hide ParseFragment, AddToContext, ScanFrozen, MakeRef, Weighed, NewContext, WithSnapshot;
    match ParseFragment(cfg, p)
    case None =>
    case Some(f) =>
      var scanned := s.(stats := s.stats.(received := s.stats.received + 1), frozen := ScanFrozen(s.frozen, f.key, now, 0).0);
      var readied := GetOrCreate(cfg, scanned, f, now);
      FreshWeighs(f, now);
      ReadiedShape(cfg, scanned, f, now);
      if f.key in readied.contexts {
        RefSizeOf(p.payload.value, carrier, f);
        AddReports(cfg, mem, readied, f, MakeRef(p.payload.value, carrier, f), carrier, key, n, tail);
      }
  }

  lemma {:induction false} ExpireAllWeighs(cfg: Config, s: State, order: seq<Stamp>, timeoutMs: u32, key: ReassemblyKey, n: nat, tail: nat)
    requires ContextsShaped(s) && KeyWeighed(s, key, n, tail)
    ensures KeyWeighed(ExpireAll(cfg, s, order, timeoutMs), key, n, tail)
  {
    hide Weighed, ExpireAll;
    ExpireAllRemoves(cfg, s, order, timeoutMs);
  }

  lemma {:induction false} RunWeighs(cfg: Config, events: seq<Event>, key: ReassemblyKey, n: nat, tail: nat)
    requires cfg.Valid() && PacketsValid(events) && forall i :: 0 <= i < |events| ==> Uniform(cfg, events[i], key, n, tail)
    ensures KeyWeighed(RunFrom(cfg, Initial(cfg), events), key, n, tail)
  {
    if events != [] {
      hide KeyWeighed, Process, ExpireAll, Reported;
      var front, e := events[..|events| - 1], events[|events| - 1];
      RunWeighs(cfg, front, key, n, tail);
      var s := RunFrom(cfg, Initial(cfg), front);
      match e
      case Arrive(p, carrier, now, mem) => ProcessReports(cfg, mem, s, p, carrier, now, key, n, tail);
      case Sweep(_, order, timeoutMs) => ExpireAllWeighs(cfg, s, order, timeoutMs, key, n, tail);
      case FlushAll(order, timeoutMs) => ExpireAllWeighs(cfg, s, order, timeoutMs, key, n, tail);
    } else {
      assert key !in Initial(cfg).contexts;
    }
  }

  /** After any run in which the fragments of a key agree, the frame that the arrival of its last piece emits is
      reported complete if and only if the sender's tail is not empty. */
  lemma ArrivalCompletesIffTail(cfg: Config, events: seq<Event>, e: Event, key: ReassemblyKey, n: nat, tail: nat)
    requires cfg.Valid() && PacketsValid(events) && e.Arrive? && e.packet.Valid() && Uniform(cfg, e, key, n, tail)
    requires forall i :: 0 <= i < |events| ==> Uniform(cfg, events[i], key, n, tail)
    ensures var s := RunFrom(cfg, Initial(cfg), events); Reported(s.frames, Step(cfg, s, e).frames, key, tail)
  {
    RunWeighs(cfg, events, key, n, tail);
    ProcessReports(cfg, e.mem, RunFrom(cfg, Initial(cfg), events), e.packet, e.carrier, e.now, key, n, tail);
  }

  // ----- two runs -----

  /** A packet for piece `i` of `n`, all other fields zero. */
  function Piece(i: u16, n: u16, tail: u16, body: Bytes): (p: ParsedPacket)
    requires SPECIFIC_HEADER_SIZE + |body| < TWO16
    ensures p.Valid()
  {
    ParsedPacket(ZERO_HEADER.(payloadLen := SPECIFIC_HEADER_SIZE + |body|), Some(EncodeSpecific(PieceHeader(i, n, tail)) + body))
  }

  function PieceHeader(i: u16, n: u16, tail: u16): DataSpecificHeader {
    DataSpecificHeader(0, 0, 0, 0, 0, 0, 0, 0, 0, i, n, tail)
  }

  const ZERO_SNAPSHOT: Bytes := Zeros(SNAPSHOT_SIZE)

  /** The packet of a tail parses as the tail it carries. */
  lemma TailParses(cfg: Config, n: u16, tail: Bytes)
    requires 0 < n <= cfg.maxTotalFrags && SPECIFIC_HEADER_SIZE + SNAPSHOT_SIZE + |tail| < TWO16
    ensures ParseFragment(cfg, Piece(n - 1, n, |tail|, ZERO_SNAPSHOT + tail))
         == Some(Fragment(NO_KEY, PieceHeader(n - 1, n, |tail|), Some(ZERO_SNAPSHOT), SPECIFIC_HEADER_SIZE + SNAPSHOT_SIZE, |tail|))
  {
    hide EncodeSpecific, DecodeSpecific;
    var h := PieceHeader(n - 1, n, |tail|);
    SpecificHeaderRoundTrip(h, ZERO_SNAPSHOT + tail);
    var payload := EncodeSpecific(h) + (ZERO_SNAPSHOT + tail);
    assert payload[SPECIFIC_HEADER_SIZE..SPECIFIC_HEADER_SIZE + SNAPSHOT_SIZE] == ZERO_SNAPSHOT;
  }

  /** The context of a frame of which only the tail has arrived. */
  function TailOnly(n: u16, tail: Bytes, now: u64): (c: Context)
    requires 0 < n <= MAX_FRAGMENTS && |tail| < TWO16
    ensures c.Shape()
  {
    var c := NewContext(n, |tail|, 0, now).(snapshot := Some(ZERO_SNAPSHOT));
    c.(refs := c.refs[n - 1 := if tail == [] then NoData else Heap(tail)], sizes := c.sizes[n - 1 := |tail|],
       received := c.received[n - 1 := true], receivedCount := 1, receivedBytes := |tail|)
  }

  /** The state after a tail has arrived in an empty table. */
  lemma TailArrives(cfg: Config, n: u16, tail: Bytes, now: u64)
    requires cfg.Valid() && cfg.maxContexts > 0 && 0 < n <= cfg.maxTotalFrags && |tail| <= cfg.maxReasmBytes
    requires SPECIFIC_HEADER_SIZE + SNAPSHOT_SIZE + |tail| < TWO16
    ensures var s := Process(cfg, map[], Initial(cfg), Piece(n - 1, n, |tail|, ZERO_SNAPSHOT + tail), Copied, now);
      if n == 1 then s.frames == [MakeFrame(cfg, map[], NO_KEY, TailOnly(n, tail, now))] && s.contexts == map[]
      else s.frames == [] && s.contexts == map[NO_KEY := TailOnly(n, tail, now)]
  {
    hide ScanFrozen, AddToContext, Complete, MakeFrame, ParseFragment;
    var p := Piece(n - 1, n, |tail|, ZERO_SNAPSHOT + tail);
    TailParses(cfg, n, tail);
    var f := ParseFragment(cfg, p).value;
    FrozenKeys.ScanSpec(Initial(cfg).frozen, NO_KEY, now, 0);
    var scanned := Initial(cfg).(stats := Initial(cfg).stats.(received := 1), frozen := ScanFrozen(Initial(cfg).frozen, NO_KEY, now, 0).0);
    var readied := GetOrCreate(cfg, scanned, f, now);
    var blank := NewContext(n, |tail|, 0, now);
    assert readied.contexts == map[NO_KEY := blank];
    assert p.payload.value[f.start..f.start + f.size] == tail;
    var r := MakeRef(p.payload.value, Copied, f);
    AddCases(cfg, map[], readied, f, r, Copied);
    assert StoreFragment(WithSnapshot(blank, f), f, r) == TailOnly(n, tail, now);
    if n == 1 {
      CompleteEffect(cfg, map[], readied.(contexts := readied.contexts[NO_KEY := TailOnly(n, tail, now)]), NO_KEY, None);
    }
  }

  /** A frame of one empty piece: the piece arrives, the frame goes out, and is called incomplete, with the piece
      that arrived as missing. */
  lemma EmptyTailIsReportedMissing()
    ensures var cfg := Config(1, 1, 0, 0);
      var s := RunFrom(cfg, Initial(cfg), [Arrive(Piece(0, 1, 0, ZERO_SNAPSHOT), Copied, 0, map[])]);
      |s.frames| == 1 && !s.frames[0].isComplete && s.frames[0].missing == [0] && s.contexts == map[]
  {
    var cfg := Config(1, 1, 0, 0);
    var e := Arrive(Piece(0, 1, 0, ZERO_SNAPSHOT), Copied, 0, map[]);
    OneEvent(cfg, e);
    assert ZERO_SNAPSHOT + [] == ZERO_SNAPSHOT;
    TailArrives(cfg, 1, [], 0);
    var c := TailOnly(1, [], 0);
    assert Missing(c, 1) == Missing(c, 0) + [0];
  }

  lemma OneEvent(cfg: Config, e: Event)
    requires cfg.Valid() && (e.Arrive? ==> e.packet.Valid())
    ensures RunFrom(cfg, Initial(cfg), [e]) == Step(cfg, Initial(cfg), e)
  {
    assert [e][..0] == [];
  }

  /** A frame of two pieces of one byte, of which only the tail arrives before a flush, where the configured length
      of a full piece is 0: the tail comes out where the lost piece should be. */
  lemma TailAloneIsShifted()
    ensures var cfg, chunks := Config(1, 2, 0, 100), [[7], [9]];
      var events := [Arrive(Piece(1, 2, 1, ZERO_SNAPSHOT + [9]), Copied, 0, map[]), FlushAll([Stamp(NO_KEY, 0, map[])], 0)];
      var s := RunFrom(cfg, Initial(cfg), events);
      && |s.frames| == 1 && s.frames[0].data == [9] && s.frames[0].missing == [0]
      && Masked(chunks, [false, true]) == [0, 9]
  {
    hide Process, ExpireAll, MakeFrame, Masked, Piece;
    var cfg := Config(1, 2, 0, 100);
    var e, order := Arrive(Piece(1, 2, 1, ZERO_SNAPSHOT + [9]), Copied, 0, map[]), [Stamp(NO_KEY, 0, map[])];
    TailArrives(cfg, 2, [9], 0);
    OneEvent(cfg, e);
    var events := [e, FlushAll(order, 0)];
    assert events[..1] == [e];
    FlushOfOne(cfg, RunFrom(cfg, Initial(cfg), [e]), TailOnly(2, [9], 0));
    TailAloneFrame(cfg, TailOnly(2, [9], 0));
    MaskedPair();
  }

  lemma FlushOfOne(cfg: Config, s: State, c: Context)
    requires ContextsShaped(s) && c.Shape() && s.contexts == map[NO_KEY := c] && s.frames == []
    ensures ExpireAll(cfg, s, [Stamp(NO_KEY, 0, map[])], 0).frames == [MakeFrame(cfg, map[], NO_KEY, c)]
  {
    hide Complete, MakeFrame;
    assert [Stamp(NO_KEY, 0, map[])][..0] == [];
    CompleteEffect(cfg, map[], s, NO_KEY, Some(0));
  }

  lemma MaskedPair()
    ensures Masked([[7], [9]], [false, true]) == [0, 9]
  {
    var chunks: seq<Bytes> := [[7], [9]];
    assert chunks[..1] == [[7]] && [false, true][..1] == [false];
    assert Masked([[7]], [false]) == Masked([], []) + [0];
  }

  lemma TailAloneFrame(cfg: Config, c: Context)
    requires c == TailOnly(2, [9], 0) && cfg.sampleCountFixed == 0
    ensures MakeFrame(cfg, map[], NO_KEY, c).data == [9] && MakeFrame(cfg, map[], NO_KEY, c).missing == [0]
  {
    assert InferSize(cfg, NO_KEY, c, 0) == 0;
    assert Chunk(cfg, map[], NO_KEY, c, 0) == [] && Chunk(cfg, map[], NO_KEY, c, 1) == [9];
    assert Assembled(cfg, map[], NO_KEY, c, 1) == Assembled(cfg, map[], NO_KEY, c, 0) + [];
    assert Missing(c, 1) == Missing(c, 0) + [0];
  }
}
