/** The behaviour of the reassembler on values: contexts, fragments, assembly, timeouts and the ring of
    frozen keys. Module `ReassemblerClass` proves the imperative form against these functions. */
module ReassemblyModel {
  import opened Machine
  import opened Protocol

  const MAX_FRAGMENTS: nat := 1024

  datatype Config = Config(maxContexts: nat, maxTotalFrags: u16, sampleCountFixed: nat, maxReasmBytes: nat) {
    /** The configuration loader admits no more fragments than the received bitset has bits. */
    predicate Valid() {
      0 < maxTotalFrags <= MAX_FRAGMENTS
    }

    function FrozenCapacity(): nat {
      if maxContexts * 2 < 1 then 1 else maxContexts * 2
    }
  }

  // ----- fragments and the memory they live in -----

  /** The contents of the pool's buffers. */
  type Memory = map<nat, Bytes>

  /** A stored fragment: a heap copy, or a stretch of a pool buffer this reference owns. */
  datatype FragmentRef = NoData | Heap(bytes: Bytes) | Pooled(buffer: nat, start: nat, size: nat)

  function RefSize(r: FragmentRef): nat {
    match r
    case NoData => 0
    case Heap(bytes) => |bytes|
    case Pooled(_, _, size) => size
  }

  function Zeros(n: nat): (z: Bytes)
    ensures |z| == n
  {
    seq(n, _ => 0)
  }

  lemma ZerosAreZero(n: nat, i: nat)
    requires i < n
    ensures Zeros(n)[i] == 0
  {
  }

  /** The bytes the reference denotes now; a reference outside its buffer would denote garbage. */
  function RefBytes(mem: Memory, r: FragmentRef): (b: Bytes)
    ensures |b| == RefSize(r)
  {
    match r
    case NoData => []
    case Heap(bytes) => bytes
    case Pooled(buffer, start, size) =>
      if buffer in mem && start + size <= |mem[buffer]| then mem[buffer][start..start + size] else Zeros(size)
  }

  predicate HasData(r: FragmentRef) {
    RefSize(r) > 0
  }

  // ----- contexts and frames -----

  datatype Context = Context(
    totalFrags: u16, tailBytes: u16, firstFragTime: u64, dataTimestamp: u64, snapshot: Option<Bytes>,
    received: seq<bool>, sizes: seq<nat>, refs: seq<FragmentRef>, receivedCount: nat, receivedBytes: nat)
  {
    /** The tables have one slot per fragment and the bitset one bit per possible fragment. */
    predicate Shape() {
      |received| == MAX_FRAGMENTS && 0 < totalFrags <= MAX_FRAGMENTS && |sizes| == |refs| == totalFrags
    }

    predicate Present(i: nat)
      requires Shape() && i < totalFrags
    {
      received[i] && HasData(refs[i])
    }

    predicate Complete() {
      receivedCount == totalFrags
    }

    /** `now - firstFragTime >= timeoutMs` in uint64_t arithmetic. */
    predicate TimedOut(now: u64, timeoutMs: u32) {
      (now - firstFragTime) % TWO64 >= timeoutMs
    }
  }

  function NewContext(totalFrags: u16, tailBytes: u16, dataTimestamp: u64, now: u64): Context {
    Context(totalFrags, tailBytes, now, dataTimestamp, None,
            seq(MAX_FRAGMENTS, _ => false), seq(totalFrags, _ => 0), seq(totalFrags, _ => NoData), 0, 0)
  }

  datatype Frame = Frame(
    key: ReassemblyKey, data: Bytes, dataTimestamp: u64, snapshot: Option<Bytes>, isComplete: bool, missing: seq<nat>)

  datatype Statistics = Statistics(
    received: nat, duplicate: nat, late: nat, completed: nat, incomplete: nat,
    missing: nat, created: nat, destroyed: nat, overflow: nat, bytesOverflow: nat)

  datatype FrozenEntry = FrozenEntry(key: ReassemblyKey, expireMs: u64, valid: bool)

  /** `frames` is everything handed to the callback, `returned` every buffer given back to the pool. */
  datatype State = State(
    contexts: map<ReassemblyKey, Context>, frozen: seq<FrozenEntry>, frozenNext: nat,
    stats: Statistics, frames: seq<Frame>, returned: seq<nat>)

  const NO_KEY := ReassemblyKey(0, 0, 0, 0, 0, 0, 0, 0)

  function Initial(cfg: Config): State {
    State(map[], seq(cfg.FrozenCapacity(), _ => FrozenEntry(NO_KEY, 0, false)), 0,
          Statistics(0, 0, 0, 0, 0, 0, 0, 0, 0, 0), [], [])
  }

  // ----- assembly -----

  /** The length of a full fragment when none has arrived to tell. */
  function DefaultSize(cfg: Config, key: ReassemblyKey): nat {
    cfg.sampleCountFixed * (if key.dataType == 0x02 then 8 else 4) * Popcount(key.channelMask)
  }

  /** The first non-tail fragment from `i` on whose length is known. */
  function FirstKnownSize(c: Context, i: nat): Option<nat>
    requires c.Shape()
    decreases |c.sizes| - i
  {
    if i + 1 >= c.totalFrags then None
    else if c.sizes[i] > 0 then Some(c.sizes[i])
    else FirstKnownSize(c, i + 1)
  }

  function InferSize(cfg: Config, key: ReassemblyKey, c: Context, i: nat): nat
    requires c.Shape()
  {
    if i + 1 == c.totalFrags then c.tailBytes
    else match FirstKnownSize(c, 0)
      case Some(n) => n
      case None => DefaultSize(cfg, key)
  }

  function Chunk(cfg: Config, mem: Memory, key: ReassemblyKey, c: Context, i: nat): Bytes
    requires c.Shape() && i < c.totalFrags
  {
    if c.Present(i) then RefBytes(mem, c.refs[i]) else Zeros(InferSize(cfg, key, c, i))
  }

  /** The first `n` fragments laid end to end, a missing one as zeros of its inferred length. */
  function Assembled(cfg: Config, mem: Memory, key: ReassemblyKey, c: Context, n: nat): Bytes
    requires c.Shape() && n <= c.totalFrags
  {
    if n == 0 then [] else Assembled(cfg, mem, key, c, n - 1) + Chunk(cfg, mem, key, c, n - 1)
  }

  function Missing(c: Context, n: nat): seq<nat>
    requires c.Shape() && n <= c.totalFrags
  {
    if n == 0 then [] else Missing(c, n - 1) + if c.Present(n - 1) then [] else [n - 1]
  }

  function MakeFrame(cfg: Config, mem: Memory, key: ReassemblyKey, c: Context): Frame
    requires c.Shape()
  {
    Frame(key, Assembled(cfg, mem, key, c, c.totalFrags), c.dataTimestamp, c.snapshot,
          Missing(c, c.totalFrags) == [], Missing(c, c.totalFrags))
  }

  // ----- the ring of frozen keys -----

  /** Scan the ring from `i`: expire what is over and stop at a live entry for `key`. */
  function ScanFrozen(ring: seq<FrozenEntry>, key: ReassemblyKey, now: u64, i: nat): (r: (seq<FrozenEntry>, bool))
    requires i <= |ring|
    ensures |r.0| == |ring|
    decreases |ring| - i
  {
    if i == |ring| then (ring, false)
    else if !ring[i].valid then ScanFrozen(ring, key, now, i + 1)
    else if ring[i].expireMs <= now then ScanFrozen(ring[i := ring[i].(valid := false)], key, now, i + 1)
    else if ring[i].key == key then (ring, true)
    else ScanFrozen(ring, key, now, i + 1)
  }

  /** The first valid entry for `key` from `i` on, or the length of the ring. */
  function FindFrozen(ring: seq<FrozenEntry>, key: ReassemblyKey, i: nat): (r: nat)
    requires i <= |ring|
    ensures i <= r <= |ring|
    ensures r < |ring| ==> ring[r].valid && ring[r].key == key
    ensures forall j :: i <= j < r ==> !(ring[j].valid && ring[j].key == key)
    decreases |ring| - i
  {
    if i == |ring| || (ring[i].valid && ring[i].key == key) then i else FindFrozen(ring, key, i + 1)
  }

  function AddFrozen(s: State, key: ReassemblyKey, expireMs: u64): State {
    if |s.frozen| == 0 || s.frozenNext >= |s.frozen| then s
    else
      var at := FindFrozen(s.frozen, key, 0);
      if at < |s.frozen| then s.(frozen := s.frozen[at := s.frozen[at].(expireMs := expireMs)])
      else s.(frozen := s.frozen[s.frozenNext := FrozenEntry(key, expireMs, true)],
              frozenNext := (s.frozenNext + 1) % |s.frozen|)
  }

  // ----- completion -----

  /** The buffers a context owns, in fragment order. */
  function HeldBuffers(refs: seq<FragmentRef>): seq<nat> {
    if refs == [] then []
    else HeldBuffers(refs[..|refs| - 1]) + match refs[|refs| - 1]
      case Pooled(buffer, _, _) => [buffer]
      case _ => []
  }

  function CountFrame(stats: Statistics, f: Frame, timedOut: bool): Statistics {
    if |f.missing| == 0 && !timedOut then stats.(completed := stats.completed + 1)
    else stats.(incomplete := stats.incomplete + 1, missing := stats.missing + |f.missing|)
  }

  function Destroy(s: State, key: ReassemblyKey): State
    requires key in s.contexts
  {
    s.(contexts := s.contexts - {key},
       stats := s.stats.(destroyed := s.stats.destroyed + 1),
       returned := s.returned + HeldBuffers(s.contexts[key].refs))
  }

  /** Emit the frame of `key`; a timed-out key is frozen until `expireMs`. */
  function Complete(cfg: Config, mem: Memory, s: State, key: ReassemblyKey, expireMs: Option<u64>): State
    requires key in s.contexts && s.contexts[key].Shape()
  {
    var f := MakeFrame(cfg, mem, key, s.contexts[key]);
    var emitted := s.(frames := s.frames + [f], stats := CountFrame(s.stats, f, expireMs.Some?));
    var frozen := if expireMs.Some? then AddFrozen(emitted, key, expireMs.value) else emitted;
    Destroy(frozen, key)
  }

  // ----- arrival of a packet -----

  /** What a packet turns out to carry: `start` and `size` delimit the fragment within the payload. */
  datatype Fragment = Fragment(key: ReassemblyKey, header: DataSpecificHeader, snapshot: Option<Bytes>, start: nat, size: nat)

  function ParseFragment(cfg: Config, p: ParsedPacket): (r: Option<Fragment>)
    requires p.Valid()
    ensures r.Some? ==> p.payload.Some? && r.value.start + r.value.size == p.header.payloadLen
    ensures r.Some? ==> 0 < r.value.header.totalFrags <= cfg.maxTotalFrags && r.value.header.fragIndex < r.value.header.totalFrags
  {
    if p.payload.None? || p.header.payloadLen < SPECIFIC_HEADER_SIZE then None
    else
      var payload := p.payload.value;
      var h := DecodeSpecific(payload);
      if h.totalFrags == 0 || h.totalFrags > cfg.maxTotalFrags || h.fragIndex >= h.totalFrags then None
      else
        var key := ExtractKey(p.header, h);
        if h.IsTailFragment() then
          var front := SPECIFIC_HEADER_SIZE + SNAPSHOT_SIZE;
          if p.header.payloadLen != front + h.tailFragPayloadBytes then None
          else Some(Fragment(key, h, Some(payload[SPECIFIC_HEADER_SIZE..front]), front, p.header.payloadLen - front))
        else Some(Fragment(key, h, None, SPECIFIC_HEADER_SIZE, p.header.payloadLen - SPECIFIC_HEADER_SIZE))
  }

  datatype Verdict = Reject | Repeated | TooLong | Store

  /** The checks of `add_fragment`, in its order. */
  function Judge(cfg: Config, c: Context, f: Fragment): Verdict
    requires c.Shape()
  {
    if f.header.fragIndex >= c.totalFrags || f.header.fragIndex >= MAX_FRAGMENTS then Reject
    else if c.received[f.header.fragIndex] then Repeated
    else if c.receivedBytes + f.size > cfg.maxReasmBytes then TooLong
    else if f.header.IsTailFragment() && f.size != c.tailBytes then Reject
    else if !f.header.IsTailFragment() && f.size == 0 then Reject
    else Store
  }

  /** Where the packet's bytes are: to be copied, or in a pool buffer handed over with the packet. */
  datatype Carrier = Copied | InBuffer(buffer: nat, offset: nat)

  function MakeRef(payload: Bytes, carrier: Carrier, f: Fragment): FragmentRef
    requires f.start + f.size <= |payload|
  {
    if f.size == 0 then NoData
    else match carrier
      case Copied => Heap(payload[f.start..f.start + f.size])
      case InBuffer(buffer, offset) => Pooled(buffer, offset + f.start, f.size)
  }

  function StoreFragment(c: Context, f: Fragment, r: FragmentRef): Context
    requires c.Shape() && f.header.fragIndex < c.totalFrags
  {
    var i := f.header.fragIndex;
    c.(refs := c.refs[i := r], sizes := c.sizes[i := f.size], received := c.received[i := true],
       receivedCount := c.receivedCount + 1, receivedBytes := c.receivedBytes + f.size)
  }

  function GetOrCreate(cfg: Config, s: State, f: Fragment, now: u64): State {
    if f.key in s.contexts then s
    else if |s.contexts| >= cfg.maxContexts then s.(stats := s.stats.(overflow := s.stats.overflow + 1))
    else s.(contexts := s.contexts[f.key := NewContext(f.header.totalFrags, f.header.tailFragPayloadBytes, f.header.dataTimestamp, now)],
            stats := s.stats.(created := s.stats.created + 1))
  }

  /** A buffer nobody took goes back when the call is over. */
  function GiveBack(s: State, carrier: Carrier): State {
    match carrier
    case Copied => s
    case InBuffer(buffer, _) => s.(returned := s.returned + [buffer])
  }

  function WithSnapshot(c: Context, f: Fragment): Context {
    if f.snapshot.Some? then c.(snapshot := f.snapshot) else c
  }

  /** All contexts have well-formed tables. */
  ghost predicate ContextsShaped(s: State) {
    forall k :: k in s.contexts ==> s.contexts[k].Shape()
  }

  function AddToContext(cfg: Config, mem: Memory, s: State, f: Fragment, r: FragmentRef, carrier: Carrier): State
    requires f.key in s.contexts && s.contexts[f.key].Shape()
  {
    var c := WithSnapshot(s.contexts[f.key], f);
    var noted := s.(contexts := s.contexts[f.key := c]);
    match Judge(cfg, c, f)
    case Reject => GiveBack(noted, carrier)
    case Repeated => GiveBack(noted.(stats := s.stats.(duplicate := s.stats.duplicate + 1)), carrier)
    case TooLong => GiveBack(noted.(stats := s.stats.(bytesOverflow := s.stats.bytesOverflow + 1)), carrier)
    case Store =>
      var c' := StoreFragment(c, f, r);
      var stored := s.(contexts := s.contexts[f.key := c']);
      var done := if c'.Complete() then Complete(cfg, mem, stored, f.key, None) else stored;
      if r.Pooled? then done else GiveBack(done, carrier)
  }

  function Process(cfg: Config, mem: Memory, s: State, p: ParsedPacket, carrier: Carrier, now: u64): State
    requires p.Valid() && ContextsShaped(s) && cfg.Valid()
  {
    var counted := s.(stats := s.stats.(received := s.stats.received + 1));
    match ParseFragment(cfg, p)
    case None => GiveBack(counted, carrier)
    case Some(f) =>
      var (ring, frozen) := ScanFrozen(s.frozen, f.key, now, 0);
      var scanned := counted.(frozen := ring);
      if frozen then GiveBack(scanned.(stats := scanned.stats.(late := s.stats.late + 1)), carrier)
      else
        var readied := GetOrCreate(cfg, scanned, f, now);
        if f.key !in readied.contexts then GiveBack(readied, carrier)
        else AddToContext(cfg, mem, readied, f, MakeRef(p.payload.value, carrier, f), carrier)
  }

  // ----- timeouts and flushes -----

  /** A key together with the clock reading taken when it was frozen and the contents of the pool's buffers when
      its frame was assembled: other threads refill returned buffers while a sweep goes on. */
  datatype Stamp = Stamp(key: ReassemblyKey, now: u64, mem: Memory)

  /** Complete the listed contexts as timed out, in the order the context table was walked. */
  function ExpireAll(cfg: Config, s: State, order: seq<Stamp>, timeoutMs: u32): (r: State)
    requires ContextsShaped(s)
    ensures ContextsShaped(r)
    decreases |order|
  {
    if order == [] then s
    else
      var before := ExpireAll(cfg, s, order[..|order| - 1], timeoutMs);
      var last := order[|order| - 1];
      if last.key in before.contexts
      then Complete(cfg, last.mem, before, last.key, Some((last.now + timeoutMs) % TWO64))
      else before
  }

  lemma AddToContextShaped(cfg: Config, mem: Memory, s: State, f: Fragment, r: FragmentRef, carrier: Carrier)
    requires ContextsShaped(s) && f.key in s.contexts
    ensures ContextsShaped(AddToContext(cfg, mem, s, f, r, carrier))
  {
    var c := WithSnapshot(s.contexts[f.key], f);
    assert c.Shape();
    if Judge(cfg, c, f) == Store {
      assert StoreFragment(c, f, r).Shape();
    }
  }

  lemma ProcessShaped(cfg: Config, mem: Memory, s: State, p: ParsedPacket, carrier: Carrier, now: u64)
    requires p.Valid() && ContextsShaped(s) && cfg.Valid()
    ensures ContextsShaped(Process(cfg, mem, s, p, carrier, now))
  {
    hide ParseFragment, AddToContext;
    match ParseFragment(cfg, p)
    case None =>
    case Some(f) =>
      var scanned := s.(stats := s.stats.(received := s.stats.received + 1), frozen := ScanFrozen(s.frozen, f.key, now, 0).0);
      var readied := GetOrCreate(cfg, scanned, f, now);
      assert ContextsShaped(readied);
      if f.key in readied.contexts {
        AddToContextShaped(cfg, mem, readied, f, MakeRef(p.payload.value, carrier, f), carrier);
      }
  }

  /** `order` lists exactly the keys of `keys`, each once. */
  ghost predicate Enumerates(order: seq<Stamp>, keys: set<ReassemblyKey>) {
    && (forall i :: 0 <= i < |order| ==> order[i].key in keys)
    && (forall k :: k in keys ==> exists i :: 0 <= i < |order| && order[i].key == k)
    && (forall i, j :: 0 <= i < j < |order| ==> order[i].key != order[j].key)
  }

  ghost function TimedOutKeys(s: State, now: u64, timeoutMs: u32): set<ReassemblyKey> {
    set k | k in s.contexts && s.contexts[k].TimedOut(now, timeoutMs)
  }

  // ----- runs -----

  datatype Event =
    | Arrive(packet: ParsedPacket, carrier: Carrier, now: u64, mem: Memory)
    | Sweep(now: u64, order: seq<Stamp>, timeoutMs: u32)
    | FlushAll(order: seq<Stamp>, timeoutMs: u32)

  /** The walk order of a sweep or flush covers the contexts it has to. */
  ghost predicate EventFits(s: State, e: Event) {
    match e
    case Arrive(p, _, _, _) => p.Valid()
    case Sweep(now, order, timeoutMs) => Enumerates(order, TimedOutKeys(s, now, timeoutMs))
    case FlushAll(order, _) => Enumerates(order, s.contexts.Keys)
  }

  function Step(cfg: Config, s: State, e: Event): State
    requires ContextsShaped(s) && cfg.Valid() && (e.Arrive? ==> e.packet.Valid())
  {
    match e
    case Arrive(p, carrier, now, mem) => Process(cfg, mem, s, p, carrier, now)
    case Sweep(_, order, timeoutMs) => ExpireAll(cfg, s, order, timeoutMs)
    case FlushAll(order, timeoutMs) => ExpireAll(cfg, s, order, timeoutMs)
  }

  lemma StepShaped(cfg: Config, s: State, e: Event)
    requires ContextsShaped(s) && cfg.Valid() && (e.Arrive? ==> e.packet.Valid())
    ensures ContextsShaped(Step(cfg, s, e))
  {
    match e
    case Arrive(p, carrier, now, mem) => ProcessShaped(cfg, mem, s, p, carrier, now);
    case Sweep(_, order, timeoutMs) => 
    case FlushAll(order, timeoutMs) => 
  }

  ghost predicate PacketsValid(events: seq<Event>) {
    forall i :: 0 <= i < |events| && events[i].Arrive? ==> events[i].packet.Valid()
  }

  /** The state after a run from `s`. */
  ghost function RunFrom(cfg: Config, s: State, events: seq<Event>): (r: State)
    requires cfg.Valid() && PacketsValid(events) && ContextsShaped(s)
    ensures ContextsShaped(r)
  {
    if events == [] then s
    else
      var before := RunFrom(cfg, s, events[..|events| - 1]);
      StepShaped(cfg, before, events[|events| - 1]);
      Step(cfg, before, events[|events| - 1])
  }
}
