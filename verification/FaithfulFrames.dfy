/** Every frame emitted for a key is its original with exactly the pieces that did not arrive zeroed in place. */
module FaithfulFrames {
  import opened Machine
  import opened Protocol
  import opened ReassemblyModel
  import opened Assembly
  import opened ReassemblyRuns
  import opened FrozenKeys
  import ZeroCopy

  // ----- what arrived -----

  /** Of one key: the indices stored since its context was opened, and, for each frame of the run, the indices
      stored when it was closed (nothing for the frames of other keys). */
  datatype History = History(arrived: set<nat>, closed: seq<set<nat>>)

  const NO_HISTORY := History({}, [])

  /** The index a packet brings for `key`: it parses, the key is not frozen, and there is a context or room for
      one. With `judged`, it must moreover pass the checks of the context. */
  ghost function Brings(cfg: Config, s: State, p: ParsedPacket, now: u64, key: ReassemblyKey, judged: bool): set<nat>
    requires p.Valid() && ContextsShaped(s) && cfg.Valid()
  {
    match ParseFragment(cfg, p)
    case None => {}
    case Some(f) =>
      ReadiedShape(cfg, s, f, now);
      var readied := GetOrCreate(cfg, s, f, now);
      if f.key != key || IsFrozen(s.frozen, key, now) || key !in readied.contexts then {}
      else if judged && Judge(cfg, WithSnapshot(readied.contexts[key], f), f) != Store then {}
      else {f.header.fragIndex}
  }

  /** The context of `k` is closed with a frame. */
  function Close(h: History, k: ReassemblyKey, key: ReassemblyKey): History {
    if k == key then History({}, h.closed + [h.arrived]) else History(h.arrived, h.closed + [{}])
  }

  function CloseAll(cfg: Config, s: State, h: History, order: seq<Stamp>, timeoutMs: u32, key: ReassemblyKey): History
    requires ContextsShaped(s)
    decreases |order|
  {
    if order == [] then h
    else
      var front, last := order[..|order| - 1], order[|order| - 1];
      var before := CloseAll(cfg, s, h, front, timeoutMs, key);
      if last.key in ExpireAll(cfg, s, front, timeoutMs).contexts then Close(before, last.key, key) else before
  }

  ghost function HistoryStep(cfg: Config, s: State, h: History, e: Event, key: ReassemblyKey, judged: bool): History
    requires ContextsShaped(s) && cfg.Valid() && (e.Arrive? ==> e.packet.Valid())
  {
    match e
    case Arrive(p, carrier, now, mem) =>
      var frames := Process(cfg, mem, s, p, carrier, now).frames;
      var heard := h.(arrived := h.arrived + Brings(cfg, s, p, now, key, judged));
      if |frames| > |s.frames| then Close(heard, frames[|frames| - 1].key, key) else heard
    case Sweep(_, order, timeoutMs) => CloseAll(cfg, s, h, order, timeoutMs, key)
    case FlushAll(order, timeoutMs) => CloseAll(cfg, s, h, order, timeoutMs, key)
  }

  ghost function HistoryOf(cfg: Config, events: seq<Event>, key: ReassemblyKey, judged: bool): History
    requires cfg.Valid() && PacketsValid(events)
  {
    if events == [] then NO_HISTORY
    else
      var front := events[..|events| - 1];
      HistoryStep(cfg, RunFrom(cfg, Initial(cfg), front), HistoryOf(cfg, front, key, judged), events[|events| - 1], key, judged)
  }

  // ----- what a frame says -----

  function Flags(got: set<nat>, n: nat): (r: seq<bool>)
    ensures |r| == n
  {
    seq(n, i requires 0 <= i < n => i in got)
  }

  /** The frame is the original with the pieces outside `got` zeroed in place, exactly when their length can be
      known; it names exactly those pieces, in order, and is called complete exactly when there are none. */
  ghost predicate Faithful(cfg: Config, key: ReassemblyKey, chunks: seq<Bytes>, f: Frame, got: set<nat>)
    requires WellCut(chunks)
  {
    && (forall i :: i in f.missing <==> 0 <= i < |chunks| && i !in got)
    && (forall i, j :: 0 <= i < j < |f.missing| ==> f.missing[i] < f.missing[j])
    && (f.isComplete <==> f.missing == [])
    && (f.data == Masked(chunks, Flags(got, |chunks|)) <==> SizeKnown(cfg, key, chunks, Flags(got, |chunks|)))
  }

  ghost predicate Plain(c: Context) {
    forall i :: 0 <= i < |c.refs| ==> !c.refs[i].Pooled?
  }

  /** The open context holds the pieces of the history, and nothing else. */
  ghost predicate Holding(s: State, key: ReassemblyKey, chunks: seq<Bytes>, arrived: set<nat>) {
    if key in s.contexts then
      && Matches(map[], s.contexts[key], chunks) && Plain(s.contexts[key])
      && Got(s.contexts[key]) == Flags(arrived, |chunks|)
    else arrived == {}
  }

  ghost predicate FramesFaithful(cfg: Config, frames: seq<Frame>, key: ReassemblyKey, chunks: seq<Bytes>, closed: seq<set<nat>>)
    requires WellCut(chunks)
  {
    && |closed| == |frames|
    && forall i :: 0 <= i < |frames| && frames[i].key == key ==> Faithful(cfg, key, chunks, frames[i], closed[i])
  }

  ghost predicate Tracks(cfg: Config, s: State, key: ReassemblyKey, chunks: seq<Bytes>, h: History) {
    WellCut(chunks) && Holding(s, key, chunks, h.arrived) && FramesFaithful(cfg, s.frames, key, chunks, h.closed)
  }

  /** The fragment is the piece of the frame that its index says. */
  ghost predicate Agrees(f: Fragment, payload: Bytes, chunks: seq<Bytes>)
    requires f.start + f.size <= |payload|
  {
    && f.header.totalFrags == |chunks|
    && f.header.fragIndex < |chunks|
    && f.header.tailFragPayloadBytes == |chunks[|chunks| - 1]|
    && payload[f.start..f.start + f.size] == chunks[f.header.fragIndex]
  }

  ghost predicate EventAgrees(cfg: Config, e: Event, key: ReassemblyKey, chunks: seq<Bytes>) {
    e.Arrive? ==>
      && e.packet.Valid() && e.carrier == Copied
      && var f := ParseFragment(cfg, e.packet);
         f.Some? && f.value.key == key ==> Agrees(f.value, e.packet.payload.value, chunks)
  }

  // ----- closing -----

  lemma AnyMemory(mem: Memory, c: Context, chunks: seq<Bytes>)
    requires Matches(map[], c, chunks) && Plain(c)
    ensures Matches(mem, c, chunks)
  {
    assert forall i :: 0 <= i < |chunks| ==> RefBytes(mem, c.refs[i]) == RefBytes(map[], c.refs[i]);
  }

  lemma MadeFrameFaithful(cfg: Config, mem: Memory, key: ReassemblyKey, c: Context, chunks: seq<Bytes>, got: set<nat>)
    requires Matches(map[], c, chunks) && Plain(c) && Got(c) == Flags(got, |chunks|)
    ensures Faithful(cfg, key, chunks, MakeFrame(cfg, mem, key, c), got)
  {
    AnyMemory(mem, c, chunks);
    MissingIsLost(mem, c, chunks);
    LossNeverShiftsDataIff(cfg, mem, key, c, chunks);
    assert forall i :: 0 <= i < |chunks| ==> Got(c)[i] == (i in got);
  }

  lemma CompleteTracks(cfg: Config, mem: Memory, s: State, k: ReassemblyKey, expireMs: Option<u64>, key: ReassemblyKey, chunks: seq<Bytes>, h: History)
    requires Tracks(cfg, s, key, chunks, h) && k in s.contexts && s.contexts[k].Shape()
    ensures Tracks(cfg, Complete(cfg, mem, s, k, expireMs), key, chunks, Close(h, k, key))
  {
    hide Complete, MakeFrame, Matches, Faithful, WellCut, Flags;
    CompleteEffect(cfg, mem, s, k, expireMs);
    if k == key {
      MadeFrameFaithful(cfg, mem, key, s.contexts[key], chunks, h.arrived);
    }
    MadeKey(cfg, mem, k, s.contexts[k]);
  }

  lemma {:induction false} ExpireAllTracks(
    cfg: Config, s: State, order: seq<Stamp>, timeoutMs: u32, key: ReassemblyKey, chunks: seq<Bytes>, h: History)
    requires ContextsShaped(s) && Tracks(cfg, s, key, chunks, h)
    ensures Tracks(cfg, ExpireAll(cfg, s, order, timeoutMs), key, chunks, CloseAll(cfg, s, h, order, timeoutMs, key))
    decreases |order|
  {
    hide Complete, Tracks, Close;
    if order != [] {
      var front, last := order[..|order| - 1], order[|order| - 1];
      ExpireAllTracks(cfg, s, front, timeoutMs, key, chunks, h);
      var before := ExpireAll(cfg, s, front, timeoutMs);
      if last.key in before.contexts {
        CompleteTracks(cfg, last.mem, before, last.key, Some((last.now + timeoutMs) % TWO64), key, chunks,
                       CloseAll(cfg, s, h, front, timeoutMs, key));
      }
    }
  }

  // ----- arriving -----

  lemma StoreHolds(cfg: Config, c: Context, f: Fragment, payload: Bytes, chunks: seq<Bytes>, arrived: set<nat>)
    requires Matches(map[], c, chunks) && Plain(c) && Got(c) == Flags(arrived, |chunks|)
    requires Judge(cfg, c, f) == Store && f.start + f.size <= |payload| && Agrees(f, payload, chunks)
    ensures var c' := StoreFragment(c, f, MakeRef(payload, Copied, f));
      Matches(map[], c', chunks) && Plain(c') && Got(c') == Flags(arrived + {f.header.fragIndex}, |chunks|)
  {
    StoreCoherent(cfg, c, f, MakeRef(payload, Copied, f));
    var c' := StoreFragment(c, f, MakeRef(payload, Copied, f));
    assert forall i :: 0 <= i < |chunks| ==> Got(c)[i] == (i in arrived);
    assert forall i :: 0 <= i < |chunks| ==> Got(c')[i] == (Got(c)[i] || i == f.header.fragIndex);
  }

  lemma SnapshotHolds(c: Context, f: Fragment, chunks: seq<Bytes>)
    requires Matches(map[], c, chunks) && Plain(c)
    ensures var c' := WithSnapshot(c, f); Matches(map[], c', chunks) && Plain(c') && Got(c') == Got(c)
  {
  }

  lemma FreshHolds(f: Fragment, payload: Bytes, chunks: seq<Bytes>, now: u64)
    requires f.start + f.size <= |payload| && Agrees(f, payload, chunks) && WellCut(chunks)
    ensures var c := NewContext(f.header.totalFrags, f.header.tailFragPayloadBytes, f.header.dataTimestamp, now);
      Matches(map[], c, chunks) && Plain(c) && Got(c) == Flags({}, |chunks|)
  {
    NewContextCoherent(f.header.totalFrags, f.header.tailFragPayloadBytes, f.header.dataTimestamp, now);
  }

  /** What the piece of `f` adds to the history, once its context is there. */
  function Added(cfg: Config, s: State, f: Fragment, key: ReassemblyKey): set<nat>
    requires f.key in s.contexts && WithSnapshot(s.contexts[f.key], f).Shape()
  {
    if f.key == key && Judge(cfg, WithSnapshot(s.contexts[f.key], f), f) == Store then {f.header.fragIndex} else {}
  }

  function Closing(h: History, frames: seq<Frame>, frames': seq<Frame>, key: ReassemblyKey): History {
    if |frames'| > |frames| then Close(h, frames'[|frames'| - 1].key, key) else h
  }

  lemma AddTracks(cfg: Config, mem: Memory, s: State, f: Fragment, payload: Bytes, key: ReassemblyKey, chunks: seq<Bytes>, h: History)
    requires Tracks(cfg, s, key, chunks, h) && f.key in s.contexts && s.contexts[f.key].Shape() && WithSnapshot(s.contexts[f.key], f).Shape()
    requires f.start + f.size <= |payload| && (f.key == key ==> Agrees(f, payload, chunks))
    ensures var s' := AddToContext(cfg, mem, s, f, MakeRef(payload, Copied, f), Copied);
      Tracks(cfg, s', key, chunks, Closing(h.(arrived := h.arrived + Added(cfg, s, f, key)), s.frames, s'.frames, key))
  {
    hide Complete, StoreFragment, AddToContext, MakeRef, Matches, Faithful, WellCut, Flags, Agrees, MakeFrame, WithSnapshot, Plain;
    assert h.arrived + {} == h.arrived;
    var c := WithSnapshot(s.contexts[f.key], f);
    var r := MakeRef(payload, Copied, f);
    AddCases(cfg, mem, s, f, r, Copied);
    if f.key == key {
      SnapshotHolds(s.contexts[key], f, chunks);
    }
    if Judge(cfg, c, f) == Store {
      if f.key == key {
        StoreHolds(cfg, c, f, payload, chunks, h.arrived);
      }
      var h' := h.(arrived := h.arrived + Added(cfg, s, f, key));
      var stored := s.(contexts := s.contexts[f.key := StoreFragment(c, f, r)]);
      assert Tracks(cfg, stored, key, chunks, h');
      StoreShaped(cfg, c, f, r);
      if StoreFragment(c, f, r).Complete() {
        CompleteTracks(cfg, mem, stored, f.key, None, key, chunks, h');
        CompleteEffect(cfg, mem, stored, f.key, None);
        MadeKey(cfg, mem, f.key, stored.contexts[f.key]);
      }
    }
  }

  lemma ReadiedTracks(cfg: Config, s: State, f: Fragment, payload: Bytes, now: u64, key: ReassemblyKey, chunks: seq<Bytes>, h: History)
    requires Tracks(cfg, s, key, chunks, h)
    requires f.start + f.size <= |payload| && (f.key == key ==> Agrees(f, payload, chunks))
    ensures Tracks(cfg, GetOrCreate(cfg, s, f, now), key, chunks, h)
  {
    hide Matches, Faithful, Flags, Agrees, NewContext, Plain;
    if f.key == key {
      FreshHolds(f, payload, chunks, now);
    }
  }

  lemma TracksCarries(cfg: Config, s: State, s': State, key: ReassemblyKey, chunks: seq<Bytes>, h: History)
    requires Tracks(cfg, s, key, chunks, h) && s'.contexts == s.contexts && s'.frames == s.frames
    ensures Tracks(cfg, s', key, chunks, h)
  {
  }

  lemma ProcessTracks(cfg: Config, mem: Memory, s: State, p: ParsedPacket, now: u64, key: ReassemblyKey, chunks: seq<Bytes>, h: History)
    requires p.Valid() && ContextsShaped(s) && cfg.Valid() && Tracks(cfg, s, key, chunks, h)
    requires EventAgrees(cfg, Arrive(p, Copied, now, mem), key, chunks)
    ensures Tracks(cfg, Process(cfg, mem, s, p, Copied, now), key, chunks, HistoryStep(cfg, s, h, Arrive(p, Copied, now, mem), key, true))
  {
    hide ParseFragment, AddToContext, ScanFrozen, MakeRef, Tracks, Agrees, IsFrozen, GetOrCreate, Judge;
    var after := Process(cfg, mem, s, p, Copied, now);
    assert h.arrived + {} == h.arrived;
    match ParseFragment(cfg, p)
    case None => TracksCarries(cfg, s, after, key, chunks, h);
    case Some(f) =>
      FrozenIffScanned(s.frozen, f.key, now);
      var (ring, frozen) := ScanFrozen(s.frozen, f.key, now, 0);
      var scanned := s.(stats := s.stats.(received := s.stats.received + 1), frozen := ring);
      var readied := GetOrCreate(cfg, scanned, f, now);
      SameReadied(cfg, s, scanned, f, now);
      TracksCarries(cfg, s, scanned, key, chunks, h);
      ReadiedTracks(cfg, scanned, f, p.payload.value, now, key, chunks, h);
      ReadiedShape(cfg, s, f, now);
      ReadiedShape(cfg, scanned, f, now);
      if frozen {
        TracksCarries(cfg, s, after, key, chunks, h);
      } else if f.key !in readied.contexts {
        TracksCarries(cfg, readied, after, key, chunks, h);
      } else {
        AddTracks(cfg, mem, readied, f, p.payload.value, key, chunks, h);
      }
  }

  /** In any run, among any other traffic, timeouts and flushes, every frame emitted under a key whose fragments
      were cut from one original is that original with the pieces that were not stored since its context was
      opened zeroed in place; it names exactly those pieces and is called complete exactly when there are none. */
  lemma {:induction false} EmittedFramesAreFaithful(cfg: Config, events: seq<Event>, key: ReassemblyKey, chunks: seq<Bytes>)
    requires cfg.Valid() && PacketsValid(events) && WellCut(chunks)
    requires forall i :: 0 <= i < |events| ==> EventAgrees(cfg, events[i], key, chunks)
    ensures Tracks(cfg, RunFrom(cfg, Initial(cfg), events), key, chunks, HistoryOf(cfg, events, key, true))
  {
    if events != [] {
      hide Tracks, Process, ExpireAll, HistoryStep, CloseAll;
      var front, e := events[..|events| - 1], events[|events| - 1];
      EmittedFramesAreFaithful(cfg, front, key, chunks);
      StepTracks(cfg, RunFrom(cfg, Initial(cfg), front), e, key, chunks, HistoryOf(cfg, front, key, true));
    }
  }

  lemma StepTracks(cfg: Config, s: State, e: Event, key: ReassemblyKey, chunks: seq<Bytes>, h: History)
    requires ContextsShaped(s) && cfg.Valid() && Tracks(cfg, s, key, chunks, h)
    requires (e.Arrive? ==> e.packet.Valid()) && EventAgrees(cfg, e, key, chunks)
    ensures Tracks(cfg, Step(cfg, s, e), key, chunks, HistoryStep(cfg, s, h, e, key, true))
  {
    hide Tracks, Process, ExpireAll, CloseAll;
    match e
    case Arrive(p, carrier, now, mem) => ProcessTracks(cfg, mem, s, p, now, key, chunks, h);
    case Sweep(_, order, timeoutMs) => ExpireAllTracks(cfg, s, order, timeoutMs, key, chunks, h);
    case FlushAll(order, timeoutMs) => ExpireAllTracks(cfg, s, order, timeoutMs, key, chunks, h);
  }

  // ----- every arrival counts -----

  /** A piece of a frame that respects the size limit is stored or was there already. */
  lemma StoredOrRepeated(cfg: Config, c: Context, f: Fragment, payload: Bytes, chunks: seq<Bytes>)
    requires Matches(map[], c, chunks) && f.start + f.size <= |payload| && Agrees(f, payload, chunks)
    requires Sum(Lengths(chunks)) <= cfg.maxReasmBytes
    ensures Judge(cfg, c, f) == if c.received[f.header.fragIndex] then Repeated else Store
  {
    var i := f.header.fragIndex;
    if !c.received[i] {
      forall j | 0 <= j < |chunks| ensures c.sizes[i := f.size][j] <= Lengths(chunks)[j] {
        PresentIffReceived(map[], c, chunks, j);
      }
      PresentIffReceived(map[], c, chunks, i);
      SumSet(c.sizes, i, f.size);
      SumAtMost(c.sizes[i := f.size], Lengths(chunks));
    }
  }

  lemma BringsIsStored(cfg: Config, s: State, p: ParsedPacket, now: u64, key: ReassemblyKey, chunks: seq<Bytes>, h: History)
    requires p.Valid() && ContextsShaped(s) && cfg.Valid() && Tracks(cfg, s, key, chunks, h)
    requires EventAgrees(cfg, Arrive(p, Copied, now, map[]), key, chunks) && Sum(Lengths(chunks)) <= cfg.maxReasmBytes
    ensures h.arrived + Brings(cfg, s, p, now, key, true) == h.arrived + Brings(cfg, s, p, now, key, false)
  {
    hide ParseFragment, Judge, IsFrozen, Matches, Plain, Agrees, FramesFaithful, NewContext, WithSnapshot;
    match ParseFragment(cfg, p)
    case None =>
    case Some(f) =>
      ReadiedShape(cfg, s, f, now);
      var readied := GetOrCreate(cfg, s, f, now);
      if f.key == key && key in readied.contexts {
        ReadiedTracks(cfg, s, f, p.payload.value, now, key, chunks, h);
        var c := readied.contexts[key];
        SnapshotHolds(c, f, chunks);
        StoredOrRepeated(cfg, WithSnapshot(c, f), f, p.payload.value, chunks);
        HeldIsArrived(WithSnapshot(c, f), f, p.payload.value, chunks, h.arrived);
      }
  }

  lemma HeldIsArrived(c: Context, f: Fragment, payload: Bytes, chunks: seq<Bytes>, arrived: set<nat>)
    requires Matches(map[], c, chunks) && Got(c) == Flags(arrived, |chunks|)
    requires f.start + f.size <= |payload| && Agrees(f, payload, chunks)
    ensures c.received[f.header.fragIndex] <==> f.header.fragIndex in arrived
  {
    assert c.received[f.header.fragIndex] == Got(c)[f.header.fragIndex];
  }

  /** Where the frame respects the size limit, what is stored is what arrives: every index that came for a key
      that is not frozen, with a context or room for one, since that context was opened. So the missing pieces of a
      frame are exactly those that did not come. */
  lemma {:induction false} EveryArrivalIsStored(cfg: Config, events: seq<Event>, key: ReassemblyKey, chunks: seq<Bytes>)
    requires cfg.Valid() && PacketsValid(events) && WellCut(chunks) && Sum(Lengths(chunks)) <= cfg.maxReasmBytes
    requires forall i :: 0 <= i < |events| ==> EventAgrees(cfg, events[i], key, chunks)
    ensures HistoryOf(cfg, events, key, false) == HistoryOf(cfg, events, key, true)
  {
    if events != [] {
      hide Tracks, Process, ExpireAll, CloseAll, Brings;
      var front, e := events[..|events| - 1], events[|events| - 1];
      EveryArrivalIsStored(cfg, front, key, chunks);
      EmittedFramesAreFaithful(cfg, front, key, chunks);
      if e.Arrive? {
        BringsIsStored(cfg, RunFrom(cfg, Initial(cfg), front), e.packet, e.now, key, chunks, HistoryOf(cfg, front, key, true));
      }
    }
  }

  // ----- the zero-copy path -----

  /** The same holds of the zero-copy path, whatever happens to the buffers that no context owns. */
  lemma ZeroCopyFramesAreFaithful(cfg: Config, events: seq<Event>, worlds: seq<ZeroCopy.World>, key: ReassemblyKey, chunks: seq<Bytes>)
    requires cfg.Valid() && ZeroCopy.WorldRun(cfg, events, worlds) && WellCut(chunks)
    requires forall i :: 0 <= i < |events| ==> EventAgrees(cfg, ZeroCopy.AsCopied(events[i]), key, chunks)
    ensures PacketsValid(ZeroCopy.CopiedCalls(events))
    ensures FramesFaithful(cfg, worlds[|events|].s.frames, key, chunks, HistoryOf(cfg, ZeroCopy.CopiedCalls(events), key, true).closed)
  {
    hide EventAgrees, FramesFaithful;
    ZeroCopy.ZeroCopyRefinesCopying(cfg, events, worlds);
    EmittedFramesAreFaithful(cfg, ZeroCopy.CopiedCalls(events), key, chunks);
  }
}
