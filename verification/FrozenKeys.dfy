/** Keys that timed out stay out: the ring of frozen keys over every run of the reassembler. */
module FrozenKeys {
  import opened Machine
  import opened Protocol
  import opened ReassemblyModel

  predicate Live(e: FrozenEntry, key: ReassemblyKey) {
    e.valid && e.key == key
  }

  /** No key has both a context and a valid frozen entry, and none has two valid entries. */
  ghost predicate Separated(s: State) {
    && s.frozenNext < |s.frozen|
    && (forall k, i :: k in s.contexts && 0 <= i < |s.frozen| ==> !Live(s.frozen[i], k))
    && (forall i, j :: 0 <= i < j < |s.frozen| && s.frozen[i].valid && s.frozen[j].valid ==> s.frozen[i].key != s.frozen[j].key)
  }

  /** The scan only ever retires expired entries, and it reports a key exactly when a live,
      unexpired entry for it remains. */
  lemma {:induction false} ScanSpec(ring: seq<FrozenEntry>, key: ReassemblyKey, now: u64, i: nat)
    requires i <= |ring|
    ensures var (ring', found) := ScanFrozen(ring, key, now, i);
      && (forall j :: 0 <= j < |ring| ==>
            && (ring'[j] == ring[j] || ring'[j] == ring[j].(valid := false))
            && (ring[j].expireMs > now ==> ring'[j] == ring[j]))
      && (found ==> exists j :: i <= j < |ring| && Live(ring[j], key) && ring[j].expireMs > now)
      && (!found ==> forall j :: i <= j < |ring| ==> !Live(ring'[j], key))
    decreases |ring| - i
  {
    if i < |ring| {
      if ring[i].valid && ring[i].expireMs <= now {
        ScanSpec(ring[i := ring[i].(valid := false)], key, now, i + 1);
      } else if ring[i].valid && ring[i].key == key {
        assert Live(ring[i], key);
      } else {
        ScanSpec(ring, key, now, i + 1);
      }
    }
  }

  /** The ring holds an entry for `key` that has not expired. */
  ghost predicate IsFrozen(ring: seq<FrozenEntry>, key: ReassemblyKey, now: u64) {
    exists j :: 0 <= j < |ring| && Live(ring[j], key) && ring[j].expireMs > now
  }

  lemma FrozenIffScanned(ring: seq<FrozenEntry>, key: ReassemblyKey, now: u64)
    ensures ScanFrozen(ring, key, now, 0).1 <==> IsFrozen(ring, key, now)
  {
    ScanSpec(ring, key, now, 0);
  }

  /** A fragment counts as late exactly when its key is frozen, wherever in the ring the entry is. */
  lemma LateIffFrozen(cfg: Config, mem: Memory, s: State, p: ParsedPacket, carrier: Carrier, now: u64)
    requires p.Valid() && ContextsShaped(s) && cfg.Valid() && ParseFragment(cfg, p).Some?
    ensures Process(cfg, mem, s, p, carrier, now).stats.late
         == s.stats.late + if IsFrozen(s.frozen, ParseFragment(cfg, p).value.key, now) then 1 else 0
  {
    hide AddToContext, ScanFrozen, MakeRef, ParseFragment;
    var f := ParseFragment(cfg, p).value;
    ScanSpec(s.frozen, f.key, now, 0);
    var (ring, frozen) := ScanFrozen(s.frozen, f.key, now, 0);
    var scanned := s.(stats := s.stats.(received := s.stats.received + 1), frozen := ring);
    var readied := GetOrCreate(cfg, scanned, f, now);
    if !frozen && f.key in readied.contexts {
      AddIsNotLate(cfg, mem, readied, f, MakeRef(p.payload.value, carrier, f), carrier);
    }
  }

  lemma AddIsNotLate(cfg: Config, mem: Memory, s: State, f: Fragment, r: FragmentRef, carrier: Carrier)
    requires f.key in s.contexts && s.contexts[f.key].Shape()
    ensures AddToContext(cfg, mem, s, f, r, carrier).stats.late == s.stats.late
  {
    hide MakeFrame, HeldBuffers, AddFrozen;
  }

  /** Of the frozen ring a packet only sees the scan, and it can add no context but its own. */
  lemma ProcessFrame(cfg: Config, mem: Memory, s: State, p: ParsedPacket, carrier: Carrier, now: u64)
    requires p.Valid() && ContextsShaped(s) && cfg.Valid()
    ensures var s' := Process(cfg, mem, s, p, carrier, now);
      && s'.frozenNext == s.frozenNext
      && match ParseFragment(cfg, p)
         case None => s'.frozen == s.frozen && s'.contexts == s.contexts && s'.frames == s.frames
         case Some(f) =>
           var (ring, found) := ScanFrozen(s.frozen, f.key, now, 0);
           && s'.frozen == ring
           && s'.contexts.Keys <= s.contexts.Keys + {f.key}
           && (found ==> s'.contexts == s.contexts && s'.frames == s.frames)
           && (s'.frames == s.frames || (|s'.frames| == |s.frames| + 1 && s'.frames[..|s.frames|] == s.frames && s'.frames[|s.frames|].key == f.key))
  {
    hide ParseFragment, AddToContext, ScanFrozen, MakeRef;
    match ParseFragment(cfg, p)
    case None =>
    case Some(f) =>
      var scanned := s.(stats := s.stats.(received := s.stats.received + 1), frozen := ScanFrozen(s.frozen, f.key, now, 0).0);
      var readied := GetOrCreate(cfg, scanned, f, now);
      if f.key in readied.contexts {
        AddFrame(cfg, mem, readied, f, MakeRef(p.payload.value, carrier, f), carrier);
      }
  }

  lemma AddFrame(cfg: Config, mem: Memory, s: State, f: Fragment, r: FragmentRef, carrier: Carrier)
    requires f.key in s.contexts && s.contexts[f.key].Shape()
    ensures var s' := AddToContext(cfg, mem, s, f, r, carrier);
      && s'.frozenNext == s.frozenNext && s'.frozen == s.frozen
      && s'.contexts.Keys <= s.contexts.Keys
      && (s'.frames == s.frames || (|s'.frames| == |s.frames| + 1 && s'.frames[..|s.frames|] == s.frames && s'.frames[|s.frames|].key == f.key))
  {
  }

  lemma ProcessSeparated(cfg: Config, mem: Memory, s: State, p: ParsedPacket, carrier: Carrier, now: u64)
    requires p.Valid() && ContextsShaped(s) && cfg.Valid() && Separated(s)
    ensures Separated(Process(cfg, mem, s, p, carrier, now))
  {
    hide Process, ScanFrozen, ParseFragment;
    ProcessFrame(cfg, mem, s, p, carrier, now);
    match ParseFragment(cfg, p)
    case None =>
    case Some(f) => ScanSpec(s.frozen, f.key, now, 0);
  }

  lemma AddFrozenSpec(s: State, key: ReassemblyKey, expireMs: u64)
    requires s.frozenNext < |s.frozen|
    ensures var s' := AddFrozen(s, key, expireMs);
      && |s'.frozen| == |s.frozen| && s'.frozenNext < |s.frozen|
      && s' == s.(frozen := s'.frozen, frozenNext := s'.frozenNext)
      && var at := FindFrozen(s.frozen, key, 0);
         if at < |s.frozen|
         then s'.frozenNext == s.frozenNext && s'.frozen == s.frozen[at := FrozenEntry(key, expireMs, true)]
         else s'.frozenNext == (if s.frozenNext + 1 == |s.frozen| then 0 else s.frozenNext + 1)
              && s'.frozen == s.frozen[s.frozenNext := FrozenEntry(key, expireMs, true)]
  {
    RingIndex(s.frozenNext, 1, |s.frozen|);
  }

  lemma CompleteSeparated(cfg: Config, mem: Memory, s: State, key: ReassemblyKey, expireMs: Option<u64>)
    requires key in s.contexts && s.contexts[key].Shape() && Separated(s)
    ensures Separated(Complete(cfg, mem, s, key, expireMs))
  {
  }

  lemma {:induction false} ExpireAllSeparated(cfg: Config, s: State, order: seq<Stamp>, timeoutMs: u32)
    requires ContextsShaped(s) && Separated(s)
    ensures Separated(ExpireAll(cfg, s, order, timeoutMs))
    decreases |order|
  {
    if order != [] {
      var front, last := order[..|order| - 1], order[|order| - 1];
      ExpireAllSeparated(cfg, s, front, timeoutMs);
      var before := ExpireAll(cfg, s, front, timeoutMs);
      if last.key in before.contexts {
        CompleteSeparated(cfg, last.mem, before, last.key, Some((last.now + timeoutMs) % TWO64));
      }
    }
  }

  /** No run makes contexts and frozen entries overlap. */
  lemma {:induction false} RunKeepsSeparated(cfg: Config, s: State, events: seq<Event>)
    requires cfg.Valid() && PacketsValid(events) && ContextsShaped(s) && Separated(s)
    ensures Separated(RunFrom(cfg, s, events))
  {
    if events != [] {
      var front, e := events[..|events| - 1], events[|events| - 1];
      RunKeepsSeparated(cfg, s, front);
      var before := RunFrom(cfg, s, front);
      match e
      case Arrive(p, carrier, now, mem) => ProcessSeparated(cfg, mem, before, p, carrier, now);
      case Sweep(_, order, timeoutMs) => ExpireAllSeparated(cfg, before, order, timeoutMs);
      case FlushAll(order, timeoutMs) => ExpireAllSeparated(cfg, before, order, timeoutMs);
    }
  }

  lemma InitialSeparated(cfg: Config)
    ensures Separated(Initial(cfg))
  {
  }

  /** In every reachable state no key has both a context and a valid frozen entry, and none has two valid entries. */
  lemma ContextsAndFrozenKeysAreDisjoint(cfg: Config, events: seq<Event>)
    requires cfg.Valid() && PacketsValid(events)
    ensures Separated(RunFrom(cfg, Initial(cfg), events))
  {
    InitialSeparated(cfg);
    RunKeepsSeparated(cfg, Initial(cfg), events);
  }

  // ----- how long a key stays frozen -----

  ghost predicate FrozenAt(s: State, p: nat, key: ReassemblyKey, expireMs: u64) {
    p < |s.frozen| && s.frozen[p] == FrozenEntry(key, expireMs, true)
  }

  /** How many more keys can be frozen before the entry at `p` is the next to be overwritten. */
  function Room(s: State, p: nat): nat
    requires p < |s.frozen| && s.frozenNext < |s.frozen|
  {
    if s.frozenNext <= p then p - s.frozenNext else p - s.frozenNext + |s.frozen|
  }

  /** The number of keys a run tries to freeze. */
  function Freezes(events: seq<Event>): nat {
    if events == [] then 0
    else Freezes(events[..|events| - 1]) + match events[|events| - 1]
      case Arrive(_, _, _, _) => 0
      case Sweep(_, order, _) => |order|
      case FlushAll(order, _) => |order|
  }

  /** Every packet of the run is looked up strictly before `expireMs`. */
  ghost predicate Before(events: seq<Event>, expireMs: u64) {
    forall i :: 0 <= i < |events| && events[i].Arrive? ==> events[i].now < expireMs
  }

  predicate NoFrameOf(frames: seq<Frame>, key: ReassemblyKey, from: nat) {
    forall i :: from <= i < |frames| ==> frames[i].key != key
  }

  lemma CompleteOther(cfg: Config, mem: Memory, s: State, other: ReassemblyKey, e: u64, p: nat, key: ReassemblyKey, expireMs: u64, from: nat)
    requires other in s.contexts && s.contexts[other].Shape() && Separated(s)
    requires FrozenAt(s, p, key, expireMs) && Room(s, p) > 0 && from <= |s.frames| && NoFrameOf(s.frames, key, from)
    ensures var s' := Complete(cfg, mem, s, other, Some(e));
      && s'.frozenNext < |s'.frozen| && FrozenAt(s', p, key, expireMs) && Room(s', p) >= Room(s, p) - 1
      && from <= |s'.frames| && NoFrameOf(s'.frames, key, from)
  {
    assert Live(s.frozen[p], key);
    assert other != key;
    AddFrozenSpec(s, other, e);
  }

  lemma {:induction false} ExpireAllKeepsFrozen(
    cfg: Config, s: State, order: seq<Stamp>, timeoutMs: u32, p: nat, key: ReassemblyKey, expireMs: u64, from: nat)
    requires ContextsShaped(s) && Separated(s)
    requires FrozenAt(s, p, key, expireMs) && Room(s, p) >= |order| && from <= |s.frames| && NoFrameOf(s.frames, key, from)
    ensures var s' := ExpireAll(cfg, s, order, timeoutMs);
      && s'.frozenNext < |s'.frozen| && FrozenAt(s', p, key, expireMs) && Room(s', p) >= Room(s, p) - |order|
      && from <= |s'.frames| && NoFrameOf(s'.frames, key, from)
    decreases |order|
  {
    if order != [] {
      var front, last := order[..|order| - 1], order[|order| - 1];
      ExpireAllKeepsFrozen(cfg, s, front, timeoutMs, p, key, expireMs, from);
      ExpireAllSeparated(cfg, s, front, timeoutMs);
      var before := ExpireAll(cfg, s, front, timeoutMs);
      if last.key in before.contexts {
        CompleteOther(cfg, last.mem, before, last.key, (last.now + timeoutMs) % TWO64, p, key, expireMs, from);
      }
    }
  }

  lemma ProcessKeepsFrozen(
    cfg: Config, mem: Memory, s: State, pkt: ParsedPacket, carrier: Carrier, now: u64, p: nat, key: ReassemblyKey, expireMs: u64, from: nat)
    requires pkt.Valid() && ContextsShaped(s) && cfg.Valid() && Separated(s) && now < expireMs
    requires FrozenAt(s, p, key, expireMs) && from <= |s.frames| && NoFrameOf(s.frames, key, from)
    ensures var s' := Process(cfg, mem, s, pkt, carrier, now);
      && s'.frozenNext < |s'.frozen| && FrozenAt(s', p, key, expireMs) && Room(s', p) == Room(s, p)
      && from <= |s'.frames| && NoFrameOf(s'.frames, key, from)
  {
    hide Process, ScanFrozen, ParseFragment;
    ProcessFrame(cfg, mem, s, pkt, carrier, now);
    var s' := Process(cfg, mem, s, pkt, carrier, now);
    match ParseFragment(cfg, pkt)
    case None =>
    case Some(f) =>
      ScanSpec(s.frozen, f.key, now, 0);
      assert s'.frozen[p] == s.frozen[p];
      assert Live(s'.frozen[p], key);
  }

  lemma {:induction false} RunKeepsFrozen(
    cfg: Config, s: State, events: seq<Event>, p: nat, key: ReassemblyKey, expireMs: u64, from: nat)
    requires cfg.Valid() && PacketsValid(events) && ContextsShaped(s) && Separated(s) && Before(events, expireMs)
    requires FrozenAt(s, p, key, expireMs) && Freezes(events) <= Room(s, p) && from <= |s.frames| && NoFrameOf(s.frames, key, from)
    ensures var s' := RunFrom(cfg, s, events);
      && Separated(s') && FrozenAt(s', p, key, expireMs) && Room(s', p) >= Room(s, p) - Freezes(events)
      && from <= |s'.frames| && NoFrameOf(s'.frames, key, from)
  {
    RunKeepsSeparated(cfg, s, events);
    if events != [] {
      var front, e := events[..|events| - 1], events[|events| - 1];
      RunKeepsFrozen(cfg, s, front, p, key, expireMs, from);
      var before := RunFrom(cfg, s, front);
      match e
      case Arrive(pkt, carrier, now, mem) => ProcessKeepsFrozen(cfg, mem, before, pkt, carrier, now, p, key, expireMs, from);
      case Sweep(_, order, timeoutMs) => ExpireAllKeepsFrozen(cfg, before, order, timeoutMs, p, key, expireMs, from);
      case FlushAll(order, timeoutMs) => ExpireAllKeepsFrozen(cfg, before, order, timeoutMs, p, key, expireMs, from);
    }
  }

  /** A key that timed out gets no new context and no second frame in any further run whose packets
      all come before its expiry, unless at least a full ring of keys is frozen after it. */
  lemma TimedOutKeyStaysFrozen(cfg: Config, mem: Memory, s: State, key: ReassemblyKey, expireMs: u64, events: seq<Event>)
    requires cfg.Valid() && PacketsValid(events) && ContextsShaped(s) && Separated(s) && key in s.contexts
    requires Before(events, expireMs) && Freezes(events) < |s.frozen|
    ensures var s0 := Complete(cfg, mem, s, key, Some(expireMs));
      && ContextsShaped(s0)
      && var s1 := RunFrom(cfg, s0, events);
         key !in s1.contexts && |s0.frames| <= |s1.frames| && NoFrameOf(s1.frames, key, |s0.frames|)
  {
    var s0 := Complete(cfg, mem, s, key, Some(expireMs));
    CompleteSeparated(cfg, mem, s, key, Some(expireMs));
    AddFrozenSpec(s, key, expireMs);
    var p := s.frozenNext;
    assert forall i :: 0 <= i < |s.frozen| ==> !Live(s.frozen[i], key);
    assert FindFrozen(s.frozen, key, 0) == |s.frozen|;
    assert FrozenAt(s0, p, key, expireMs) && Room(s0, p) == |s.frozen| - 1;
    RunKeepsFrozen(cfg, s0, events, p, key, expireMs, |s0.frames|);
    assert Live(RunFrom(cfg, s0, events).frozen[p], key);
  }
}
