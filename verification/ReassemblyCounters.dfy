/** The counters of the reassembler over every run: where each packet went. */
module ReassemblyCounters {
  import opened Machine
  import opened Protocol
  import opened ReassemblyModel
  import opened Assembly
  import opened ReassemblyRuns

  // ----- pieces in the open contexts -----

  ghost function OpenPieces(contexts: map<ReassemblyKey, Context>): nat
    decreases |contexts|
  {
    if contexts == map[] then 0
    else
      var k :| k in contexts;
      RemovedContext(contexts, k);
      contexts[k].receivedCount + OpenPieces(contexts - {k})
  }

  /** The sum does not depend on the order in which the contexts are visited. */
  lemma {:induction false} OpenPiecesWithout(contexts: map<ReassemblyKey, Context>, k: ReassemblyKey)
    requires k in contexts
    ensures OpenPieces(contexts) == contexts[k].receivedCount + OpenPieces(contexts - {k})
    decreases |contexts|
  {
    var first :| first in contexts && OpenPieces(contexts) == contexts[first].receivedCount + OpenPieces(contexts - {first});
    if first != k {
      RemovedContext(contexts, first);
      RemovedContext(contexts, k);
      OpenPiecesWithout(contexts - {first}, k);
      OpenPiecesWithout(contexts - {k}, first);
      assert contexts - {first} - {k} == contexts - {k} - {first};
    }
  }

  lemma OpenPiecesUpdate(contexts: map<ReassemblyKey, Context>, k: ReassemblyKey, c: Context)
    ensures OpenPieces(contexts[k := c]) + (if k in contexts then contexts[k].receivedCount else 0) == OpenPieces(contexts) + c.receivedCount
  {
    OpenPiecesWithout(contexts[k := c], k);
    if k in contexts {
      OpenPiecesWithout(contexts, k);
      assert contexts[k := c] - {k} == contexts - {k};
    } else {
      assert contexts[k := c] - {k} == contexts;
    }
  }

  // ----- what the counters do not show -----

  /** Packets without a usable fragment, fragments the context refused without counting them, and pieces that went
      out with a frame. */
  datatype Fates = Fates(unparsed: nat, rejected: nat, closed: nat)

  /** What a fragment of an open context comes to. */
  function AddFate(cfg: Config, s: State, f: Fragment, t: Fates): Fates
    requires f.key in s.contexts && WithSnapshot(s.contexts[f.key], f).Shape()
  {
    var c := WithSnapshot(s.contexts[f.key], f);
    match Judge(cfg, c, f)
    case Reject => t.(rejected := t.rejected + 1)
    case Store => if c.receivedCount + 1 == c.totalFrags then t.(closed := t.closed + c.receivedCount + 1) else t
    case _ => t
  }

  function ExpireFates(cfg: Config, s: State, order: seq<Stamp>, timeoutMs: u32, t: Fates): Fates
    requires ContextsShaped(s)
    decreases |order|
  {
    if order == [] then t
    else
      var front, last := order[..|order| - 1], order[|order| - 1];
      var before := ExpireAll(cfg, s, front, timeoutMs);
      var t' := ExpireFates(cfg, s, front, timeoutMs, t);
      if last.key in before.contexts then t'.(closed := t'.closed + before.contexts[last.key].receivedCount) else t'
  }

  ghost function FateStep(cfg: Config, s: State, e: Event, t: Fates): Fates
    requires ContextsShaped(s) && cfg.Valid() && (e.Arrive? ==> e.packet.Valid())
  {
    match e
    case Arrive(p, _, now, _) =>
      (match ParseFragment(cfg, p)
       case None => t.(unparsed := t.unparsed + 1)
       case Some(f) =>
         ReadiedShape(cfg, s, f, now);
         var readied := GetOrCreate(cfg, s, f, now);
         if ScanFrozen(s.frozen, f.key, now, 0).1 || f.key !in readied.contexts then t else AddFate(cfg, readied, f, t))
    case Sweep(_, order, timeoutMs) => ExpireFates(cfg, s, order, timeoutMs, t)
    case FlushAll(order, timeoutMs) => ExpireFates(cfg, s, order, timeoutMs, t)
  }

  ghost function FatesOf(cfg: Config, events: seq<Event>): Fates
    requires cfg.Valid() && PacketsValid(events)
  {
    if events == [] then Fates(0, 0, 0)
    else
      var front := events[..|events| - 1];
      FateStep(cfg, RunFrom(cfg, Initial(cfg), front), events[|events| - 1], FatesOf(cfg, front))
  }

  function MissingTotal(frames: seq<Frame>): nat {
    if frames == [] then 0 else MissingTotal(frames[..|frames| - 1]) + |frames[|frames| - 1].missing|
  }

  function Arrivals(events: seq<Event>): nat {
    if events == [] then 0 else Arrivals(events[..|events| - 1]) + if events[|events| - 1].Arrive? then 1 else 0
  }

  // ----- every packet went to exactly one place -----

  /** Every packet but `owed` of them was unusable, late, turned away by a full table, a repeat, over the size limit or
      rejected, or its piece waits in an open context or went out; the missing counter totals the missing lists. */
  ghost predicate Tallied(s: State, t: Fates, owed: nat) {
    && s.stats.received == t.unparsed + s.stats.late + s.stats.overflow + s.stats.duplicate + s.stats.bytesOverflow
                           + t.rejected + OpenPieces(s.contexts) + t.closed + owed
    && s.stats.missing == MissingTotal(s.frames)
  }

  lemma MissingTotalGrows(frames: seq<Frame>, f: Frame)
    ensures MissingTotal(frames + [f]) == MissingTotal(frames) + |f.missing|
  {
    assert (frames + [f])[..|frames|] == frames;
  }

  lemma CompleteTallied(cfg: Config, mem: Memory, s: State, key: ReassemblyKey, expireMs: Option<u64>, t: Fates, owed: nat)
    requires Tallied(s, t, owed) && key in s.contexts && s.contexts[key].Shape()
    ensures Tallied(Complete(cfg, mem, s, key, expireMs), t.(closed := t.closed + s.contexts[key].receivedCount), owed)
  {
    hide MakeFrame, HeldBuffers, AddFrozen, MissingTotal, OpenPieces;
    var f := MakeFrame(cfg, mem, key, s.contexts[key]);
    MissingTotalGrows(s.frames, f);
    OpenPiecesWithout(s.contexts, key);
    var emitted := s.(frames := s.frames + [f], stats := CountFrame(s.stats, f, expireMs.Some?));
    if expireMs.Some? {
      FreezingOnlyTouchesTheRing(emitted, key, expireMs.value);
    }
  }

  lemma AddTallied(cfg: Config, mem: Memory, s: State, f: Fragment, r: FragmentRef, carrier: Carrier, t: Fates)
    requires f.key in s.contexts && s.contexts[f.key].Shape() && WithSnapshot(s.contexts[f.key], f).Shape() && Tallied(s, t, 1)
    ensures Tallied(AddToContext(cfg, mem, s, f, r, carrier), AddFate(cfg, s, f, t), 0)
  {
    hide Complete, MissingTotal, OpenPieces;
    var c := WithSnapshot(s.contexts[f.key], f);
    OpenPiecesUpdate(s.contexts, f.key, c);
    if Judge(cfg, c, f) == Store {
      StoreShaped(cfg, c, f, r);
      var c' := StoreFragment(c, f, r);
      OpenPiecesUpdate(s.contexts, f.key, c');
      var stored := s.(contexts := s.contexts[f.key := c']);
      assert Tallied(stored, t, 0);
      if c'.Complete() {
        CompleteTallied(cfg, mem, stored, f.key, None, t, 0);
      }
    }
  }

  lemma ReadiedTallied(cfg: Config, s: State, f: Fragment, now: u64, t: Fates)
    requires Tallied(s, t, 1)
    ensures var s' := GetOrCreate(cfg, s, f, now); Tallied(s', t, if f.key in s'.contexts then 1 else 0)
  {
    hide MissingTotal, OpenPieces;
    OpenPiecesUpdate(s.contexts, f.key, NewContext(f.header.totalFrags, f.header.tailFragPayloadBytes, f.header.dataTimestamp, now));
  }

  lemma ProcessTallied(cfg: Config, mem: Memory, s: State, p: ParsedPacket, carrier: Carrier, now: u64, t: Fates)
    requires p.Valid() && ContextsShaped(s) && cfg.Valid() && Tallied(s, t, 0)
    ensures Tallied(Process(cfg, mem, s, p, carrier, now), FateStep(cfg, s, Arrive(p, carrier, now, mem), t), 0)
  {
    hide ParseFragment, AddToContext, ScanFrozen, MakeRef, MissingTotal, OpenPieces, GetOrCreate, AddFate;
    match ParseFragment(cfg, p)
    case None =>
    case Some(f) =>
      var (ring, frozen) := ScanFrozen(s.frozen, f.key, now, 0);
      var scanned := s.(stats := s.stats.(received := s.stats.received + 1), frozen := ring);
      var readied := GetOrCreate(cfg, scanned, f, now);
      ReadiedTallied(cfg, scanned, f, now, t);
      ReadiedShape(cfg, scanned, f, now);
      ReadiedShape(cfg, s, f, now);
      SameReadied(cfg, s, scanned, f, now);
      if !frozen && f.key in readied.contexts {
        AddTallied(cfg, mem, readied, f, MakeRef(p.payload.value, carrier, f), carrier, t);
        SameFate(cfg, readied, GetOrCreate(cfg, s, f, now), f, t);
      }
  }

  lemma SameFate(cfg: Config, s: State, s': State, f: Fragment, t: Fates)
    requires s.contexts == s'.contexts && f.key in s.contexts && WithSnapshot(s.contexts[f.key], f).Shape()
    ensures AddFate(cfg, s, f, t) == AddFate(cfg, s', f, t)
  {
  }

  lemma {:induction false} ExpireAllTallied(cfg: Config, s: State, order: seq<Stamp>, timeoutMs: u32, t: Fates)
    requires ContextsShaped(s) && Tallied(s, t, 0)
    ensures Tallied(ExpireAll(cfg, s, order, timeoutMs), ExpireFates(cfg, s, order, timeoutMs, t), 0)
    decreases |order|
  {
    hide Complete, Tallied;
    if order != [] {
      var front, last := order[..|order| - 1], order[|order| - 1];
      ExpireAllTallied(cfg, s, front, timeoutMs, t);
      var before := ExpireAll(cfg, s, front, timeoutMs);
      if last.key in before.contexts {
        CompleteTallied(cfg, last.mem, before, last.key, Some((last.now + timeoutMs) % TWO64), ExpireFates(cfg, s, front, timeoutMs, t), 0);
      }
    }
  }

  lemma StepTallied(cfg: Config, s: State, e: Event, t: Fates)
    requires ContextsShaped(s) && cfg.Valid() && (e.Arrive? ==> e.packet.Valid()) && Tallied(s, t, 0)
    ensures Tallied(Step(cfg, s, e), FateStep(cfg, s, e, t), 0)
  {
    hide Tallied, Process, ExpireAll, ExpireFates;
    match e
    case Arrive(p, carrier, now, mem) => ProcessTallied(cfg, mem, s, p, carrier, now, t);
    case Sweep(_, order, timeoutMs) => ExpireAllTallied(cfg, s, order, timeoutMs, t);
    case FlushAll(order, timeoutMs) => ExpireAllTallied(cfg, s, order, timeoutMs, t);
  }

  /** Over every run the packets received are exactly the arrivals, and each is accounted for once. */
  lemma {:induction false} EveryPacketIsTallied(cfg: Config, events: seq<Event>)
    requires cfg.Valid() && PacketsValid(events)
    ensures Tallied(RunFrom(cfg, Initial(cfg), events), FatesOf(cfg, events), 0)
  {
    if events != [] {
      hide Tallied, Step, FateStep;
      var front := events[..|events| - 1];
      EveryPacketIsTallied(cfg, front);
      StepTallied(cfg, RunFrom(cfg, Initial(cfg), front), events[|events| - 1], FatesOf(cfg, front));
    }
  }

  /** `received` counts the arrivals. */
  lemma {:induction false} ReceivedCountsArrivals(cfg: Config, events: seq<Event>)
    requires cfg.Valid() && PacketsValid(events)
    ensures RunFrom(cfg, Initial(cfg), events).stats.received == Arrivals(events)
  {
    if events != [] {
      hide Step;
      var front, e := events[..|events| - 1], events[|events| - 1];
      ReceivedCountsArrivals(cfg, front);
      StepReceives(cfg, RunFrom(cfg, Initial(cfg), front), e);
    }
  }

  lemma StepReceives(cfg: Config, s: State, e: Event)
    requires ContextsShaped(s) && cfg.Valid() && (e.Arrive? ==> e.packet.Valid())
    ensures Step(cfg, s, e).stats.received == s.stats.received + if e.Arrive? then 1 else 0
  {
    hide Process, ExpireAll;
    match e
    case Arrive(p, carrier, now, mem) => ProcessReceives(cfg, mem, s, p, carrier, now);
    case Sweep(_, order, timeoutMs) => ExpireReceivesNothing(cfg, s, order, timeoutMs);
    case FlushAll(order, timeoutMs) => ExpireReceivesNothing(cfg, s, order, timeoutMs);
  }

  lemma ProcessReceives(cfg: Config, mem: Memory, s: State, p: ParsedPacket, carrier: Carrier, now: u64)
    requires p.Valid() && ContextsShaped(s) && cfg.Valid()
    ensures Process(cfg, mem, s, p, carrier, now).stats.received == s.stats.received + 1
  {
    hide ParseFragment, AddToContext, ScanFrozen, MakeRef;
    match ParseFragment(cfg, p)
    case None =>
    case Some(f) =>
      var scanned := s.(stats := s.stats.(received := s.stats.received + 1), frozen := ScanFrozen(s.frozen, f.key, now, 0).0);
      ReadiedShape(cfg, scanned, f, now);
      var readied := GetOrCreate(cfg, scanned, f, now);
      if f.key in readied.contexts {
        AddReceivesNothing(cfg, mem, readied, f, MakeRef(p.payload.value, carrier, f), carrier);
      }
  }

  lemma AddReceivesNothing(cfg: Config, mem: Memory, s: State, f: Fragment, r: FragmentRef, carrier: Carrier)
    requires f.key in s.contexts && s.contexts[f.key].Shape()
    ensures AddToContext(cfg, mem, s, f, r, carrier).stats.received == s.stats.received
  {
    hide MakeFrame, HeldBuffers, FindFrozen;
  }

  lemma {:induction false} ExpireReceivesNothing(cfg: Config, s: State, order: seq<Stamp>, timeoutMs: u32)
    requires ContextsShaped(s)
    ensures ExpireAll(cfg, s, order, timeoutMs).stats.received == s.stats.received
    decreases |order|
  {
    hide MakeFrame, HeldBuffers, FindFrozen;
    if order != [] {
      ExpireReceivesNothing(cfg, s, order[..|order| - 1], timeoutMs);
    }
  }

  // ----- complete and incomplete frames -----

  /** The frames of which nothing is missing. */
  function Whole(frames: seq<Frame>): nat {
    if frames == [] then 0 else Whole(frames[..|frames| - 1]) + if frames[|frames| - 1].missing == [] then 1 else 0
  }

  /** A frame is called complete exactly when nothing of it is missing, and the counters tell the two kinds apart. */
  ghost predicate Graded(s: State) {
    && (forall i :: 0 <= i < |s.frames| ==> (s.frames[i].isComplete <==> s.frames[i].missing == []))
    && s.stats.completed == Whole(s.frames)
    && s.stats.completed + s.stats.incomplete == |s.frames|
  }

  lemma WholeGrows(frames: seq<Frame>, f: Frame)
    ensures Whole(frames + [f]) == Whole(frames) + if f.missing == [] then 1 else 0
  {
    assert (frames + [f])[..|frames|] == frames;
  }

  /** A context that still waits for a piece makes a frame with a missing piece. */
  lemma WaitingFrameMissesAPiece(cfg: Config, mem: Memory, key: ReassemblyKey, c: Context)
    requires Coherent(c) && !c.Complete()
    ensures MakeFrame(cfg, mem, key, c).missing != []
  {
    CompleteIffAllReceived(c);
    var i :| 0 <= i < c.totalFrags && !c.received[i];
    MissingSpec(c, c.totalFrags);
    assert i in Missing(c, c.totalFrags);
  }

  lemma MadeFrameFlagged(cfg: Config, mem: Memory, key: ReassemblyKey, c: Context)
    requires c.Shape()
    ensures var f := MakeFrame(cfg, mem, key, c); f.isComplete <==> f.missing == []
  {
  }

  lemma CompleteGraded(cfg: Config, mem: Memory, s: State, key: ReassemblyKey, expireMs: Option<u64>)
    requires Graded(s) && key in s.contexts && s.contexts[key].Shape()
    requires expireMs.Some? ==> Coherent(s.contexts[key]) && !s.contexts[key].Complete()
    ensures Graded(Complete(cfg, mem, s, key, expireMs))
  {
    hide MakeFrame, HeldBuffers, AddFrozen, Whole, Coherent, Context.Complete;
    var f := MakeFrame(cfg, mem, key, s.contexts[key]);
    MadeFrameFlagged(cfg, mem, key, s.contexts[key]);
    WholeGrows(s.frames, f);
    var emitted := s.(frames := s.frames + [f], stats := CountFrame(s.stats, f, expireMs.Some?));
    if expireMs.Some? {
      WaitingFrameMissesAPiece(cfg, mem, key, s.contexts[key]);
      FreezingOnlyTouchesTheRing(emitted, key, expireMs.value);
    }
  }

  lemma AddGraded(cfg: Config, mem: Memory, s: State, f: Fragment, r: FragmentRef, carrier: Carrier)
    requires f.key in s.contexts && s.contexts[f.key].Shape() && Graded(s)
    ensures Graded(AddToContext(cfg, mem, s, f, r, carrier))
  {
    hide AddToContext, Complete, Whole, StoreFragment;
    AddCases(cfg, mem, s, f, r, carrier);
    SnapshotShape(s.contexts[f.key], f);
    var c := WithSnapshot(s.contexts[f.key], f);
    if Judge(cfg, c, f) == Store {
      StoreShaped(cfg, c, f, r);
      var stored := s.(contexts := s.contexts[f.key := StoreFragment(c, f, r)]);
      if StoreFragment(c, f, r).Complete() {
        CompleteGraded(cfg, mem, stored, f.key, None);
      }
    }
  }

  lemma ProcessGraded(cfg: Config, mem: Memory, s: State, p: ParsedPacket, carrier: Carrier, now: u64)
    requires p.Valid() && ContextsShaped(s) && cfg.Valid() && Graded(s)
    ensures Graded(Process(cfg, mem, s, p, carrier, now))
  {
    hide ParseFragment, AddToContext, ScanFrozen, MakeRef, Whole;
    match ParseFragment(cfg, p)
    case None =>
    case Some(f) =>
      var scanned := s.(stats := s.stats.(received := s.stats.received + 1), frozen := ScanFrozen(s.frozen, f.key, now, 0).0);
      ReadiedShape(cfg, scanned, f, now);
      var readied := GetOrCreate(cfg, scanned, f, now);
      assert Graded(readied);
      if f.key in readied.contexts {
        AddGraded(cfg, mem, readied, f, MakeRef(p.payload.value, carrier, f), carrier);
      }
  }

  lemma {:induction false} ExpireAllGraded(cfg: Config, s: State, order: seq<Stamp>, timeoutMs: u32)
    requires ContextsShaped(s) && Sound(cfg, s) && Graded(s)
    ensures Graded(ExpireAll(cfg, s, order, timeoutMs))
    decreases |order|
  {
    hide Complete, Graded, Coherent, Context.Complete;
    if order != [] {
      var front, last := order[..|order| - 1], order[|order| - 1];
      ExpireAllGraded(cfg, s, front, timeoutMs);
      ExpireAllSound(cfg, s, front, timeoutMs);
      var before := ExpireAll(cfg, s, front, timeoutMs);
      if last.key in before.contexts {
        CompleteGraded(cfg, last.mem, before, last.key, Some((last.now + timeoutMs) % TWO64));
      }
    }
  }

  /** Over every run `completed` is the number of frames emitted whole and `incomplete` that of the others. */
  lemma {:induction false} FramesAreGraded(cfg: Config, events: seq<Event>)
    requires cfg.Valid() && PacketsValid(events)
    ensures Graded(RunFrom(cfg, Initial(cfg), events))
  {
    if events != [] {
      hide Graded, Process, ExpireAll, Sound;
      var front, e := events[..|events| - 1], events[|events| - 1];
      FramesAreGraded(cfg, front);
      EveryRunIsSound(cfg, front);
      var s := RunFrom(cfg, Initial(cfg), front);
      match e
      case Arrive(p, carrier, now, mem) => ProcessGraded(cfg, mem, s, p, carrier, now);
      case Sweep(_, order, timeoutMs) => ExpireAllGraded(cfg, s, order, timeoutMs);
      case FlushAll(order, timeoutMs) => ExpireAllGraded(cfg, s, order, timeoutMs);
    }
  }
}
