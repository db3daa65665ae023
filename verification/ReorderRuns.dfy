/** What every run of the reorderer keeps: no gap and no repeat in the output, exact accounting,
    delivered data that really arrived, and when a flush is in window order. */
module ReorderRuns {
  import opened Machine
  import opened Protocol
  import opened ReorderModel

  /** Every buffered packet is filed under its own number, within the window. */
  ghost predicate InWindow(cfg: Config, s: State) {
    forall k :: k in s.pending ==>
      Sub32(k, s.next) < TWO31 && Sub32(k, s.next) < cfg.window % TWO32 && s.pending[k].header.sequenceNumber == k
  }

  /** The state between two calls: additionally the head of the window is not buffered. */
  ghost predicate Settled(cfg: Config, s: State) {
    InWindow(cfg, s) && s.next !in s.pending && (!s.initialized ==> s.pending == map[])
  }

  lemma EmitHeadKeepsWindow(cfg: Config, s: State, now: int)
    requires InWindow(cfg, s) && s.next in s.pending
    ensures InWindow(cfg, EmitHead(s, now))
  {
    forall k | k in s.pending && k != s.next ensures Sub32(k, Add32(s.next, 1)) == Sub32(k, s.next) - 1 {
      SubNext32(k, s.next);
    }
  }

  lemma {:induction false} DrainSettles(cfg: Config, s: State, now: int)
    requires InWindow(cfg, s) && s.initialized
    ensures Settled(cfg, Drain(s, now)) && Drain(s, now).initialized
    decreases |s.pending|
  {
    if s.next in s.pending {
      EmitHeadKeepsWindow(cfg, s, now);
      RemovedKey(s.pending, s.next);
      DrainSettles(cfg, EmitHead(s, now), now);
    }
  }

  /** Stepping past a number that is not buffered keeps the window. */
  lemma AdvanceKeepsWindow(cfg: Config, s: State, now: int)
    requires Settled(cfg, s)
    ensures InWindow(cfg, Advance(s, now))
  {
    forall k | k in s.pending ensures Sub32(k, Add32(s.next, 1)) == Sub32(k, s.next) - 1 {
      SubNext32(k, s.next);
    }
  }

  lemma StepSettles(cfg: Config, s: State, e: Event)
    requires Settled(cfg, s)
    ensures Settled(cfg, Step(cfg, s, e))
  {
    match e
    case Arrive(p, now) =>
      var s1 := Start(s, p.header.sequenceNumber);
      if p.header.sequenceNumber == s1.next {
        AdvanceKeepsWindow(cfg, s1, now);
        DrainSettles(cfg, Emit(s1, p, now), now);
      }
    case Tick(now, timeoutMs) =>
      if Fires(s, now, timeoutMs) {
        AdvanceKeepsWindow(cfg, FillGap(cfg, s), now);
        DrainSettles(cfg, Advance(FillGap(cfg, s), now), now);
      }
    case FlushAll =>
  }

  lemma {:induction false} RunSettles(cfg: Config, start: int, events: seq<Event>)
    ensures Settled(cfg, Run(cfg, start, events))
  {
    if events != [] {
      RunSettles(cfg, start, events[..|events| - 1]);
      StepSettles(cfg, Run(cfg, start, events[..|events| - 1]), events[|events| - 1]);
    }
  }

  // ----- accounting -----

  function Arrivals(events: seq<Event>): nat {
    if events == [] then 0
    else Arrivals(events[..|events| - 1]) + if events[|events| - 1].Arrive? then 1 else 0
  }

  /** The number the window was opened at: that of the first packet to arrive. */
  function FirstSequence(events: seq<Event>): u32 {
    if events == [] then 0
    else if Arrivals(events[..|events| - 1]) > 0 then FirstSequence(events[..|events| - 1])
    else if events[|events| - 1].Arrive? then events[|events| - 1].packet.header.sequenceNumber
    else 0
  }

  /** The real packets of a log: everything but the zero-filled stand-ins. */
  function Data(log: seq<OrderedPacket>): seq<OrderedPacket> {
    if log == [] then []
    else Data(log[..|log| - 1]) + if log[|log| - 1].isZeroFilled then [] else [log[|log| - 1]]
  }

  lemma DataOfAppend(log: seq<OrderedPacket>, o: OrderedPacket)
    ensures Data(log + [o]) == Data(log) + if o.isZeroFilled then [] else [o]
  {
  }

  lemma {:induction false} DataOfDataAppend(log: seq<OrderedPacket>, more: seq<OrderedPacket>)
    requires forall i :: 0 <= i < |more| ==> !more[i].isZeroFilled
    ensures Data(log + more) == Data(log) + more
  {
    if more == [] {
      assert log + more == log;
    } else {
      var front, last := more[..|more| - 1], more[|more| - 1];
      assert log + more == (log + front) + [last];
      DataOfAppend(log + front, last);
      DataOfDataAppend(log, front);
    }
  }

  ghost predicate Accounted(s: State, arrivals: nat, first: u32) {
    && s.stats.buffered == |s.pending|
    && arrivals == s.stats.duplicate + s.stats.inOrder + s.stats.buffered
    && |s.log| == s.stats.inOrder + s.stats.zeroFilled
    && |Data(s.log)| == s.stats.inOrder
    && (s.initialized ==> s.next == Add32(first, s.stats.advanced))
  }

  lemma {:induction false} DrainAccounted(s: State, now: int, arrivals: nat, first: u32)
    requires Accounted(s, arrivals, first) && s.initialized
    ensures Accounted(Drain(s, now), arrivals, first)
    decreases |s.pending|
  {
    if s.next in s.pending {
      RemovedKey(s.pending, s.next);
      AddAdd32(first, s.stats.advanced, 1);
      DataOfAppend(s.log, Delivered(s.pending[s.next], s.next));
      DrainAccounted(EmitHead(s, now), now, arrivals, first);
    }
  }

  lemma EmittedAccounted(s: State, p: Packet, now: int, arrivals: nat, first: u32)
    requires Accounted(s, arrivals, first) && s.initialized
    ensures Accounted(Emit(s, p, now), arrivals + 1, first)
  {
    AddAdd32(first, s.stats.advanced, 1);
    DataOfAppend(s.log, Delivered(p, s.next));
  }

  lemma ArriveAccounted(cfg: Config, s: State, p: Packet, now: int, arrivals: nat, first: u32)
    requires Settled(cfg, s) && Accounted(s, arrivals, first)
    requires !s.initialized ==> first == p.header.sequenceNumber && s.stats.advanced == 0
    ensures Accounted(Step(cfg, s, Arrive(p, now)), arrivals + 1, first)
  {
    hide Drain, Data;
    var s1 := Start(s, p.header.sequenceNumber);
    if p.header.sequenceNumber == s1.next {
      hide Accounted;
      StartAccounted(s, p.header.sequenceNumber, arrivals, first);
      EmittedAccounted(s1, p, now, arrivals, first);
      DrainAccounted(Emit(s1, p, now), now, arrivals + 1, first);
    }
  }

  lemma StartAccounted(s: State, sequence: u32, arrivals: nat, first: u32)
    requires Accounted(s, arrivals, first) && (!s.initialized ==> first == sequence && s.stats.advanced == 0)
    ensures Accounted(Start(s, sequence), arrivals, first) && Start(s, sequence).initialized
  {
  }

  lemma TickAccounted(cfg: Config, s: State, now: int, timeoutMs: u32, arrivals: nat, first: u32)
    requires Accounted(s, arrivals, first)
    ensures Accounted(Step(cfg, s, Tick(now, timeoutMs)), arrivals, first)
  {
    AddAdd32(first, s.stats.advanced, 1);
    DataOfAppend(s.log, ZeroFilled(s.next));
    if Fires(s, now, timeoutMs) {
      DrainAccounted(Advance(FillGap(cfg, s), now), now, arrivals, first);
    }
  }

  lemma FlushAccounted(cfg: Config, s: State, arrivals: nat, first: u32)
    requires Accounted(s, arrivals, first)
    ensures Accounted(Step(cfg, s, FlushAll), arrivals, first)
  {
    hide Ascending;
    AscendingMembers(s.pending.Keys);
    assert |s.pending.Keys| == |s.pending|;
    DataOfDataAppend(s.log, Deliveries(s.pending, Ascending(s.pending.Keys)));
  }

  lemma StepAccounted(cfg: Config, s: State, e: Event, arrivals: nat, first: u32)
    requires Settled(cfg, s) && Accounted(s, arrivals, first)
    requires !s.initialized && e.Arrive? ==> first == e.packet.header.sequenceNumber
    requires !s.initialized ==> s.stats.advanced == 0
    ensures Accounted(Step(cfg, s, e), arrivals + if e.Arrive? then 1 else 0, first)
  {
    hide Accounted, Step, Settled;
    match e
    case Arrive(p, now) => ArriveAccounted(cfg, s, p, now, arrivals, first);
    case Tick(now, timeoutMs) => TickAccounted(cfg, s, now, timeoutMs, arrivals, first);
    case FlushAll => FlushAccounted(cfg, s, arrivals, first);
  }

  lemma {:induction false} DrainStaysInitialized(s: State, now: int)
    ensures Drain(s, now).initialized == s.initialized
    decreases |s.pending|
  {
    if s.next in s.pending {
      RemovedKey(s.pending, s.next);
      DrainStaysInitialized(EmitHead(s, now), now);
    }
  }

  /** Before the first packet arrives nothing has happened at all. */
  lemma {:induction false} InitializedByFirstArrival(cfg: Config, start: int, events: seq<Event>)
    ensures var s := Run(cfg, start, events);
      (s.initialized <==> Arrivals(events) > 0) && (!s.initialized ==> s == Initial(start))
  {
    if events != [] {
      var front, e := events[..|events| - 1], events[|events| - 1];
      InitializedByFirstArrival(cfg, start, front);
      var s := Run(cfg, start, front);
      match e
      case Arrive(p, now) =>
        DrainStaysInitialized(Emit(Start(s, p.header.sequenceNumber), p, now), now);
      case Tick(now, timeoutMs) =>
        DrainStaysInitialized(Advance(FillGap(cfg, s), now), now);
      case FlushAll =>
        AscendingMembers({});
        assert s.pending.Keys == {} ==> Ascending(s.pending.Keys) == [];
    }
  }

  /** In every reachable state: each arrival was counted as a duplicate, delivered or is still
      buffered; each delivery is a real packet or a stand-in; the buffer counter is the number of
      buffered packets; and the expected number is the first one plus the advances. */
  lemma {:induction false} Conservation(cfg: Config, start: int, events: seq<Event>)
    ensures Accounted(Run(cfg, start, events), Arrivals(events), FirstSequence(events))
  {
    if events != [] {
      var front := events[..|events| - 1];
      Conservation(cfg, start, front);
      RunSettles(cfg, start, front);
      InitializedByFirstArrival(cfg, start, front);
      StepAccounted(cfg, Run(cfg, start, front), events[|events| - 1], Arrivals(front), FirstSequence(events));
    }
  }

  // ----- gap-free output -----

  /** The log carries the numbers `first`, `first + 1`, ... modulo 2^32 and the window stands right after it. */
  ghost predicate Gapless(s: State, first: u32) {
    && |s.log| == s.stats.advanced
    && (s.initialized ==> s.next == Add32(first, |s.log|))
    && forall i :: 0 <= i < |s.log| ==> s.log[i].sequenceNumber == Add32(first, i)
  }

  lemma {:induction false} DrainGapless(s: State, now: int, first: u32)
    requires Gapless(s, first) && s.initialized
    ensures Gapless(Drain(s, now), first)
    decreases |s.pending|
  {
    if s.next in s.pending {
      RemovedKey(s.pending, s.next);
      AddAdd32(first, |s.log|, 1);
      DrainGapless(EmitHead(s, now), now, first);
    }
  }

  /** With zero fill and no flush the output of any run is an unbroken sequence of numbers. */
  lemma {:induction false} OutputHasNoGapsOrRepeats(cfg: Config, start: int, events: seq<Event>)
    requires cfg.zeroFill && FlushAll !in events
    ensures Gapless(Run(cfg, start, events), FirstSequence(events))
  {
    if events != [] {
      var front, e := events[..|events| - 1], events[|events| - 1];
      OutputHasNoGapsOrRepeats(cfg, start, front);
      InitializedByFirstArrival(cfg, start, front);
      var s, first := Run(cfg, start, front), FirstSequence(events);
      AddAdd32(first, |s.log|, 1);
      match e
      case Arrive(p, now) =>
        var s1 := Start(s, p.header.sequenceNumber);
        if p.header.sequenceNumber == s1.next {
          DrainGapless(Emit(s1, p, now), now, first);
        }
      case Tick(now, timeoutMs) =>
        if Fires(s, now, timeoutMs) {
          DrainGapless(Advance(FillGap(cfg, s), now), now, first);
        }
      case FlushAll =>
    }
  }

  // ----- zero fill off -----

  function Strip(s: State): State {
    s.(log := Data(s.log), stats := s.stats.(zeroFilled := 0))
  }

  lemma {:induction false} StripDrain(s: State, now: int)
    ensures Strip(Drain(s, now)) == Drain(Strip(s), now)
    decreases |s.pending|
  {
    if s.next in s.pending {
      RemovedKey(s.pending, s.next);
      DataOfAppend(s.log, Delivered(s.pending[s.next], s.next));
      assert Strip(EmitHead(s, now)) == EmitHead(Strip(s), now);
      StripDrain(EmitHead(s, now), now);
    }
  }

  lemma StripArrive(cfg: Config, s: State, p: Packet, now: int)
    ensures Strip(Insert(cfg.(zeroFill := true), s, p, now)) == Insert(cfg.(zeroFill := false), Strip(s), p, now)
  {
    hide Drain, Emit, Data;
    var s1 := Start(s, p.header.sequenceNumber);
    assert Strip(s1) == Start(Strip(s), p.header.sequenceNumber);
    StripEmit(s1, p, now);
    StripDrain(Emit(s1, p, now), now);
  }

  lemma StripEmit(s: State, p: Packet, now: int)
    ensures Strip(Emit(s, p, now)) == Emit(Strip(s), p, now)
  {
    DataOfAppend(s.log, Delivered(p, s.next));
  }

  lemma StripTick(cfg: Config, s: State, now: int, timeoutMs: u32)
    ensures Strip(Timeout(cfg.(zeroFill := true), s, now, timeoutMs)) == Timeout(cfg.(zeroFill := false), Strip(s), now, timeoutMs)
  {
    DataOfAppend(s.log, ZeroFilled(s.next));
    assert Data(s.log) + [] == Data(s.log);
    assert Strip(FillGap(cfg.(zeroFill := true), s)) == Strip(s);
    StripDrain(Advance(FillGap(cfg.(zeroFill := true), s), now), now);
  }

  lemma StripFlush(s: State)
    ensures Strip(Flush(s)) == Flush(Strip(s))
  {
    AscendingMembers(s.pending.Keys);
    DataOfDataAppend(s.log, Deliveries(s.pending, Ascending(s.pending.Keys)));
  }

  lemma StripStep(cfg: Config, s: State, e: Event)
    ensures Strip(Step(cfg.(zeroFill := true), s, e)) == Step(cfg.(zeroFill := false), Strip(s), e)
  {
    match e
    case Arrive(p, now) => StripArrive(cfg, s, p, now);
    case Tick(now, timeoutMs) => StripTick(cfg, s, now, timeoutMs);
    case FlushAll => StripFlush(s);
  }

  /** Without zero fill the output is the gap-free output minus its stand-ins, so the numbers it
      skips are exactly those a timeout stepped over. */
  lemma {:induction false} SkippedNumbersAreTheTimeouts(cfg: Config, start: int, events: seq<Event>)
    ensures Run(cfg.(zeroFill := false), start, events) == Strip(Run(cfg.(zeroFill := true), start, events))
  {
    if events != [] {
      var front := events[..|events| - 1];
      SkippedNumbersAreTheTimeouts(cfg, start, front);
      StripStep(cfg, Run(cfg.(zeroFill := true), start, front), events[|events| - 1]);
    }
  }

  // ----- what becomes of an arrival -----

  /** How far ahead of the expected number `sequence` is after the run, going up round the circle. */
  ghost function Ahead(cfg: Config, start: int, events: seq<Event>, sequence: u32): nat {
    if Arrivals(events) == 0 then 0 else (sequence - FirstSequence(events) - Run(cfg, start, events).stats.advanced) % TWO32
  }

  /** What becomes of a packet `d` ahead of the expected number: the expected one is delivered at once, with its bytes; one
      ahead by less than the window and half the circle that is not there yet is kept under its number; every other is
      counted as a duplicate and leaves no trace. */
  ghost predicate Filed(cfg: Config, s: State, s': State, p: Packet, d: nat) {
    var number := p.header.sequenceNumber;
    if d == 0 then
      && |s.log| < |s'.log| && s'.log[..|s.log|] == s.log && s'.log[|s.log|].payload == p.payload && s'.log[|s.log|].sequenceNumber == number
      && s'.stats.outOfOrder == s.stats.outOfOrder && s'.stats.duplicate == s.stats.duplicate
    else if d < TWO31 && d < cfg.window % TWO32 && number !in s.pending then
      s' == s.(pending := s.pending[number := p],
               stats := s.stats.(outOfOrder := s.stats.outOfOrder + 1, buffered := s.stats.buffered + 1))
    else s' == s.(stats := s.stats.(duplicate := s.stats.duplicate + 1))
  }

  lemma InsertFiles(cfg: Config, s: State, p: Packet, now: int)
    ensures Filed(cfg, s, Insert(cfg, s, p, now), p, Sub32(p.header.sequenceNumber, Start(s, p.header.sequenceNumber).next))
  {
    hide Drain;
    DrainOnlyDelivers(Emit(Start(s, p.header.sequenceNumber), p, now), now);
  }

  lemma ArrivalIsFiled(cfg: Config, start: int, events: seq<Event>, p: Packet, now: int)
    ensures Filed(cfg, Run(cfg, start, events), Run(cfg, start, events + [Arrive(p, now)]), p,
                  Ahead(cfg, start, events, p.header.sequenceNumber))
  {
    hide Insert, Filed, Ahead;
    assert (events + [Arrive(p, now)])[..|events|] == events;
    InitializedByFirstArrival(cfg, start, events);
    Conservation(cfg, start, events);
    AheadIsDistance(cfg, start, events, p.header.sequenceNumber);
    InsertFiles(cfg, Run(cfg, start, events), p, now);
  }

  lemma AheadIsDistance(cfg: Config, start: int, events: seq<Event>, sequence: u32)
    requires var s := Run(cfg, start, events); s.initialized <==> Arrivals(events) > 0
    requires var s := Run(cfg, start, events); s.initialized ==> s.next == Add32(FirstSequence(events), s.stats.advanced)
    ensures Ahead(cfg, start, events, sequence) == Sub32(sequence, Start(Run(cfg, start, events), sequence).next)
  {
    hide Run, FirstSequence, Arrivals;
  }

  lemma {:induction false} DrainOnlyDelivers(s: State, now: int)
    ensures var s' := Drain(s, now);
      && |s.log| <= |s'.log| && s'.log[..|s.log|] == s.log
      && s'.stats.outOfOrder == s.stats.outOfOrder && s'.stats.duplicate == s.stats.duplicate
    decreases |s.pending|
  {
    if s.next in s.pending {
      RemovedKey(s.pending, s.next);
      DrainOnlyDelivers(EmitHead(s, now), now);
    }
  }

  // ----- when a timeout steps over a gap -----

  /** The time of the last event that moved the window, or the start. */
  ghost function LastStep(cfg: Config, start: int, events: seq<Event>): int {
    if events == [] then start
    else
      var front, e := events[..|events| - 1], events[|events| - 1];
      if e.FlushAll? || Run(cfg, start, events).stats.advanced == Run(cfg, start, front).stats.advanced then LastStep(cfg, start, front)
      else e.now
  }

  /** A window that moved has the time of the move. */
  predicate Moved(s: State, s': State, now: int) {
    if s'.stats.advanced == s.stats.advanced then s'.lastAdvance == s.lastAdvance
    else s'.stats.advanced > s.stats.advanced && s'.lastAdvance == now
  }

  lemma {:induction false} DrainMoves(s: State, now: int)
    ensures Moved(s, Drain(s, now), now)
    decreases |s.pending|
  {
    if s.next in s.pending {
      RemovedKey(s.pending, s.next);
      DrainMoves(EmitHead(s, now), now);
    }
  }

  lemma ArriveMoves(cfg: Config, s: State, p: Packet, now: int)
    ensures Moved(s, Insert(cfg, s, p, now), now)
  {
    hide Drain;
    DrainMoves(Emit(Start(s, p.header.sequenceNumber), p, now), now);
  }

  lemma TickMoves(cfg: Config, s: State, now: int, timeoutMs: u32)
    ensures Moved(s, Timeout(cfg, s, now, timeoutMs), now)
    ensures Timeout(cfg, s, now, timeoutMs).stats.advanced > s.stats.advanced <==> Fires(s, now, timeoutMs)
    ensures !Fires(s, now, timeoutMs) ==> Timeout(cfg, s, now, timeoutMs) == s
  {
    hide Drain, Fires;
    DrainMoves(Advance(FillGap(cfg, s), now), now);
  }

  lemma {:induction false} WindowKnowsItsLastStep(cfg: Config, start: int, events: seq<Event>)
    ensures Run(cfg, start, events).lastAdvance == LastStep(cfg, start, events)
  {
    if events != [] {
      hide Insert, Timeout;
      var front, e := events[..|events| - 1], events[|events| - 1];
      WindowKnowsItsLastStep(cfg, start, front);
      var s := Run(cfg, start, front);
      match e
      case Arrive(p, now) => ArriveMoves(cfg, s, p, now);
      case Tick(now, timeoutMs) => TickMoves(cfg, s, now, timeoutMs);
      case FlushAll =>
    }
  }

  /** After any run, a tick moves the window if and only if a packet has arrived and the whole milliseconds since the
      window last moved reach the timeout; otherwise it changes nothing. With a timeout of zero that is any clock not a
      whole millisecond behind. */
  lemma TickStepsOverIff(cfg: Config, start: int, events: seq<Event>, now: int, timeoutMs: u32)
    ensures var s, s', since := Run(cfg, start, events), Run(cfg, start, events + [Tick(now, timeoutMs)]), LastStep(cfg, start, events);
      && (s'.stats.advanced > s.stats.advanced <==>
            && (exists i :: 0 <= i < |events| && events[i].Arrive?)
            && if timeoutMs > 0 then now - since >= timeoutMs * 1_000_000 else now - since > -1_000_000)
      && (s'.stats.advanced > s.stats.advanced || s' == s)
  {
    hide Timeout, LastStep, ElapsedMs;
    assert (events + [Tick(now, timeoutMs)])[..|events|] == events;
    TickMoves(cfg, Run(cfg, start, events), now, timeoutMs);
    WindowKnowsItsLastStep(cfg, start, events);
    InitializedByFirstArrival(cfg, start, events);
    SomeArrival(events);
    WholeMilliseconds(now, LastStep(cfg, start, events), timeoutMs);
  }

  lemma {:induction false} SomeArrival(events: seq<Event>)
    ensures Arrivals(events) > 0 <==> exists i :: 0 <= i < |events| && events[i].Arrive?
  {
    if events != [] {
      var n := |events| - 1;
      SomeArrival(events[..n]);
      if i :| 0 <= i < |events| && events[i].Arrive? {
        assert i < n ==> events[..n][i].Arrive?;
      }
    }
  }

  lemma WholeMilliseconds(now: int, since: int, timeoutMs: u32)
    ensures ElapsedMs(now, since) >= timeoutMs <==>
      if timeoutMs > 0 then now - since >= timeoutMs * 1_000_000 else now - since > -1_000_000
  {
  }

  // ----- nothing is invented -----

  ghost predicate Arrived(events: seq<Event>, p: Packet) {
    exists i :: 0 <= i < |events| && events[i].Arrive? && events[i].packet == p
  }

  ghost predicate Authentic(s: State, events: seq<Event>) {
    && (forall k :: k in s.pending ==> Arrived(events, s.pending[k]))
    && forall o :: o in s.log ==>
         o == ZeroFilled(o.sequenceNumber) ||
         exists p :: Arrived(events, p) && p.header.sequenceNumber == o.sequenceNumber && o == Delivered(p, o.sequenceNumber)
  }

  lemma {:induction false} DrainAuthentic(cfg: Config, s: State, now: int, events: seq<Event>)
    requires Authentic(s, events) && InWindow(cfg, s)
    ensures Authentic(Drain(s, now), events)
    decreases |s.pending|
  {
    if s.next in s.pending {
      RemovedKey(s.pending, s.next);
      EmitHeadKeepsWindow(cfg, s, now);
      var p := s.pending[s.next];
      assert Arrived(events, p) && p.header.sequenceNumber == s.next;
      DrainAuthentic(cfg, EmitHead(s, now), now, events);
    }
  }

  lemma StepAuthentic(cfg: Config, s: State, e: Event, events: seq<Event>)
    requires Settled(cfg, s) && Authentic(s, events)
    requires e.Arrive? ==> Arrived(events, e.packet)
    ensures Authentic(Step(cfg, s, e), events)
  {
    match e
    case Arrive(p, now) =>
      var s1 := Start(s, p.header.sequenceNumber);
      if p.header.sequenceNumber == s1.next {
        AdvanceKeepsWindow(cfg, s1, now);
        DrainAuthentic(cfg, Emit(s1, p, now), now, events);
      }
    case Tick(now, timeoutMs) =>
      if Fires(s, now, timeoutMs) {
        AdvanceKeepsWindow(cfg, FillGap(cfg, s), now);
        DrainAuthentic(cfg, Advance(FillGap(cfg, s), now), now, events);
      }
    case FlushAll =>
      var order := Ascending(s.pending.Keys);
      AscendingMembers(s.pending.Keys);
      forall o | o in Deliveries(s.pending, order)
        ensures exists p :: Arrived(events, p) && p.header.sequenceNumber == o.sequenceNumber && o == Delivered(p, o.sequenceNumber)
      {
        var i :| 0 <= i < |order| && o == Deliveries(s.pending, order)[i];
        assert order[i] in order;
        assert Arrived(events, s.pending[order[i]]);
      }
  }

  lemma ArrivedMonotone(front: seq<Event>, e: Event, s: State)
    requires Authentic(s, front)
    ensures Authentic(s, front + [e])
    ensures e.Arrive? ==> Arrived(front + [e], e.packet)
  {
    forall p | Arrived(front, p) ensures Arrived(front + [e], p) {
      var i :| 0 <= i < |front| && front[i].Arrive? && front[i].packet == p;
      assert (front + [e])[i] == front[i];
    }
    assert (front + [e])[|front|] == e;
  }

  /** Every packet delivered is one that arrived under the number it is delivered under, or a
      zero-filled stand-in, whatever flushes and timeouts the run contains. */
  lemma {:induction false} DeliveredPacketsArrived(cfg: Config, start: int, events: seq<Event>)
    ensures Authentic(Run(cfg, start, events), events)
  {
    if events != [] {
      var front, e := events[..|events| - 1], events[|events| - 1];
      DeliveredPacketsArrived(cfg, start, front);
      RunSettles(cfg, start, front);
      assert events == front + [e];
      ArrivedMonotone(front, e, Run(cfg, start, front));
      StepAuthentic(cfg, Run(cfg, start, front), e, events);
    }
  }

  // ----- the order of a flush -----

  predicate InWindowOrder(next: u32, order: seq<u32>) {
    forall i, j :: 0 <= i < j < |order| ==> Sub32(order[i], next) < Sub32(order[j], next)
  }

  /** The window holds numbers on both sides of the 2^32 boundary. */
  ghost predicate CrossesWrap(s: State) {
    exists a, b :: a in s.pending && b in s.pending && a < s.next < b
  }

  lemma WrapBreaksOrder(next: u32, order: seq<u32>, a: u32, b: u32)
    requires IsAscending(order) && a in order && b in order && a < next < b
    ensures !InWindowOrder(next, order)
  {
  }

  lemma OneSideKeepsOrder(next: u32, order: seq<u32>)
    requires IsAscending(order) && next !in order
    requires (forall k :: k in order ==> next < k) || (forall k :: k in order ==> k < next)
    ensures InWindowOrder(next, order)
  {
    forall i, j | 0 <= i < j < |order| ensures Sub32(order[i], next) < Sub32(order[j], next) {
      assert order[i] in order && order[j] in order;
    }
  }

  /** A flush delivers by raw number; that is the order of the window exactly when the buffered
      numbers do not lie on both sides of the wrap. */
  lemma FlushOrderIsWindowOrderIff(s: State)
    requires s.next !in s.pending
    ensures InWindowOrder(s.next, Ascending(s.pending.Keys)) <==> !CrossesWrap(s)
  {
    hide Ascending, InWindowOrder, IsAscending;
    var order := Ascending(s.pending.Keys);
    AscendingMembers(s.pending.Keys);
    AscendingSorted(s.pending.Keys);
    if CrossesWrap(s) {
      var a, b :| a in s.pending && b in s.pending && a < s.next < b;
      WrapBreaksOrder(s.next, order, a, b);
    } else {
      OneSideKeepsOrder(s.next, order);
    }
  }

  function Probe(sequence: u32): Event {
    Arrive(Packet(ZERO_HEADER.(sequenceNumber := sequence), []), 0)
  }

  /** Three packets around the wrap, then a flush: number 0 is delivered before number 2^32 - 1. */
  lemma FlushAcrossWrapIsOutOfOrder()
    ensures
      var events := [Probe(TWO32 - 3), Probe(TWO32 - 1), Probe(0)];
      var s := Run(Config(512, true), 0, events);
      CrossesWrap(s) && !InWindowOrder(s.next, Ascending(s.pending.Keys))
  {
    var cfg := Config(512, true);
    var e1, e2, e3 := Probe(TWO32 - 3), Probe(TWO32 - 1), Probe(0);
    var s0 := Initial(0);
    var s1 := Step(cfg, s0, e1);
    assert s1.next == TWO32 - 2 && s1.pending == map[];
    var s2 := Step(cfg, s1, e2);
    assert s2.next == TWO32 - 2 && s2.pending.Keys == {TWO32 - 1};
    var s3 := Step(cfg, s2, e3);
    assert s3.next == TWO32 - 2 && 0 in s3.pending && TWO32 - 1 in s3.pending;
    assert [e1, e2, e3][..2] == [e1, e2] && [e1, e2][..1] == [e1] && [e1][..0] == [];
    assert Run(cfg, 0, [e1]) == s1;
    assert Run(cfg, 0, [e1, e2]) == s2;
    assert Run(cfg, 0, [e1, e2, e3]) == s3;
    RunSettles(cfg, 0, [e1, e2, e3]);
    FlushOrderIsWindowOrderIff(s3);
  }
}
