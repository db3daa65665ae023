/** The pipeline over whole runs: packets, timeouts and flushes of the reassembler and of the reorderer in any order.
    Whatever is delivered as real data is a frame of the reassembler, marked as incomplete exactly when it is. */
module PipelineRuns {
  import opened Machine
  import opened Protocol
  import opened EndToEnd
  import opened Assembly
  import A = ReassemblyModel
  import R = ReorderModel
  import ReorderRuns
  import ReassemblyRuns
  import ReassemblyCounters
  import FrozenKeys
  import Faithful = FaithfulFrames

  /** A call of the reassembler, with a clock reading for each frame that it hands on, or one of the reorderer. */
  datatype Event =
    | Reassemble(call: A.Event, ticks: seq<int>)
    | Tick(now: int, timeoutMs: u32)
    | FlushOrder

  ghost predicate CallFits(cfg: A.Config, asm: A.State, call: A.Event) {
    cfg.Valid() && A.ContextsShaped(asm) && (call.Arrive? ==> call.packet.Valid())
  }

  ghost predicate CanStep(cfg: A.Config, s: Pipe, e: Event) {
    e.Reassemble? ==> CallFits(cfg, s.asm, e.call) && |e.ticks| == |NewFrames(s.asm, A.Step(cfg, s.asm, e.call))|
  }

  ghost function Step(cfg: A.Config, rcfg: R.Config, s: Pipe, e: Event): Pipe
    requires CanStep(cfg, s, e)
  {
    match e
    case Reassemble(call, ticks) =>
      var asm := A.Step(cfg, s.asm, call);
      Pipe(asm, Feed(rcfg, s.ord, NewFrames(s.asm, asm), ticks))
    case Tick(now, timeoutMs) => s.(ord := R.Timeout(rcfg, s.ord, now, timeoutMs))
    case FlushOrder => s.(ord := R.Flush(s.ord))
  }

  /** `pipes` are the states that a run goes through. */
  ghost predicate Trace(cfg: A.Config, rcfg: R.Config, start: int, events: seq<Event>, pipes: seq<Pipe>) {
    && cfg.Valid() && |pipes| == |events| + 1 && pipes[0] == Pipe(A.Initial(cfg), R.Initial(start))
    && forall i :: 0 <= i < |events| ==> CanStep(cfg, pipes[i], events[i]) && pipes[i + 1] == Step(cfg, rcfg, pipes[i], events[i])
  }

  // ----- frames are only ever added -----

  lemma {:induction false} ExpireAllAddsFrames(cfg: A.Config, s: A.State, order: seq<A.Stamp>, timeoutMs: u32)
    requires A.ContextsShaped(s)
    ensures s.frames <= A.ExpireAll(cfg, s, order, timeoutMs).frames
    decreases |order|
  {
    hide A.Complete;
    if order != [] {
      var front, last := order[..|order| - 1], order[|order| - 1];
      ExpireAllAddsFrames(cfg, s, front, timeoutMs);
      var before := A.ExpireAll(cfg, s, front, timeoutMs);
      if last.key in before.contexts {
        ReassemblyRuns.CompleteEffect(cfg, last.mem, before, last.key, Some((last.now + timeoutMs) % TWO64));
      }
    }
  }

  lemma CallAddsFrames(cfg: A.Config, s: A.State, call: A.Event)
    requires CallFits(cfg, s, call)
    ensures s.frames <= A.Step(cfg, s, call).frames
    ensures A.Step(cfg, s, call).frames == s.frames + NewFrames(s, A.Step(cfg, s, call))
  {
    hide A.Process, A.ExpireAll;
    match call
    case Arrive(p, carrier, now, mem) => FrozenKeys.ProcessFrame(cfg, mem, s, p, carrier, now);
    case Sweep(_, order, timeoutMs) => ExpireAllAddsFrames(cfg, s, order, timeoutMs);
    case FlushAll(order, timeoutMs) => ExpireAllAddsFrames(cfg, s, order, timeoutMs);
  }

  // ----- the reassembler's own run -----

  /** The calls of the reassembler in a run. */
  function Calls(events: seq<Event>): seq<A.Event> {
    if events == [] then []
    else
      var last := events[|events| - 1];
      Calls(events[..|events| - 1]) + if last.Reassemble? then [last.call] else []
  }

  /** The reorderer never reaches back: the reassembler's state is that of its own run. */
  lemma {:induction false} AssemblerRuns(cfg: A.Config, rcfg: R.Config, start: int, events: seq<Event>, pipes: seq<Pipe>, n: nat)
    requires Trace(cfg, rcfg, start, events, pipes) && n <= |events|
    ensures A.PacketsValid(Calls(events[..n]))
    ensures pipes[n].asm == A.RunFrom(cfg, A.Initial(cfg), Calls(events[..n]))
  {
    if n > 0 {
      hide A.Step, Feed, A.RunFrom, A.PacketsValid, R.Timeout, R.Flush, A.ContextsShaped;
      AssemblerRuns(cfg, rcfg, start, events, pipes, n - 1);
      assert events[..n][..n - 1] == events[..n - 1];
      assert pipes[n - 1 + 1] == Step(cfg, rcfg, pipes[n - 1], events[n - 1]);
      if events[n - 1].Reassemble? {
        OneMoreCall(cfg, Calls(events[..n - 1]), events[n - 1].call);
      } else {
        assert Calls(events[..n]) == Calls(events[..n - 1]);
      }
    }
  }

  lemma OneMoreCall(cfg: A.Config, calls: seq<A.Event>, call: A.Event)
    requires cfg.Valid() && A.PacketsValid(calls) && (call.Arrive? ==> call.packet.Valid())
    ensures A.PacketsValid(calls + [call])
    ensures var s := A.RunFrom(cfg, A.Initial(cfg), calls);
      A.ContextsShaped(s) && A.RunFrom(cfg, A.Initial(cfg), calls + [call]) == A.Step(cfg, s, call)
  {
    hide A.Step;
    assert (calls + [call])[..|calls|] == calls;
  }

  // ----- the reorderer's own run -----

  function Insertions(frames: seq<A.Frame>, ticks: seq<int>): (es: seq<R.Event>)
    requires |ticks| == |frames|
    ensures |es| == |frames|
  {
    seq(|frames|, i requires 0 <= i < |frames| => R.Arrive(Forward(frames[i]), ticks[i]))
  }

  lemma {:induction false} FeedRuns(rcfg: R.Config, start: int, es: seq<R.Event>, frames: seq<A.Frame>, ticks: seq<int>)
    requires |ticks| == |frames|
    ensures R.Run(rcfg, start, es + Insertions(frames, ticks)) == Feed(rcfg, R.Run(rcfg, start, es), frames, ticks)
  {
    hide R.Insert, Forward;
    if frames == [] {
      assert es + Insertions(frames, ticks) == es;
    } else {
      var n := |frames| - 1;
      FeedRuns(rcfg, start, es, frames[..n], ticks[..n]);
      var all := es + Insertions(frames, ticks);
      assert all[..|all| - 1] == es + Insertions(frames[..n], ticks[..n]);
      assert all[|all| - 1] == R.Arrive(Forward(frames[n]), ticks[n]);
    }
  }

  /** The calls of the reorderer up to `n`. */
  ghost function OrderCalls(events: seq<Event>, pipes: seq<Pipe>, n: nat): seq<R.Event>
    requires n <= |events| < |pipes|
  {
    if n == 0 then []
    else
      OrderCalls(events, pipes, n - 1) + match events[n - 1]
        case Reassemble(_, ticks) =>
          var frames := NewFrames(pipes[n - 1].asm, pipes[n].asm);
          if |ticks| == |frames| then Insertions(frames, ticks) else []
        case Tick(now, timeoutMs) => [R.Tick(now, timeoutMs)]
        case FlushOrder => [R.FlushAll]
  }

  lemma {:induction false} OrdererRuns(cfg: A.Config, rcfg: R.Config, start: int, events: seq<Event>, pipes: seq<Pipe>, n: nat)
    requires Trace(cfg, rcfg, start, events, pipes) && n <= |events|
    ensures pipes[n].ord == R.Run(rcfg, start, OrderCalls(events, pipes, n))
  {
    hide A.Step, Feed, Insertions, R.Timeout, R.Flush;
    if n > 0 {
      OrdererRuns(cfg, rcfg, start, events, pipes, n - 1);
      assert pipes[n - 1 + 1] == Step(cfg, rcfg, pipes[n - 1], events[n - 1]);
      var before, es := OrderCalls(events, pipes, n - 1), OrderCalls(events, pipes, n);
      match events[n - 1]
      case Reassemble(_, ticks) => FeedRuns(rcfg, start, before, NewFrames(pipes[n - 1].asm, pipes[n].asm), ticks);
      case Tick(now, timeoutMs) => assert es[..|es| - 1] == before;
      case FlushOrder => assert es[..|es| - 1] == before;
    }
  }

  ghost predicate FromFrames(es: seq<R.Event>, frames: seq<A.Frame>) {
    forall j :: 0 <= j < |es| && es[j].Arrive? ==> exists i :: 0 <= i < |frames| && es[j].packet == Forward(frames[i])
  }

  lemma FromMoreFrames(es: seq<R.Event>, frames: seq<A.Frame>, more: seq<A.Frame>, ticks: seq<int>)
    requires FromFrames(es, frames) && |ticks| == |more|
    ensures FromFrames(es + Insertions(more, ticks), frames + more)
  {
    hide Forward;
    var all, grown := es + Insertions(more, ticks), frames + more;
    forall j | 0 <= j < |all| && all[j].Arrive? ensures exists i :: 0 <= i < |grown| && all[j].packet == Forward(grown[i]) {
      if j < |es| {
        var i :| 0 <= i < |frames| && es[j].packet == Forward(frames[i]);
        assert grown[i] == frames[i];
      } else {
        assert grown[|frames| + j - |es|] == more[j - |es|];
      }
    }
  }

  lemma {:induction false} ArrivalsAppend(es: seq<R.Event>, frames: seq<A.Frame>, ticks: seq<int>)
    requires |ticks| == |frames|
    ensures ReorderRuns.Arrivals(es + Insertions(frames, ticks)) == ReorderRuns.Arrivals(es) + |frames|
  {
    hide Forward;
    if frames == [] {
      assert es + Insertions(frames, ticks) == es;
    } else {
      var n := |frames| - 1;
      ArrivalsAppend(es, frames[..n], ticks[..n]);
      var all := es + Insertions(frames, ticks);
      assert all[..|all| - 1] == es + Insertions(frames[..n], ticks[..n]);
    }
  }

  /** What the reorderer is given is exactly what the reassembler put out. */
  lemma {:induction false} OnlyFramesAreInserted(cfg: A.Config, rcfg: R.Config, start: int, events: seq<Event>, pipes: seq<Pipe>, n: nat)
    requires Trace(cfg, rcfg, start, events, pipes) && n <= |events|
    ensures FromFrames(OrderCalls(events, pipes, n), pipes[n].asm.frames)
    ensures ReorderRuns.Arrivals(OrderCalls(events, pipes, n)) == |pipes[n].asm.frames|
  {
    hide A.Step, Feed, Insertions, R.Timeout, R.Flush;
    if n > 0 {
      OnlyFramesAreInserted(cfg, rcfg, start, events, pipes, n - 1);
      assert pipes[n - 1 + 1] == Step(cfg, rcfg, pipes[n - 1], events[n - 1]);
      var before, es := OrderCalls(events, pipes, n - 1), OrderCalls(events, pipes, n);
      match events[n - 1]
      case Reassemble(call, ticks) =>
        var more := NewFrames(pipes[n - 1].asm, pipes[n].asm);
        CallAddsFrames(cfg, pipes[n - 1].asm, call);
        FromMoreFrames(before, pipes[n - 1].asm.frames, more, ticks);
        ArrivalsAppend(before, more, ticks);
      case Tick(now, timeoutMs) => assert es[..|es| - 1] == before;
      case FlushOrder => assert es[..|es| - 1] == before;
    }
  }

  // ----- what is delivered -----

  /** The delivered packet is the frame: its bytes under its number, from its source, marked as incomplete if and only if
      some piece of it is missing. */
  predicate Carries(o: R.OrderedPacket, f: A.Frame) {
    && o.payload == f.data && o.totalSize == 32 + |f.data|
    && o.sequenceNumber == o.header.sequenceNumber == f.key.frameCounter
    && o.header.sourceId == f.key.sourceId && o.header.controlEpoch == f.key.controlEpoch
    && o.header.timestamp == f.dataTimestamp && o.header.payloadLen == |f.data| % 65536
    && o.header.magic == 0x55AA55AA && o.header.packetType == 0x03 && o.header.protocolVersion == 0x31
    && !o.isZeroFilled && (o.isIncompleteFrame <==> f.missing != [])
  }

  /** A stand-in for a number that was never delivered: no bytes, marked as both. */
  predicate StandsIn(o: R.OrderedPacket) {
    && o.payload == [] && o.totalSize == 32 && o.header.payloadLen == 0
    && o.header.sequenceNumber == o.sequenceNumber
    && o.header.magic == 0x55AA55AA && o.header.packetType == 0x03 && o.header.protocolVersion == 0x31
    && o.isZeroFilled && o.isIncompleteFrame
  }

  lemma DeliveredCarries(f: A.Frame)
    requires f.isComplete <==> f.missing == []
    ensures Carries(R.Delivered(Forward(f), f.key.frameCounter), f)
  {
  }

  /** Over every run, with timeouts and flushes of both parts anywhere in it: what is delivered is a frame that the
      reassembler emitted, marked as incomplete if and only if some piece of it is missing, or a stand-in; and each
      frame emitted was delivered, refused as a repeat, or waits. */
  lemma DeliveredFramesAreMarked(cfg: A.Config, rcfg: R.Config, start: int, events: seq<Event>, pipes: seq<Pipe>)
    requires Trace(cfg, rcfg, start, events, pipes)
    ensures var s := pipes[|events|];
      && (forall o :: o in s.ord.log ==> StandsIn(o) || exists i :: 0 <= i < |s.asm.frames| && Carries(o, s.asm.frames[i]))
      && |s.asm.frames| == s.ord.stats.inOrder + s.ord.stats.duplicate + |s.ord.pending|
  {
    hide CanStep, Step, A.RunFrom, R.Run, Forward, R.Delivered, R.ZeroFilled, Carries, StandsIn, OrderCalls;
    var n := |events|;
    var s, es := pipes[n], OrderCalls(events, pipes, n);
    AssemblerRuns(cfg, rcfg, start, events, pipes, n);
    OrdererRuns(cfg, rcfg, start, events, pipes, n);
    OnlyFramesAreInserted(cfg, rcfg, start, events, pipes, n);
    ReorderRuns.Conservation(rcfg, start, es);
    ReorderRuns.DeliveredPacketsArrived(rcfg, start, es);
    ReassemblyCounters.FramesAreGraded(cfg, Calls(events[..n]));
    forall o | o in s.ord.log ensures StandsIn(o) || exists i :: 0 <= i < |s.asm.frames| && Carries(o, s.asm.frames[i]) {
      LogEntry(es, s.asm.frames, o);
    }
  }

  /** An entry of the log that is authentic is a frame or a stand-in. */
  lemma LogEntry(es: seq<R.Event>, frames: seq<A.Frame>, o: R.OrderedPacket)
    requires FromFrames(es, frames) && forall i :: 0 <= i < |frames| ==> (frames[i].isComplete <==> frames[i].missing == [])
    requires o == R.ZeroFilled(o.sequenceNumber) ||
             exists p :: ReorderRuns.Arrived(es, p) && p.header.sequenceNumber == o.sequenceNumber && o == R.Delivered(p, o.sequenceNumber)
    ensures StandsIn(o) || exists i :: 0 <= i < |frames| && Carries(o, frames[i])
  {
    if o != R.ZeroFilled(o.sequenceNumber) {
      var p :| ReorderRuns.Arrived(es, p) && p.header.sequenceNumber == o.sequenceNumber && o == R.Delivered(p, o.sequenceNumber);
      var j :| 0 <= j < |es| && es[j].Arrive? && es[j].packet == p;
      var i :| 0 <= i < |frames| && es[j].packet == Forward(frames[i]);
      DeliveredCarries(frames[i]);
    }
  }

  /** Shutting down loses nothing: once the contexts and then the reorderer have been flushed, neither holds anything,
      and every context ever opened went out as a frame that was delivered or refused as a repeat. */
  lemma ShutdownLosesNothing(cfg: A.Config, rcfg: R.Config, start: int, events: seq<Event>, pipes: seq<Pipe>)
    requires Trace(cfg, rcfg, start, events, pipes) && |events| >= 2
    requires var e := events[|events| - 2]; e.Reassemble? && e.call.FlushAll? && A.EventFits(pipes[|events| - 2].asm, e.call)
    requires events[|events| - 1] == FlushOrder
    ensures var s := pipes[|events|];
      && s.asm.contexts == map[] && s.ord.pending == map[]
      && s.asm.stats.created == |s.asm.frames| == s.ord.stats.inOrder + s.ord.stats.duplicate
      && s.ord.stats.inOrder == |ReorderRuns.Data(s.ord.log)|
  {
    hide A.RunFrom, R.Run, A.EventFits, Feed, A.Step, ReorderRuns.Data, OrderCalls;
    var n := |events|;
    ReassemblyRuns.SweepsAreExact(cfg, pipes[n - 2].asm, events[n - 2].call);
    assert pipes[n - 2 + 1] == Step(cfg, rcfg, pipes[n - 2], events[n - 2]);
    assert pipes[n - 1 + 1] == Step(cfg, rcfg, pipes[n - 1], events[n - 1]);
    AssemblerRuns(cfg, rcfg, start, events, pipes, n);
    ReassemblyRuns.EveryRunIsSound(cfg, Calls(events[..n]));
    DeliveredFramesAreMarked(cfg, rcfg, start, events, pipes);
    OrdererRuns(cfg, rcfg, start, events, pipes, n);
    ReorderRuns.Conservation(rcfg, start, OrderCalls(events, pipes, n));
  }

  // ----- in terms of what was stored -----

  /** Some piece of the frame had not been stored when the frame was closed. */
  ghost predicate LostAPiece(chunks: seq<Bytes>, stored: set<nat>) {
    exists n :: 0 <= n < |chunks| && n !in stored
  }

  /** The packet is a frame; if it is one of `key`, it is marked exactly when a piece of it was not stored. */
  ghost predicate MarkedByHistory(o: R.OrderedPacket, frames: seq<A.Frame>, key: ReassemblyKey, chunks: seq<Bytes>, closed: seq<set<nat>>) {
    && |closed| == |frames|
    && exists i :: 0 <= i < |frames| && Carries(o, frames[i])
                   && (frames[i].key == key ==> (o.isIncompleteFrame <==> LostAPiece(chunks, closed[i])))
  }

  lemma LostIffMissing(cfg: A.Config, key: ReassemblyKey, chunks: seq<Bytes>, f: A.Frame, stored: set<nat>)
    requires WellCut(chunks) && Faithful.Faithful(cfg, key, chunks, f, stored)
    ensures f.missing != [] <==> LostAPiece(chunks, stored)
  {
    if f.missing != [] {
      assert f.missing[0] in f.missing;
    }
    if LostAPiece(chunks, stored) {
      var n :| 0 <= n < |chunks| && n !in stored;
      assert n in f.missing;
    }
  }

  /** A frame whose pieces were cut from one original is delivered as incomplete if and only if one of them was not
      stored between the opening and the closing of its context. */
  lemma MarkedIffAPieceWasLost(
    cfg: A.Config, rcfg: R.Config, start: int, events: seq<Event>, pipes: seq<Pipe>, key: ReassemblyKey, chunks: seq<Bytes>)
    requires Trace(cfg, rcfg, start, events, pipes) && WellCut(chunks)
    requires forall i :: 0 <= i < |Calls(events)| ==> Faithful.EventAgrees(cfg, Calls(events)[i], key, chunks)
    ensures A.PacketsValid(Calls(events))
    ensures forall o :: o in pipes[|events|].ord.log && !o.isZeroFilled ==>
      MarkedByHistory(o, pipes[|events|].asm.frames, key, chunks, Faithful.HistoryOf(cfg, Calls(events), key, true).closed)
  {
    hide CanStep, Step, A.RunFrom, Carries, Faithful.Faithful, Faithful.HistoryOf, Faithful.EventAgrees, LostAPiece, WellCut;
    var calls, s := Calls(events), pipes[|events|];
    assert events[..|events|] == events;
    AssemblerRuns(cfg, rcfg, start, events, pipes, |events|);
    DeliveredFramesAreMarked(cfg, rcfg, start, events, pipes);
    Faithful.EmittedFramesAreFaithful(cfg, calls, key, chunks);
    var closed := Faithful.HistoryOf(cfg, calls, key, true).closed;
    assert Faithful.FramesFaithful(cfg, s.asm.frames, key, chunks, closed);
    forall o | o in s.ord.log && !o.isZeroFilled ensures MarkedByHistory(o, s.asm.frames, key, chunks, closed) {
      var i :| 0 <= i < |s.asm.frames| && Carries(o, s.asm.frames[i]);
      CarriedMark(o, s.asm.frames[i]);
      if s.asm.frames[i].key == key {
        LostIffMissing(cfg, key, chunks, s.asm.frames[i], closed[i]);
      }
    }
  }

  lemma CarriedMark(o: R.OrderedPacket, f: A.Frame)
    requires Carries(o, f)
    ensures o.isIncompleteFrame <==> f.missing != []
  {
  }
}
