/** The reassembler object and the reorderer object joined by the frame callback. */
module FacePipeline {
  import opened Machine
  import opened Protocol
  import A = ReassemblyModel
  import R = ReorderModel
  import EndToEnd
  import PipelineRuns
  import Z = ZeroCopy
  import Ring = ReorderRing
  import Table = ReassemblerClass

  /** The frame callback: a fresh header, filled field by field, around the assembled bytes. */
  method OnFrame(reorderer: Ring.Reorderer, frame: A.Frame, tick: int)
    requires reorderer.Valid()
    modifies reorderer, reorderer.ringSlots, reorderer.occupancyBitmap
    ensures reorderer.Valid()
    ensures reorderer.View() == R.Insert(reorderer.config, old(reorderer.View()), EndToEnd.Forward(frame), tick)
    ensures var p := EndToEnd.Forward(frame);
      && p.payload == frame.data && p.header.payloadLen == |frame.data| % 65536 && p.header.sequenceNumber == frame.key.frameCounter
      && p.header.sourceId == frame.key.sourceId && p.header.controlEpoch == frame.key.controlEpoch
      && p.header.timestamp == frame.dataTimestamp && p.header.magic == 0x55AA55AA
      && p.header.packetType == 0x03 && p.header.protocolVersion == 0x31
      && (R.Delivered(p, frame.key.frameCounter).isIncompleteFrame <==> !frame.isComplete)
  {
    hide R.Insert;
    var header := ZERO_HEADER;
    header := header.(magic := PROTOCOL_MAGIC);
    header := header.(protocolVersion := PROTOCOL_VERSION);
    header := header.(packetType := PACKET_TYPE_DATA);
    header := header.(sourceId := frame.key.sourceId);
    header := header.(controlEpoch := frame.key.controlEpoch);
    header := header.(sequenceNumber := frame.key.frameCounter);
    header := header.(payloadLen := |frame.data| % TWO16);
    header := header.(timestamp := frame.dataTimestamp);
    header := header.(extFlags := if frame.isComplete then 0 else 0x01);
    reorderer.InsertOwned(header, frame.data, tick);
  }

  /** The callback for one frame after the other. */
  method FeedAll(reorderer: Ring.Reorderer, frames: seq<A.Frame>, ticks: seq<int>)
    requires reorderer.Valid() && |ticks| == |frames|
    modifies reorderer, reorderer.ringSlots, reorderer.occupancyBitmap
    ensures reorderer.Valid()
    ensures reorderer.View() == EndToEnd.Feed(reorderer.config, old(reorderer.View()), frames, ticks)
  {
    hide R.Insert, EndToEnd.Forward;
    ghost var start := reorderer.View();
    for i := 0 to |frames|
      invariant reorderer.Valid()
      invariant reorderer.View() == EndToEnd.Feed(reorderer.config, start, frames[..i], ticks[..i])
    {
      assert frames[..i + 1][..i] == frames[..i] && ticks[..i + 1][..i] == ticks[..i];
      OnFrame(reorderer, frames[i], ticks[i]);
    }
    assert frames[..|frames|] == frames && ticks[..|ticks|] == ticks;
  }

  /** The state of the two objects. */
  ghost function View(reassembler: Table.Reassembler, reorderer: Ring.Reorderer): EndToEnd.Pipe
    reads reassembler, reassembler.frozenKeysRing, reassembler.pool, reorderer, reorderer.ringSlots, reorderer.occupancyBitmap
    requires reorderer.Valid()
  {
    EndToEnd.Pipe(reassembler.View(), reorderer.View())
  }

  /** One packet through both objects, copied or handed over in its buffer, is one step of the end-to-end model on what
      the contexts hold. */
  method ReceivePacket(reassembler: Table.Reassembler, reorderer: Ring.Reorderer, packet: ParsedPacket, carrier: A.Carrier, now: u64, tick: int)
    requires reassembler.Valid() && reorderer.Valid() && packet.Valid()
    requires Z.Carries(reassembler.pool.bytes, packet, carrier)
    modifies reassembler, reassembler.frozenKeysRing, reassembler.pool
    modifies reorderer, reorderer.ringSlots, reorderer.occupancyBitmap
    ensures reassembler.Valid() && reorderer.Valid()
    ensures A.ContextsShaped(Z.ResolveAll(old(reassembler.pool.bytes), old(reassembler.View())))
    ensures var mem := old(reassembler.pool.bytes);
      EndToEnd.Pipe(Z.ResolveAll(mem, reassembler.View()), reorderer.View())
      == EndToEnd.PipeStep(reassembler.config, reorderer.config,
                           EndToEnd.Pipe(Z.ResolveAll(mem, old(reassembler.View())), old(reorderer.View())), packet, now, tick)
    ensures var ticks := seq(|EndToEnd.NewFrames(old(reassembler.View()), reassembler.View())|, _ => tick);
      var e := PipelineRuns.Reassemble(A.Arrive(packet, carrier, now, old(reassembler.pool.bytes)), ticks);
      && PipelineRuns.CanStep(reassembler.config, old(View(reassembler, reorderer)), e)
      && View(reassembler, reorderer) == PipelineRuns.Step(reassembler.config, reorderer.config, old(View(reassembler, reorderer)), e)
  {
    hide A.Process, R.Insert, EndToEnd.Forward, Z.NothingPooled;
    ghost var mem, was := reassembler.pool.bytes, reassembler.View();
    Z.ResolveProcess(reassembler.config, mem, was, packet, carrier, now);
    Z.ResolvedIsPlain(mem, was);
    Z.ProcessPlain(reassembler.config, map[], Z.ResolveAll(mem, was), packet, now);
    var before := |reassembler.frames|;
    match carrier {
      case Copied => reassembler.ProcessPacket(packet, now);
      case InBuffer(buffer, offset) => reassembler.ProcessPacketZeroCopy(packet, buffer, offset, now);
    }
    var emitted := if before <= |reassembler.frames| then reassembler.frames[before..] else [];
    ghost var asm := reassembler.View();
    FeedAll(reorderer, emitted, seq(|emitted|, _ => tick));
    assert reassembler.View() == asm;
  }

  /** The steady clock: one reading for each frame. */
  method ReadClock(count: nat) returns (ticks: seq<int>)
    ensures |ticks| == count
  {
    ticks := [];
    for i := 0 to count
      invariant |ticks| == i
    {
      var tick: int := *;
      ticks := ticks + [tick];
    }
  }

  /** The timeout scan: every context that is due goes out as a frame and on to the reorderer. */
  method SweepContexts(reassembler: Table.Reassembler, reorderer: Ring.Reorderer, now: u64) returns (order: seq<A.Stamp>, ticks: seq<int>)
    requires reassembler.Valid() && reorderer.Valid()
    modifies reassembler, reassembler.frozenKeysRing, reassembler.pool
    modifies reorderer, reorderer.ringSlots, reorderer.occupancyBitmap
    ensures reassembler.Valid() && reorderer.Valid()
    ensures A.EventFits(old(reassembler.View()), A.Sweep(now, order, reassembler.timeoutMs))
    ensures var e := PipelineRuns.Reassemble(A.Sweep(now, order, reassembler.timeoutMs), ticks);
      && PipelineRuns.CanStep(reassembler.config, old(View(reassembler, reorderer)), e)
      && View(reassembler, reorderer) == PipelineRuns.Step(reassembler.config, reorderer.config, old(View(reassembler, reorderer)), e)
  {
    hide A.Step, A.EventFits, EndToEnd.Feed;
    ghost var was := reassembler.View();
    var before := |reassembler.frames|;
    order := reassembler.CheckTimeouts(now);
    ghost var asm := reassembler.View();
    var emitted := if before <= |reassembler.frames| then reassembler.frames[before..] else [];
    assert emitted == EndToEnd.NewFrames(was, asm);
    ticks := ReadClock(|emitted|);
    FeedAll(reorderer, emitted, ticks);
    assert reassembler.View() == asm;
  }

  /** The flush at shutdown: every context goes out as a frame and on to the reorderer. */
  method DrainContexts(reassembler: Table.Reassembler, reorderer: Ring.Reorderer) returns (order: seq<A.Stamp>, ticks: seq<int>)
    requires reassembler.Valid() && reorderer.Valid()
    modifies reassembler, reassembler.frozenKeysRing, reassembler.pool
    modifies reorderer, reorderer.ringSlots, reorderer.occupancyBitmap
    ensures reassembler.Valid() && reorderer.Valid()
    ensures A.EventFits(old(reassembler.View()), A.FlushAll(order, reassembler.timeoutMs))
    ensures var e := PipelineRuns.Reassemble(A.FlushAll(order, reassembler.timeoutMs), ticks);
      && PipelineRuns.CanStep(reassembler.config, old(View(reassembler, reorderer)), e)
      && View(reassembler, reorderer) == PipelineRuns.Step(reassembler.config, reorderer.config, old(View(reassembler, reorderer)), e)
  {
    hide A.Step, A.EventFits, EndToEnd.Feed;
    ghost var was := reassembler.View();
    var before := |reassembler.frames|;
    order := reassembler.FlushContexts();
    ghost var asm := reassembler.View();
    var emitted := if before <= |reassembler.frames| then reassembler.frames[before..] else [];
    assert emitted == EndToEnd.NewFrames(was, asm);
    ticks := ReadClock(|emitted|);
    FeedAll(reorderer, emitted, ticks);
    assert reassembler.View() == asm;
  }
}
