/** From the fragments of consecutive frames, in any interleaving, to the frames themselves, in order and
    byte for byte: the reassembler feeding the reorderer through its frame callback. */
module EndToEnd {
  import opened Machine
  import opened Protocol
  import opened Assembly
  import A = ReassemblyModel
  import R = ReorderModel
  import ReassemblyRuns

  // ----- what is sent -----

  /** A frame as the sender has it; the fragment fields of `specific` are filled in per fragment. */
  datatype SourceFrame = SourceFrame(common: CommonHeader, specific: DataSpecificHeader, snapshot: Bytes, chunks: seq<Bytes>) {
    function FragmentHeader(i: nat): DataSpecificHeader
      requires i < |chunks| < TWO16 && |chunks[|chunks| - 1]| < TWO16
    {
      specific.(fragIndex := i, totalFrags := |chunks|, tailFragPayloadBytes := |chunks[|chunks| - 1]|)
    }

    function Key(): ReassemblyKey {
      ExtractKey(common, specific)
    }
  }

  function FrontSize(f: SourceFrame, i: nat): nat {
    if i + 1 == |f.chunks| then SPECIFIC_HEADER_SIZE + SNAPSHOT_SIZE else SPECIFIC_HEADER_SIZE
  }

  /** The frame fits the configured limits and the 16-bit length fields, and no piece of it is empty. */
  ghost predicate Sendable(cfg: A.Config, f: SourceFrame) {
    && 0 < |f.chunks| <= cfg.maxTotalFrags
    && |f.snapshot| == SNAPSHOT_SIZE
    && (forall i :: 0 <= i < |f.chunks| ==> |f.chunks[i]| > 0 && FrontSize(f, i) + |f.chunks[i]| < TWO16)
    && Sum(Lengths(f.chunks)) <= cfg.maxReasmBytes
  }

  /** The payload of fragment `i` on the wire. */
  function Payload(f: SourceFrame, i: nat): Bytes
    requires i < |f.chunks| < TWO16 && |f.chunks[|f.chunks| - 1]| < TWO16
  {
    EncodeSpecific(f.FragmentHeader(i)) + (if i + 1 == |f.chunks| then f.snapshot else []) + f.chunks[i]
  }

  function WirePacket(cfg: A.Config, f: SourceFrame, i: nat): ParsedPacket
    requires cfg.Valid() && Sendable(cfg, f) && i < |f.chunks|
  {
    ParsedPacket(f.common.(payloadLen := FrontSize(f, i) + |f.chunks[i]|), Some(Payload(f, i)))
  }

  /** The receiver reads back from the wire exactly the piece that was sent. */
  lemma ParsesBack(cfg: A.Config, f: SourceFrame, i: nat)
    requires cfg.Valid() && Sendable(cfg, f) && i < |f.chunks|
    ensures WirePacket(cfg, f, i).Valid()
    ensures var r := A.ParseFragment(cfg, WirePacket(cfg, f, i));
      && r.Some? && r.value.key == f.Key() && r.value.header == f.FragmentHeader(i)
      && r.value.snapshot == (if i + 1 == |f.chunks| then Some(f.snapshot) else None)
      && r.value.size == |f.chunks[i]|
      && Payload(f, i)[r.value.start..r.value.start + r.value.size] == f.chunks[i]
  {
    hide EncodeSpecific, DecodeSpecific;
    var h, payload := f.FragmentHeader(i), Payload(f, i);
    var middle := if i + 1 == |f.chunks| then f.snapshot else [];
    assert payload == EncodeSpecific(h) + (middle + f.chunks[i]);
    SpecificHeaderRoundTrip(h, middle + f.chunks[i]);
    assert payload[SPECIFIC_HEADER_SIZE..FrontSize(f, i)] == middle;
    assert payload[FrontSize(f, i)..] == f.chunks[i];
  }

  // ----- the pipeline -----

  datatype Pipe = Pipe(asm: A.State, ord: R.State)

  /** The frame callback of the application: a fresh header around the assembled bytes. */
  function Forward(frame: A.Frame): R.Packet {
    R.Packet(
      ZERO_HEADER.(magic := PROTOCOL_MAGIC, protocolVersion := PROTOCOL_VERSION, packetType := PACKET_TYPE_DATA,
                   sourceId := frame.key.sourceId, controlEpoch := frame.key.controlEpoch,
                   sequenceNumber := frame.key.frameCounter, payloadLen := |frame.data| % TWO16,
                   timestamp := frame.dataTimestamp, extFlags := if frame.isComplete then 0 else 0x01),
      frame.data)
  }

  /** Hand frames to the reorderer one after the other, with a clock reading for each. */
  function Feed(rcfg: R.Config, ord: R.State, frames: seq<A.Frame>, ticks: seq<int>): R.State
    requires |ticks| == |frames|
  {
    if frames == [] then ord
    else
      var n := |frames| - 1;
      R.Insert(rcfg, Feed(rcfg, ord, frames[..n], ticks[..n]), Forward(frames[n]), ticks[n])
  }

  /** The frames that `after` has and `before` had not. */
  function NewFrames(before: A.State, after: A.State): seq<A.Frame> {
    if |before.frames| <= |after.frames| then after.frames[|before.frames|..] else []
  }

  /** One packet through the whole chain. */
  function PipeStep(cfg: A.Config, rcfg: R.Config, s: Pipe, p: ParsedPacket, now: u64, tick: int): Pipe
    requires cfg.Valid() && p.Valid() && A.ContextsShaped(s.asm)
  {
    var asm := A.Process(cfg, map[], s.asm, p, A.Copied, now);
    var emitted := NewFrames(s.asm, asm);
    Pipe(asm, Feed(rcfg, s.ord, emitted, seq(|emitted|, _ => tick)))
  }

  // ----- what should come out -----

  function Complete(f: SourceFrame): A.Frame {
    A.Frame(f.Key(), Concat(f.chunks), f.specific.dataTimestamp, Some(f.snapshot), true, [])
  }

  /** The packets delivered for the first `m` frames, one per frame, in frame order. */
  function Outputs(frames: seq<SourceFrame>, m: nat): (r: seq<R.OrderedPacket>)
    requires m <= |frames|
    ensures |r| == m
  {
    seq(m, j requires 0 <= j < m => R.Delivered(Forward(Complete(frames[j])), frames[j].specific.frameCounter))
  }

  // ----- progress of a schedule -----

  /** Which pieces of each frame have been sent so far. */
  type Progress = seq<set<nat>>

  predicate Full(f: SourceFrame, got: set<nat>) {
    forall i :: 0 <= i < |f.chunks| ==> i in got
  }

  predicate Done(frames: seq<SourceFrame>, p: Progress, j: nat)
    requires |p| == |frames| && j < |frames|
  {
    Full(frames[j], p[j])
  }

  predicate IsOpen(frames: seq<SourceFrame>, p: Progress, j: nat)
    requires |p| == |frames| && j < |frames|
  {
    p[j] != {} && !Done(frames, p, j)
  }

  ghost function OpenFrames(frames: seq<SourceFrame>, p: Progress): set<nat>
    requires |p| == |frames|
  {
    set j | 0 <= j < |frames| && IsOpen(frames, p, j)
  }

  /** The lowest frame from `from` on that is not done. */
  function Lowest(frames: seq<SourceFrame>, p: Progress, from: nat): (m: nat)
    requires |p| == |frames| && from <= |frames|
    ensures from <= m <= |frames|
    ensures m < |frames| ==> !Done(frames, p, m)
    ensures forall j :: from <= j < m ==> Done(frames, p, j)
    decreases |frames| - from
  {
    if from < |frames| && Done(frames, p, from) then Lowest(frames, p, from + 1) else from
  }

  datatype Pick = Pick(frame: nat, fragment: nat, now: u64, tick: int)

  function Advance(p: Progress, k: Pick): Progress
    requires k.frame < |p|
  {
    p[k.frame := p[k.frame] + {k.fragment}]
  }

  /** A piece, new or repeated, of a frame not finished; a new frame finds a free context; the first frame to finish is the
      lowest, and none finishes a window or more ahead of the lowest unfinished one. */
  ghost predicate Admissible(cfg: A.Config, rcfg: R.Config, frames: seq<SourceFrame>, p: Progress, k: Pick)
    requires |p| == |frames|
  {
    && k.frame < |frames| && k.fragment < |frames[k.frame].chunks| && !Done(frames, p, k.frame)
    && (p[k.frame] == {} ==> |OpenFrames(frames, p)| < cfg.maxContexts)
    && (Done(frames, Advance(p, k), k.frame) ==>
          var m := Lowest(frames, p, 0);
          (m == 0 ==> k.frame == 0) && k.frame - m < rcfg.window)
  }

  /** Consecutive frames: numbered from `s0` upward modulo 2^32, with distinct keys. */
  ghost predicate Consecutive(cfg: A.Config, frames: seq<SourceFrame>, s0: u32) {
    && (forall j :: 0 <= j < |frames| ==> Sendable(cfg, frames[j]) && frames[j].specific.frameCounter == Add32(s0, j))
    && (forall i, j :: 0 <= i < j < |frames| ==> frames[i].Key() != frames[j].Key())
  }

  // ----- the reassembler's side -----

  /** The context holds exactly the pieces of `f` sent so far. */
  ghost predicate Collects(c: A.Context, f: SourceFrame, got: set<nat>) {
    && Coherent(c)
    && c.totalFrags == |f.chunks| > 0 && c.tailBytes == |f.chunks[|f.chunks| - 1]|
    && c.dataTimestamp == f.specific.dataTimestamp
    && (forall i :: 0 <= i < |f.chunks| ==> (c.received[i] <==> i in got))
    && (forall i :: 0 <= i < |f.chunks| && i in got ==> c.refs[i] == A.Heap(f.chunks[i]))
    && c.snapshot == if |f.chunks| - 1 in got then Some(f.snapshot) else None
  }

  lemma {:induction false} NoneFrozen(ring: seq<A.FrozenEntry>, key: ReassemblyKey, now: u64, i: nat)
    requires i <= |ring| && forall j :: 0 <= j < |ring| ==> !ring[j].valid
    ensures A.ScanFrozen(ring, key, now, i) == (ring, false)
    decreases |ring| - i
  {
    if i < |ring| {
      NoneFrozen(ring, key, now, i + 1);
    }
  }

  lemma FreshCollects(cfg: A.Config, f: SourceFrame, now: u64)
    requires cfg.Valid() && Sendable(cfg, f)
    ensures Collects(A.NewContext(|f.chunks|, |f.chunks[|f.chunks| - 1]|, f.specific.dataTimestamp, now), f, {})
  {
    NewContextCoherent(|f.chunks|, |f.chunks[|f.chunks| - 1]|, f.specific.dataTimestamp, now);
  }

  /** The sent piece passes every check of the context. */
  lemma PieceIsStored(cfg: A.Config, c: A.Context, f: SourceFrame, got: set<nat>, g: A.Fragment, i: nat)
    requires cfg.Valid() && Sendable(cfg, f) && Collects(c, f, got)
    requires i < |f.chunks| && i !in got && g.header == f.FragmentHeader(i) && g.size == |f.chunks[i]|
    ensures A.Judge(cfg, c, g) == A.Store
  {
    var sizes := c.sizes[i := g.size];
    assert c.sizes[i] == 0;
    SumSet(c.sizes, i, g.size);
    SumAtMost(sizes, Lengths(f.chunks));
  }

  lemma StoredCollects(cfg: A.Config, c: A.Context, f: SourceFrame, got: set<nat>, g: A.Fragment, i: nat, r: A.FragmentRef)
    requires cfg.Valid() && Sendable(cfg, f) && Collects(c, f, got)
    requires i < |f.chunks| && i !in got && g.header == f.FragmentHeader(i) && g.size == |f.chunks[i]|
    requires g.snapshot == (if i + 1 == |f.chunks| then Some(f.snapshot) else None)
    requires r == A.Heap(f.chunks[i])
    ensures Collects(A.StoreFragment(A.WithSnapshot(c, g), g, r), f, got + {i})
  {
    var c1 := A.WithSnapshot(c, g);
    PieceIsStored(cfg, c, f, got, g, i);
    assert Coherent(c1) && A.Judge(cfg, c1, g) == A.Store;
    StoreCoherent(cfg, c1, g, r);
  }

  lemma {:induction false} AllPresent(cfg: A.Config, c: A.Context, f: SourceFrame, got: set<nat>, n: nat)
    requires Collects(c, f, got) && n <= |f.chunks|
    requires forall i :: 0 <= i < |f.chunks| ==> i in got && |f.chunks[i]| > 0
    ensures A.Assembled(cfg, map[], f.Key(), c, n) == Concat(f.chunks[..n])
    ensures A.Missing(c, n) == []
  {
    if n > 0 {
      AllPresent(cfg, c, f, got, n - 1);
      assert f.chunks[..n][..n - 1] == f.chunks[..n - 1];
      assert n - 1 in got && c.refs[n - 1] == A.Heap(f.chunks[n - 1]);
    }
  }

  /** When every piece is there the frame is the one that was sent. */
  lemma FullContextMakesTheFrame(cfg: A.Config, c: A.Context, f: SourceFrame, got: set<nat>)
    requires Collects(c, f, got) && Full(f, got) && forall i :: 0 <= i < |f.chunks| ==> |f.chunks[i]| > 0
    ensures A.MakeFrame(cfg, map[], f.Key(), c) == Complete(f)
  {
    AllPresent(cfg, c, f, got, |f.chunks|);
    assert f.chunks[..|f.chunks|] == f.chunks;
  }

  ghost predicate OpenCollected(frames: seq<SourceFrame>, p: Progress, asm: A.State)
    requires |p| == |frames|
  {
    forall j :: 0 <= j < |frames| && IsOpen(frames, p, j) ==>
      frames[j].Key() in asm.contexts && Collects(asm.contexts[frames[j].Key()], frames[j], p[j])
  }

  ghost predicate OnlyOpen(frames: seq<SourceFrame>, p: Progress, asm: A.State)
    requires |p| == |frames|
  {
    forall k :: k in asm.contexts ==> exists j :: 0 <= j < |frames| && IsOpen(frames, p, j) && frames[j].Key() == k
  }

  /** Between packets: a context for each open frame and for nothing else, and nothing frozen. */
  ghost predicate Collecting(frames: seq<SourceFrame>, p: Progress, asm: A.State)
    requires |p| == |frames|
  {
    && OpenCollected(frames, p, asm)
    && OnlyOpen(frames, p, asm)
    && |asm.contexts| == |OpenFrames(frames, p)|
    && (forall i :: 0 <= i < |asm.frozen| ==> !asm.frozen[i].valid)
  }

  /** A context for `f` is there with what was sent, or can be opened. */
  ghost predicate Ready(cfg: A.Config, asm: A.State, f: SourceFrame, got: set<nat>) {
    if got == {} then f.Key() !in asm.contexts && |asm.contexts| < cfg.maxContexts
    else f.Key() in asm.contexts && Collects(asm.contexts[f.Key()], f, got)
  }

  lemma OpenForPiece(cfg: A.Config, f: SourceFrame, got: set<nat>, asm: A.State, g: A.Fragment, i: nat, now: u64)
    requires cfg.Valid() && Sendable(cfg, f) && Ready(cfg, asm, f, got) && i < |f.chunks|
    requires g.key == f.Key() && g.header == f.FragmentHeader(i)
    ensures var s := A.GetOrCreate(cfg, asm, g, now);
      && f.Key() in s.contexts && Collects(s.contexts[f.Key()], f, got) && s.contexts[f.Key()].Shape()
      && s.frames == asm.frames && s.frozen == asm.frozen
      && s.contexts == asm.contexts[f.Key() := s.contexts[f.Key()]]
      && s.contexts - {f.Key()} == asm.contexts - {f.Key()}
  {
    FreshCollects(cfg, f, now);
  }

  /** What one packet does to the contexts: its frame's context gains the piece, or, with the last piece,
      closes and emits the frame. */
  ghost predicate PieceAdded(s: A.State, s': A.State, f: SourceFrame, got: set<nat>, i: nat) {
    && s'.frozen == s.frozen
    && if Full(f, got + {i}) then
         s'.frames == s.frames + [Complete(f)] && s'.contexts == s.contexts - {f.Key()}
       else
         && s'.frames == s.frames
         && f.Key() in s'.contexts && Collects(s'.contexts[f.Key()], f, got + {i})
         && s'.contexts == s.contexts[f.Key() := s'.contexts[f.Key()]]
  }

  lemma AddedToReadied(s: A.State, t: A.State, s': A.State, f: SourceFrame, got: set<nat>, i: nat)
    requires PieceAdded(t, s', f, got, i)
    requires t.frames == s.frames && t.frozen == s.frozen && t.contexts - {f.Key()} == s.contexts - {f.Key()}
    requires f.Key() in t.contexts && t.contexts == s.contexts[f.Key() := t.contexts[f.Key()]]
    ensures PieceAdded(s, s', f, got, i)
  {
  }

  lemma PieceArrives(cfg: A.Config, f: SourceFrame, got: set<nat>, asm: A.State, i: nat, now: u64)
    requires cfg.Valid() && Sendable(cfg, f) && A.ContextsShaped(asm) && Ready(cfg, asm, f, got)
    requires i < |f.chunks| && !Full(f, got) && forall n :: 0 <= n < |asm.frozen| ==> !asm.frozen[n].valid
    ensures WirePacket(cfg, f, i).Valid()
    ensures PieceAdded(asm, A.Process(cfg, map[], asm, WirePacket(cfg, f, i), A.Copied, now), f, got, i)
  {
    hide Collects, Ready, A.AddToContext, A.ScanFrozen, A.GetOrCreate, A.ParseFragment, A.MakeRef, WirePacket, Complete, PieceAdded,
         Sendable, Full, Payload;
    var packet := WirePacket(cfg, f, i);
    ParsesBack(cfg, f, i);
    WirePayload(cfg, f, i);
    var g := A.ParseFragment(cfg, packet).value;
    NoneFrozen(asm.frozen, f.Key(), now, 0);
    var scanned := asm.(stats := asm.stats.(received := asm.stats.received + 1), frozen := asm.frozen);
    SameReady(cfg, asm, scanned, f, got);
    OpenForPiece(cfg, f, got, scanned, g, i, now);
    var readied := A.GetOrCreate(cfg, scanned, g, now);
    var r := A.MakeRef(packet.payload.value, A.Copied, g);
    PieceRef(cfg, f, i, packet.payload.value, g);
    KeepPiece(cfg, f, got, readied, g, i, r);
    AddedToReadied(asm, readied, A.AddToContext(cfg, map[], readied, g, r, A.Copied), f, got, i);
  }

  /** The reference to the piece holds the piece. */
  lemma PieceRef(cfg: A.Config, f: SourceFrame, i: nat, payload: Bytes, g: A.Fragment)
    requires cfg.Valid() && Sendable(cfg, f) && i < |f.chunks| && g.start + g.size <= |payload| && g.size == |f.chunks[i]|
    requires payload[g.start..g.start + g.size] == f.chunks[i]
    ensures A.MakeRef(payload, A.Copied, g) == A.Heap(f.chunks[i])
  {
  }

  /** A piece of an open frame is added, or was there already. */
  lemma KeepPiece(cfg: A.Config, f: SourceFrame, got: set<nat>, s: A.State, g: A.Fragment, i: nat, r: A.FragmentRef)
    requires cfg.Valid() && Sendable(cfg, f) && f.Key() in s.contexts && Collects(s.contexts[f.Key()], f, got)
    requires i < |f.chunks| && s.contexts[f.Key()].Shape() && r == A.Heap(f.chunks[i])
    requires !Full(f, got) && g.header == f.FragmentHeader(i) && g.size == |f.chunks[i]| && g.key == f.Key()
    requires g.snapshot == (if i + 1 == |f.chunks| then Some(f.snapshot) else None)
    ensures PieceAdded(s, A.AddToContext(cfg, map[], s, g, r, A.Copied), f, got, i)
  {
    hide Collects, A.AddToContext, PieceAdded, Full;
    if i in got {
      RepeatPiece(cfg, f, got, s, g, i, r);
    } else {
      AddPiece(cfg, f, got, s, g, i, r);
    }
  }

  lemma WirePayload(cfg: A.Config, f: SourceFrame, i: nat)
    requires cfg.Valid() && Sendable(cfg, f) && i < |f.chunks|
    ensures WirePacket(cfg, f, i).payload == Some(Payload(f, i))
  {
  }

  lemma SameReady(cfg: A.Config, a: A.State, b: A.State, f: SourceFrame, got: set<nat>)
    requires Ready(cfg, a, f, got) && b.contexts == a.contexts
    ensures Ready(cfg, b, f, got)
  {
  }

  lemma ContextOfPick(cfg: A.Config, rcfg: R.Config, frames: seq<SourceFrame>, s0: u32, p: Progress, asm: A.State, k: Pick)
    requires Consecutive(cfg, frames, s0) && |p| == |frames|
    requires Collecting(frames, p, asm) && Admissible(cfg, rcfg, frames, p, k)
    ensures Ready(cfg, asm, frames[k.frame], p[k.frame])
  {
    hide Collects, Sendable, Lowest, OpenFrames;
    var key := frames[k.frame].Key();
    if p[k.frame] == {} {
      assert !IsOpen(frames, p, k.frame);
      assert forall j :: 0 <= j < |frames| && IsOpen(frames, p, j) ==> frames[j].Key() != key;
    } else {
      assert IsOpen(frames, p, k.frame);
    }
  }

  lemma AddPiece(cfg: A.Config, f: SourceFrame, got: set<nat>, s: A.State, g: A.Fragment, i: nat, r: A.FragmentRef)
    requires cfg.Valid() && Sendable(cfg, f) && f.Key() in s.contexts && Collects(s.contexts[f.Key()], f, got)
    requires s.contexts[f.Key()].Shape()
    requires i < |f.chunks| && i !in got && g.header == f.FragmentHeader(i) && g.size == |f.chunks[i]| && g.key == f.Key()
    requires g.snapshot == (if i + 1 == |f.chunks| then Some(f.snapshot) else None)
    requires r == A.Heap(f.chunks[i])
    ensures PieceAdded(s, A.AddToContext(cfg, map[], s, g, r, A.Copied), f, got, i)
  {
    hide A.AddToContext, A.Complete, A.StoreFragment, A.MakeFrame, A.WithSnapshot, A.Judge, Collects, Sendable, Coherent;
    var c := A.WithSnapshot(s.contexts[f.Key()], g);
    SnapshotJudged(cfg, s.contexts[f.Key()], g);
    PieceIsStored(cfg, s.contexts[f.Key()], f, got, g, i);
    StoredCollects(cfg, s.contexts[f.Key()], f, got, g, i, r);
    var c' := A.StoreFragment(c, g, r);
    CollectsAll(cfg, c', f, got + {i});
    ReassemblyRuns.AddCases(cfg, map[], s, g, r, A.Copied);
    if Full(f, got + {i}) {
      var stored := s.(contexts := s.contexts[f.Key() := c']);
      ReassemblyRuns.CompleteEffect(cfg, map[], stored, f.Key(), None);
      CompleteKeepsFrozen(cfg, stored, f.Key());
      assert stored.contexts - {f.Key()} == s.contexts - {f.Key()};
    }
  }

  lemma SnapshotJudged(cfg: A.Config, c: A.Context, g: A.Fragment)
    requires c.Shape()
    ensures A.WithSnapshot(c, g).Shape() && A.Judge(cfg, A.WithSnapshot(c, g), g) == A.Judge(cfg, c, g)
    ensures A.Judge(cfg, c, g) == A.Store ==> g.header.fragIndex < A.WithSnapshot(c, g).totalFrags
  {
  }

  /** A context is complete exactly when it has collected every piece, and then it makes the frame that was sent. */
  lemma CollectsAll(cfg: A.Config, c: A.Context, f: SourceFrame, got: set<nat>)
    requires Sendable(cfg, f) && Collects(c, f, got)
    ensures c.Shape() && (c.Complete() <==> Full(f, got))
    ensures Full(f, got) ==> A.MakeFrame(cfg, map[], f.Key(), c) == Complete(f)
  {
    hide A.MakeFrame, Complete;
    CompleteIffAllReceived(c);
    if Full(f, got) {
      FullContextMakesTheFrame(cfg, c, f, got);
    }
  }

  /** A repeated piece is counted and changes nothing else. */
  lemma RepeatPiece(cfg: A.Config, f: SourceFrame, got: set<nat>, s: A.State, g: A.Fragment, i: nat, r: A.FragmentRef)
    requires cfg.Valid() && Sendable(cfg, f) && f.Key() in s.contexts && Collects(s.contexts[f.Key()], f, got)
    requires i < |f.chunks| && i in got && !Full(f, got) && g.header == f.FragmentHeader(i) && g.key == f.Key()
    requires g.snapshot == (if i + 1 == |f.chunks| then Some(f.snapshot) else None)
    ensures PieceAdded(s, A.AddToContext(cfg, map[], s, g, r, A.Copied), f, got, i)
  {
    var c := A.WithSnapshot(s.contexts[f.Key()], g);
    assert c == s.contexts[f.Key()] && A.Judge(cfg, c, g) == A.Repeated;
    assert got + {i} == got;
    assert s.contexts[f.Key() := c] == s.contexts;
  }

  lemma CompleteKeepsFrozen(cfg: A.Config, s: A.State, key: ReassemblyKey)
    requires key in s.contexts && s.contexts[key].Shape()
    ensures A.Complete(cfg, map[], s, key, None).frozen == s.frozen
  {
  }

  lemma OpenFramesStep(frames: seq<SourceFrame>, p: Progress, k: Pick)
    requires |p| == |frames| && k.frame < |frames| && !Done(frames, p, k.frame)
    ensures var p' := Advance(p, k);
      && (forall j :: 0 <= j < |frames| && j != k.frame ==> p'[j] == p[j] && Done(frames, p', j) == Done(frames, p, j))
      && (if Done(frames, p', k.frame) then OpenFrames(frames, p') == OpenFrames(frames, p) - {k.frame}
          else OpenFrames(frames, p') == OpenFrames(frames, p) + {k.frame})
      && (k.frame in OpenFrames(frames, p) <==> p[k.frame] != {})
  {
  }

  ghost predicate StepPre(cfg: A.Config, frames: seq<SourceFrame>, p: Progress, asm: A.State, asm': A.State, k: Pick) {
    && |p| == |frames| && k.frame < |frames| && !Done(frames, p, k.frame)
    && (forall i, j :: 0 <= i < j < |frames| ==> frames[i].Key() != frames[j].Key())
    && Collecting(frames, p, asm) && Ready(cfg, asm, frames[k.frame], p[k.frame])
    && PieceAdded(asm, asm', frames[k.frame], p[k.frame], k.fragment)
  }

  lemma OpenCollectedStep(cfg: A.Config, frames: seq<SourceFrame>, p: Progress, asm: A.State, asm': A.State, k: Pick)
    requires StepPre(cfg, frames, p, asm, asm', k)
    ensures OpenCollected(frames, Advance(p, k), asm')
  {
    hide Collects, OpenFrames, Complete, Full, OnlyOpen;
    OpenFramesStep(frames, p, k);
    var key, p' := frames[k.frame].Key(), Advance(p, k);
    forall j | 0 <= j < |frames| && IsOpen(frames, p', j)
      ensures frames[j].Key() in asm'.contexts && Collects(asm'.contexts[frames[j].Key()], frames[j], p'[j])
    {
      if j != k.frame {
        assert IsOpen(frames, p, j) && frames[j].Key() != key;
      } else {
        assert p'[j] == p[j] + {k.fragment};
      }
    }
  }

  lemma OnlyOpenStep(cfg: A.Config, frames: seq<SourceFrame>, p: Progress, asm: A.State, asm': A.State, k: Pick)
    requires StepPre(cfg, frames, p, asm, asm', k)
    ensures OnlyOpen(frames, Advance(p, k), asm')
  {
    hide Collects, OpenFrames, Complete, Full, OpenCollected;
    OpenFramesStep(frames, p, k);
    var key, p' := frames[k.frame].Key(), Advance(p, k);
    assert p'[k.frame] == p[k.frame] + {k.fragment} && k.fragment in p'[k.frame];
    forall c | c in asm'.contexts
      ensures exists j :: 0 <= j < |frames| && IsOpen(frames, p', j) && frames[j].Key() == c
    {
      if c != key {
        var j :| 0 <= j < |frames| && IsOpen(frames, p, j) && frames[j].Key() == c;
        assert IsOpen(frames, p', j);
      } else {
        assert IsOpen(frames, p', k.frame);
      }
    }
  }

  lemma CountStep(cfg: A.Config, frames: seq<SourceFrame>, p: Progress, asm: A.State, asm': A.State, k: Pick)
    requires StepPre(cfg, frames, p, asm, asm', k)
    ensures |asm'.contexts| == |OpenFrames(frames, Advance(p, k))|
  {
    hide Collects, OpenFrames, Complete, Full, OpenCollected, OnlyOpen, Sendable;
    OpenFramesStep(frames, p, k);
    var key, p' := frames[k.frame].Key(), Advance(p, k);
    assert p'[k.frame] == p[k.frame] + {k.fragment};
    if Done(frames, p', k.frame) {
      assert asm'.contexts.Keys == asm.contexts.Keys - {key};
    } else {
      assert asm'.contexts.Keys == asm.contexts.Keys + {key};
    }
    assert |asm.contexts.Keys| == |asm.contexts| && |asm'.contexts.Keys| == |asm'.contexts|;
  }

  lemma CollectingStep(cfg: A.Config, frames: seq<SourceFrame>, p: Progress, asm: A.State, asm': A.State, k: Pick)
    requires StepPre(cfg, frames, p, asm, asm', k)
    ensures Collecting(frames, Advance(p, k), asm')
  {
    OpenCollectedStep(cfg, frames, p, asm, asm', k);
    OnlyOpenStep(cfg, frames, p, asm, asm', k);
    CountStep(cfg, frames, p, asm, asm', k);
    hide OpenCollected, OnlyOpen, OpenFrames, Ready, Done;
  }

  // ----- the reorderer's side -----

  /** The window stands at frame `m`: the frames before it are out, and of the others exactly the finished
      ones are buffered, each less than the window and half the circle ahead. */
  ghost predicate Ordering(rcfg: R.Config, frames: seq<SourceFrame>, s0: u32, p: Progress, ord: R.State, m: nat)
    requires |p| == |frames|
  {
    && m <= |frames|
    && ord.next == Add32(s0, m)
    && ord.log == Outputs(frames, m)
    && (forall j :: m <= j < |frames| && Done(frames, p, j) ==>
          j - m < TWO31 && Add32(s0, j) in ord.pending && ord.pending[Add32(s0, j)] == Forward(Complete(frames[j])))
    && (forall k :: k in ord.pending ==> exists j :: m <= j < |frames| && Done(frames, p, j) && k == Add32(s0, j))
  }

  lemma SerialsDiffer(s0: u32, i: nat, j: nat)
    requires i < j < i + TWO32
    ensures Add32(s0, i) != Add32(s0, j)
  {
  }

  lemma EmitMovesOn(rcfg: R.Config, frames: seq<SourceFrame>, s0: u32, p: Progress, ord: R.State, m: nat, tick: int)
    requires |p| == |frames| && Ordering(rcfg, frames, s0, p, ord, m) && m < |frames| && Done(frames, p, m)
    requires forall j :: 0 <= j < |frames| ==> frames[j].specific.frameCounter == Add32(s0, j)
    ensures ord.next in ord.pending && Ordering(rcfg, frames, s0, p, R.EmitHead(ord, tick), m + 1)
  {
    hide Complete, Forward, R.Delivered, Done;
    var ord' := R.EmitHead(ord, tick);
    AddAdd32(s0, m, 1);
    forall j | m + 1 <= j < |frames| && Done(frames, p, j) ensures Add32(s0, j) in ord'.pending {
      SerialsDiffer(s0, m, j);
    }
    forall k | k in ord'.pending ensures exists j :: m + 1 <= j < |frames| && Done(frames, p, j) && k == Add32(s0, j) {
      var j :| m <= j < |frames| && Done(frames, p, j) && k == Add32(s0, j);
      assert j != m;
    }
    assert Outputs(frames, m + 1) == Outputs(frames, m) + [R.Delivered(Forward(Complete(frames[m])), Add32(s0, m))];
  }

  /** Draining goes exactly as far as the lowest unfinished frame. */
  lemma {:induction false} DrainReachesLowest(rcfg: R.Config, frames: seq<SourceFrame>, s0: u32, p: Progress, ord: R.State, m: nat, tick: int)
    requires |p| == |frames| && Ordering(rcfg, frames, s0, p, ord, m)
    requires forall j :: 0 <= j < |frames| ==> frames[j].specific.frameCounter == Add32(s0, j)
    ensures Ordering(rcfg, frames, s0, p, R.Drain(ord, tick), Lowest(frames, p, m))
    ensures R.Drain(ord, tick).initialized == ord.initialized
    decreases |frames| - m
  {
    if m < |frames| && Done(frames, p, m) {
      EmitMovesOn(rcfg, frames, s0, p, ord, m, tick);
      DrainReachesLowest(rcfg, frames, s0, p, R.EmitHead(ord, tick), m + 1, tick);
    } else {
      assert ord.next !in ord.pending by { HeadNotBuffered(rcfg, frames, s0, p, ord, m); }
    }
  }

  lemma HeadNotBuffered(rcfg: R.Config, frames: seq<SourceFrame>, s0: u32, p: Progress, ord: R.State, m: nat)
    requires |p| == |frames| && Ordering(rcfg, frames, s0, p, ord, m) && (m < |frames| ==> !Done(frames, p, m))
    ensures ord.next !in ord.pending
  {
    hide Done, Outputs;
    forall j | m <= j < |frames| && Done(frames, p, j) ensures Add32(s0, j) != ord.next {
      SerialsDiffer(s0, m, j);
    }
  }

  /** The reorderer between packets: untouched until frame 0 is finished, then at the lowest unfinished frame. */
  ghost predicate Ordered(rcfg: R.Config, frames: seq<SourceFrame>, s0: u32, p: Progress, ord: R.State)
    requires |p| == |frames|
  {
    var m := Lowest(frames, p, 0);
    if m == 0 then
      && !ord.initialized && ord.log == [] && ord.pending == map[]
      && forall j :: 0 <= j < |frames| ==> !Done(frames, p, j)
    else ord.initialized && Ordering(rcfg, frames, s0, p, ord, m)
  }

  /** `p'` differs from `p` in that frame `j` has been finished. */
  ghost predicate Finishes(frames: seq<SourceFrame>, p: Progress, p': Progress, j: nat) {
    && |p| == |p'| == |frames| && j < |frames|
    && !Done(frames, p, j) && Done(frames, p', j)
    && forall i :: 0 <= i < |frames| && i != j ==> Done(frames, p', i) == Done(frames, p, i)
  }

  lemma {:induction false} LowestUnique(frames: seq<SourceFrame>, p: Progress, from: nat, m: nat)
    requires |p| == |frames| && from <= m <= |frames|
    requires (forall j :: from <= j < m ==> Done(frames, p, j)) && (m < |frames| ==> !Done(frames, p, m))
    ensures Lowest(frames, p, from) == m
  {
  }

  lemma {:induction false} LowestSkipsDone(frames: seq<SourceFrame>, p: Progress, m: nat)
    requires |p| == |frames| && m <= |frames| && forall j :: 0 <= j < m ==> Done(frames, p, j)
    ensures Lowest(frames, p, m) == Lowest(frames, p, 0)
  {
  }

  ghost predicate Numbered(frames: seq<SourceFrame>, s0: u32) {
    forall j :: 0 <= j < |frames| ==> frames[j].specific.frameCounter == Add32(s0, j)
  }

  lemma HeadEmitted(rcfg: R.Config, frames: seq<SourceFrame>, s0: u32, p: Progress, p': Progress, ord: R.State, m: nat, tick: int)
    requires Finishes(frames, p, p', m) && Numbered(frames, s0) && Ordering(rcfg, frames, s0, p, ord, m)
    ensures Ordering(rcfg, frames, s0, p', R.Emit(ord, Forward(Complete(frames[m])), tick), m + 1)
  {
    hide Complete, Done, Forward, R.Delivered;
    var pkt := Forward(Complete(frames[m]));
    var out := R.Emit(ord, pkt, tick);
    AddAdd32(s0, m, 1);
    assert Outputs(frames, m + 1) == Outputs(frames, m) + [R.Delivered(pkt, Add32(s0, m))];
    forall k | k in out.pending ensures exists j :: m + 1 <= j < |frames| && Done(frames, p', j) && k == Add32(s0, j) {
      var j :| m <= j < |frames| && Done(frames, p, j) && k == Add32(s0, j);
      assert j != m;
    }
  }

  /** The frame at the head of the window goes out, and takes the finished ones behind it along. */
  lemma HeadInserted(rcfg: R.Config, frames: seq<SourceFrame>, s0: u32, p: Progress, p': Progress, ord: R.State, m: nat, tick: int)
    requires Finishes(frames, p, p', m) && Numbered(frames, s0)
    requires ord.initialized && Ordering(rcfg, frames, s0, p, ord, m) && m == Lowest(frames, p, 0)
    ensures Ordered(rcfg, frames, s0, p', R.InsertStarted(rcfg, ord, Forward(Complete(frames[m])), tick))
  {
    hide Complete, Full, Forward, Outputs;
    ForwardNumber(frames[m]);
    HeadEmitted(rcfg, frames, s0, p, p', ord, m, tick);
    hide Ordering;
    DrainReachesLowest(rcfg, frames, s0, p', R.Emit(ord, Forward(Complete(frames[m])), tick), m + 1, tick);
    LowestSkipsDone(frames, p', m + 1);
  }

  lemma ForwardNumber(f: SourceFrame)
    ensures Forward(Complete(f)).header.sequenceNumber == f.specific.frameCounter
  {
  }

  lemma StoredAhead(rcfg: R.Config, ord: R.State, pkt: R.Packet, d: nat, tick: int)
    requires 0 < d < rcfg.window <= TWO31
    requires pkt.header.sequenceNumber == Add32(ord.next, d) && pkt.header.sequenceNumber !in ord.pending
    ensures var stored := R.InsertStarted(rcfg, ord, pkt, tick);
      && stored.pending == ord.pending[pkt.header.sequenceNumber := pkt]
      && stored.next == ord.next && stored.log == ord.log && stored.initialized == ord.initialized
  {
    SubAdd32(ord.next, d);
  }

  /** A frame finished ahead of the lowest unfinished one is buffered. */
  lemma AheadInserted(rcfg: R.Config, frames: seq<SourceFrame>, s0: u32, p: Progress, p': Progress, ord: R.State, m: nat, j: nat, tick: int)
    requires Finishes(frames, p, p', j) && Numbered(frames, s0) && 0 < m < j && j - m < rcfg.window <= TWO31
    requires ord.initialized && Ordering(rcfg, frames, s0, p, ord, m) && m == Lowest(frames, p, 0)
    ensures Ordered(rcfg, frames, s0, p', R.InsertStarted(rcfg, ord, Forward(Complete(frames[j])), tick))
  {
    hide Complete, Done, Outputs, Forward, Add32, R.InsertStarted;
    var pkt, k := Forward(Complete(frames[j])), Add32(s0, j);
    ForwardNumber(frames[j]);
    AddAdd32(s0, m, j - m);
    forall i | m <= i < |frames| && i != j && i - m < TWO31 ensures Add32(s0, i) != k {
      if i < j {
        SerialsDiffer(s0, i, j);
      } else {
        SerialsDiffer(s0, j, i);
      }
    }
    assert k !in ord.pending;
    var stored := R.InsertStarted(rcfg, ord, pkt, tick);
    StoredAhead(rcfg, ord, pkt, j - m, tick);
    LowestUnique(frames, p', 0, m);
    forall k' | k' in stored.pending ensures exists i :: m <= i < |frames| && Done(frames, p', i) && k' == Add32(s0, i) {
      if k' != k {
        var i :| m <= i < |frames| && Done(frames, p, i) && k' == Add32(s0, i);
        assert Done(frames, p', i);
      }
    }
  }

  lemma FrameInserted(rcfg: R.Config, frames: seq<SourceFrame>, s0: u32, p: Progress, p': Progress, ord: R.State, j: nat, tick: int)
    requires Finishes(frames, p, p', j) && Numbered(frames, s0) && rcfg.window <= TWO31
    requires Ordered(rcfg, frames, s0, p, ord)
    requires var m := Lowest(frames, p, 0); (m == 0 ==> j == 0) && j - m < rcfg.window
    ensures Ordered(rcfg, frames, s0, p', R.Insert(rcfg, ord, Forward(Complete(frames[j])), tick))
  {
    hide Full, Complete, Forward, R.InsertStarted;
    ForwardNumber(frames[j]);
    var m := Lowest(frames, p, 0);
    var started := R.Start(ord, frames[j].specific.frameCounter);
    assert Outputs(frames, 0) == [];
    assert Ordering(rcfg, frames, s0, p, started, m);
    if j == m {
      HeadInserted(rcfg, frames, s0, p, p', started, m, tick);
    } else {
      AheadInserted(rcfg, frames, s0, p, p', started, m, j, tick);
    }
  }

  // ----- the whole run -----

  function NothingSent(frames: seq<SourceFrame>): (p: Progress)
    ensures |p| == |frames|
  {
    seq(|frames|, _ => {})
  }

  function After(frames: seq<SourceFrame>, picks: seq<Pick>): (p: Progress)
    requires forall i :: 0 <= i < |picks| ==> picks[i].frame < |frames|
    ensures |p| == |frames|
  {
    if picks == [] then NothingSent(frames) else Advance(After(frames, picks[..|picks| - 1]), picks[|picks| - 1])
  }

  /** Every step of the schedule is admissible. */
  ghost predicate Schedule(cfg: A.Config, rcfg: R.Config, frames: seq<SourceFrame>, picks: seq<Pick>) {
    && (forall i :: 0 <= i < |picks| ==> picks[i].frame < |frames|)
    && forall i :: 0 <= i < |picks| ==> Admissible(cfg, rcfg, frames, After(frames, picks[..i]), picks[i])
  }

  /** The pipeline after sending the scheduled pieces. */
  ghost function PipeRun(cfg: A.Config, rcfg: R.Config, start: int, frames: seq<SourceFrame>, s0: u32, picks: seq<Pick>): (s: Pipe)
    requires cfg.Valid() && Consecutive(cfg, frames, s0) && Schedule(cfg, rcfg, frames, picks)
    ensures A.ContextsShaped(s.asm)
  {
    if picks == [] then Pipe(A.Initial(cfg), R.Initial(start))
    else
      var k := picks[|picks| - 1];
      LastPick(cfg, rcfg, frames, s0, picks);
      var before := PipeRun(cfg, rcfg, start, frames, s0, picks[..|picks| - 1]);
      PipeStepShaped(cfg, rcfg, before, WirePacket(cfg, frames[k.frame], k.fragment), k.now, k.tick);
      PipeStep(cfg, rcfg, before, WirePacket(cfg, frames[k.frame], k.fragment), k.now, k.tick)
  }

  lemma LastPick(cfg: A.Config, rcfg: R.Config, frames: seq<SourceFrame>, s0: u32, picks: seq<Pick>)
    requires cfg.Valid() && Consecutive(cfg, frames, s0) && Schedule(cfg, rcfg, frames, picks) && picks != []
    ensures Schedule(cfg, rcfg, frames, picks[..|picks| - 1])
    ensures var k := picks[|picks| - 1];
      && k.frame < |frames| && k.fragment < |frames[k.frame].chunks| && Sendable(cfg, frames[k.frame])
      && WirePacket(cfg, frames[k.frame], k.fragment).Valid()
      && Admissible(cfg, rcfg, frames, After(frames, picks[..|picks| - 1]), k)
  {
    hide Sendable, WirePacket, After, Lowest;
    var n := |picks| - 1;
    assert forall i :: 0 <= i < n ==> picks[..n][..i] == picks[..i];
    assert Admissible(cfg, rcfg, frames, After(frames, picks[..n]), picks[n]);
    ParsesBack(cfg, frames[picks[n].frame], picks[n].fragment);
  }

  lemma PipeStepShaped(cfg: A.Config, rcfg: R.Config, s: Pipe, p: ParsedPacket, now: u64, tick: int)
    requires cfg.Valid() && p.Valid() && A.ContextsShaped(s.asm)
    ensures A.ContextsShaped(PipeStep(cfg, rcfg, s, p, now, tick).asm)
  {
    hide A.Process;
    A.ProcessShaped(cfg, map[], s.asm, p, A.Copied, now);
  }

  lemma PipeStepKeeps(cfg: A.Config, rcfg: R.Config, frames: seq<SourceFrame>, s0: u32, p: Progress, s: Pipe, k: Pick)
    requires cfg.Valid() && rcfg.window <= TWO31 && Consecutive(cfg, frames, s0) && |p| == |frames|
    requires A.ContextsShaped(s.asm) && Collecting(frames, p, s.asm) && Ordered(rcfg, frames, s0, p, s.ord)
    requires Admissible(cfg, rcfg, frames, p, k)
    ensures WirePacket(cfg, frames[k.frame], k.fragment).Valid()
    ensures var s' := PipeStep(cfg, rcfg, s, WirePacket(cfg, frames[k.frame], k.fragment), k.now, k.tick);
      Collecting(frames, Advance(p, k), s'.asm) && Ordered(rcfg, frames, s0, Advance(p, k), s'.ord)
  {
    hide Collects, Sendable, OpenCollected, OnlyOpen, OpenFrames, Ordered, Ready, A.Process, Complete, WirePacket, R.Insert, Full;
    var f, p' := frames[k.frame], Advance(p, k);
    ContextOfPick(cfg, rcfg, frames, s0, p, s.asm, k);
    PieceArrives(cfg, f, p[k.frame], s.asm, k.fragment, k.now);
    var asm := A.Process(cfg, map[], s.asm, WirePacket(cfg, f, k.fragment), A.Copied, k.now);
    CollectingStep(cfg, frames, p, s.asm, asm, k);
    OpenFramesStep(frames, p, k);
    var emitted := asm.frames[|s.asm.frames|..];
    if Done(frames, p', k.frame) {
      assert emitted == [Complete(f)] && emitted[..0] == [];
      var ticks := seq(|emitted|, _ => k.tick);
      assert Feed(rcfg, s.ord, emitted, ticks) == R.Insert(rcfg, s.ord, Forward(Complete(f)), k.tick);
      FrameInserted(rcfg, frames, s0, p, p', s.ord, k.frame, k.tick);
    } else {
      assert emitted == [];
      SameOrder(rcfg, frames, s0, p, p', s.ord);
    }
  }

  /** A packet that finishes no frame leaves the reorderer's picture as it is. */
  lemma SameOrder(rcfg: R.Config, frames: seq<SourceFrame>, s0: u32, p: Progress, p': Progress, ord: R.State)
    requires |p| == |p'| == |frames| && Ordered(rcfg, frames, s0, p, ord)
    requires forall j :: 0 <= j < |frames| ==> Done(frames, p', j) == Done(frames, p, j)
    ensures Ordered(rcfg, frames, s0, p', ord)
  {
  }

  lemma NothingSentYet(cfg: A.Config, rcfg: R.Config, start: int, frames: seq<SourceFrame>, s0: u32)
    requires Consecutive(cfg, frames, s0)
    ensures var p := NothingSent(frames);
      Collecting(frames, p, A.Initial(cfg)) && Ordered(rcfg, frames, s0, p, R.Initial(start))
  {
    var p := NothingSent(frames);
    assert OpenFrames(frames, p) == {};
    forall j | 0 <= j < |frames| ensures !Done(frames, p, j) {
      assert Sendable(cfg, frames[j]);
      assert 0 !in p[j];
    }
  }

  lemma {:induction false} PipeRunKeeps(cfg: A.Config, rcfg: R.Config, start: int, frames: seq<SourceFrame>, s0: u32, picks: seq<Pick>)
    requires cfg.Valid() && rcfg.window <= TWO31 && Consecutive(cfg, frames, s0) && Schedule(cfg, rcfg, frames, picks)
    ensures var s, p := PipeRun(cfg, rcfg, start, frames, s0, picks), After(frames, picks);
      Collecting(frames, p, s.asm) && Ordered(rcfg, frames, s0, p, s.ord)
  {
    hide Collecting, Ordered, PipeStep, Admissible, Consecutive, WirePacket, Sendable;
    var n := |picks| - 1;
    if picks == [] {
      NothingSentYet(cfg, rcfg, start, frames, s0);
    } else {
      LastPick(cfg, rcfg, frames, s0, picks);
      PipeRunKeeps(cfg, rcfg, start, frames, s0, picks[..n]);
      PipeStepKeeps(cfg, rcfg, frames, s0, After(frames, picks[..n]), PipeRun(cfg, rcfg, start, frames, s0, picks[..n]), picks[n]);
    }
  }

  /** For any interleaving of the fragments of consecutive frames, across the wrap of the sequence numbers,
      the delivered log is at every moment the finished frames up to the lowest unfinished one, in order and
      byte for byte, and when all pieces have been sent it is all the frames and nothing is left behind. */
  lemma DeliveredLogIsTheOriginalFrames(cfg: A.Config, rcfg: R.Config, start: int, frames: seq<SourceFrame>, s0: u32, picks: seq<Pick>)
    requires cfg.Valid() && rcfg.window <= TWO31 && Consecutive(cfg, frames, s0) && Schedule(cfg, rcfg, frames, picks)
    ensures var s, p := PipeRun(cfg, rcfg, start, frames, s0, picks), After(frames, picks);
      && s.ord.log == Outputs(frames, Lowest(frames, p, 0))
      && ((forall j :: 0 <= j < |frames| ==> Done(frames, p, j)) ==>
            s.ord.log == Outputs(frames, |frames|) && s.ord.pending == map[] && s.asm.contexts == map[])
  {
    hide PipeRun, Collecting, Ordered, Admissible, Consecutive, After, Outputs;
    PipeRunKeeps(cfg, rcfg, start, frames, s0, picks);
    var s, p := PipeRun(cfg, rcfg, start, frames, s0, picks), After(frames, picks);
    LogIsLowest(rcfg, frames, s0, p, s.ord);
    if forall j :: 0 <= j < |frames| ==> Done(frames, p, j) {
      NothingLeft(rcfg, frames, s0, p, s);
    }
  }

  lemma LogIsLowest(rcfg: R.Config, frames: seq<SourceFrame>, s0: u32, p: Progress, ord: R.State)
    requires |p| == |frames| && Ordered(rcfg, frames, s0, p, ord)
    ensures ord.log == Outputs(frames, Lowest(frames, p, 0))
  {
    hide Done, Lowest;
    assert Outputs(frames, 0) == [];
  }

  lemma NothingLeft(rcfg: R.Config, frames: seq<SourceFrame>, s0: u32, p: Progress, s: Pipe)
    requires |p| == |frames| && Collecting(frames, p, s.asm) && Ordered(rcfg, frames, s0, p, s.ord)
    requires forall j :: 0 <= j < |frames| ==> Done(frames, p, j)
    ensures Lowest(frames, p, 0) == |frames| && s.ord.pending == map[] && s.asm.contexts == map[]
  {
    hide Collects, Full, Outputs, Lowest;
    LowestUnique(frames, p, 0, |frames|);
    assert forall k :: k !in s.ord.pending;
    assert forall k :: k !in s.asm.contexts;
  }

  /** What is delivered for a frame: its own bytes under its own number, marked real and complete. */
  lemma OutputIsTheFrame(frames: seq<SourceFrame>, j: nat)
    requires j < |frames|
    ensures var o := Outputs(frames, |frames|)[j];
      && o.payload == Concat(frames[j].chunks) && o.sequenceNumber == frames[j].specific.frameCounter
      && !o.isZeroFilled && !o.isIncompleteFrame
      && o.header.sourceId == frames[j].common.sourceId && o.header.controlEpoch == frames[j].common.controlEpoch
      && o.header.timestamp == frames[j].specific.dataTimestamp
  {
  }
}
