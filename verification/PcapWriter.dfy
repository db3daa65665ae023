/** The capture writer: a bounded queue, a writer loop, rotation and retention, with no input or output error. */
module PcapWriter {
  import opened Machine
  import opened Protocol
  import opened PcapFormat
  import opened SpscQueue

  const PACKET_TYPE_OFFSET: nat := 18
  const SOURCE_ID_OFFSET: nat := 20
  const BYTES_PER_MB: nat := 1024 * 1024

  datatype Config = Config(maxFileSizeMb: nat, maxFiles: nat, queueCapacity: nat, filterTypes: seq<u8>, filterSources: seq<u8>) {
    function MaxBytes(): nat {
      maxFileSizeMb * BYTES_PER_MB
    }

    function KeepCount(): nat {
      if maxFiles < 1 then 1 else maxFiles
    }

    function Capacity(): nat {
      if queueCapacity < 1 then 1 else queueCapacity
    }

    predicate Passes(data: Bytes) {
      && (filterTypes == [] || (|data| > PACKET_TYPE_OFFSET && data[PACKET_TYPE_OFFSET] in filterTypes))
      && (filterSources == [] || (|data| > SOURCE_ID_OFFSET && data[SOURCE_ID_OFFSET] in filterSources))
    }
  }

  // ----- the writer over packets instead of bytes -----

  /** `hand` is the packet taken from the queue and not yet written, `chunk` the packets of the open file,
      `sealed` those of each closed file. */
  datatype State = State(
    pending: seq<Packet>, hand: Option<Packet>, accepting: bool, running: bool, chunk: seq<Packet>, sealed: seq<seq<Packet>>,
    enqueued: nat, written: nat, droppedFull: nat, rotated: nat)

  const STARTED := State([], None, true, true, [], [], 0, 0, 0, 0)

  /** One step of a producer, of the writer thread, or of `stop`; the lock is released between taking a packet and
      writing it. */
  datatype Event = Offer(packet: Packet) | TakeFront | Put | Stop | Exit

  predicate Takes(c: Config, s: State, p: Packet) {
    s.accepting && p.data != [] && c.Passes(p.data) && |s.pending| < c.Capacity()
  }

  /** A record of this size would take the file over the limit. */
  predicate Overflows(c: Config, chunk: seq<Packet>, recordSize: nat) {
    |FileOf(chunk)| + recordSize > c.MaxBytes()
  }

  predicate MustRotate(c: Config, chunk: seq<Packet>, p: Packet) {
    Overflows(c, chunk, RECORD_HEADER_SIZE + |p.data|)
  }

  function AfterPut(c: Config, s: State, p: Packet): State {
    var put := s.(hand := None, written := s.written + 1);
    if MustRotate(c, s.chunk, p) then put.(sealed := s.sealed + [s.chunk], chunk := [p], rotated := s.rotated + 1)
    else put.(chunk := s.chunk + [p])
  }

  function Step(c: Config, s: State, e: Event): State {
    match e
    case Offer(p) =>
      if Takes(c, s, p) then s.(pending := s.pending + [p], enqueued := s.enqueued + 1)
      else if s.accepting && p.data != [] && c.Passes(p.data) then s.(droppedFull := s.droppedFull + 1)
      else s
    case TakeFront =>
      if s.running && s.hand.None? && s.pending != [] then s.(hand := Some(s.pending[0]), pending := s.pending[1..]) else s
    case Put => if s.running && s.hand.Some? then AfterPut(c, s, s.hand.value) else s
    case Stop => s.(accepting := false)
    case Exit =>
      if s.running && s.hand.None? && s.pending == [] && !s.accepting then s.(running := false, sealed := s.sealed + [s.chunk], chunk := [])
      else s
  }

  function Run(c: Config, events: seq<Event>): State {
    if events == [] then STARTED else Step(c, Run(c, events[..|events| - 1]), events[|events| - 1])
  }

  /** The packets that got into the queue, in order. */
  function Accepted(c: Config, events: seq<Event>): seq<Packet> {
    if events == [] then []
    else
      var before, e := events[..|events| - 1], events[|events| - 1];
      Accepted(c, before) + if e.Offer? && Takes(c, Run(c, before), e.packet) then [e.packet] else []
  }

  function Flatten<T>(parts: seq<seq<T>>): seq<T> {
    if parts == [] then [] else Flatten(parts[..|parts| - 1]) + parts[|parts| - 1]
  }

  function Held(hand: Option<Packet>): seq<Packet> {
    if hand.Some? then [hand.value] else []
  }

  // ----- what every run keeps -----

  /** Files, hand and queue together hold the accepted packets in order. */
  ghost predicate InOrder(s: State, accepted: seq<Packet>) {
    && Flatten(s.sealed) + s.chunk + Held(s.hand) + s.pending == accepted
    && s.enqueued == |accepted| && s.written == |Flatten(s.sealed) + s.chunk|
    && (!s.running ==> s.hand.None? && s.chunk == [] && s.pending == [] && !s.accepting)
    && (s.hand.Some? ==> s.hand.value.data != [])
  }

  /** A file exceeds the limit only when it holds a single record. */
  ghost predicate Bounded(c: Config, chunk: seq<Packet>) {
    |chunk| <= 1 || |FileOf(chunk)| <= c.maxFileSizeMb * 1048576
  }

  ghost predicate AllBounded(c: Config, s: State) {
    Bounded(c, s.chunk) && forall i :: 0 <= i < |s.sealed| ==> Bounded(c, s.sealed[i])
  }

  lemma FlattenAppend<T>(parts: seq<seq<T>>, part: seq<T>)
    ensures Flatten(parts + [part]) == Flatten(parts) + part
  {
  }

  lemma PutKeepsOrder(c: Config, s: State, accepted: seq<Packet>)
    requires InOrder(s, accepted) && s.running && s.hand.Some?
    ensures InOrder(AfterPut(c, s, s.hand.value), accepted)
  {
    hide MustRotate, Flatten;
    var n := AfterPut(c, s, s.hand.value);
    FlattenAppend(s.sealed, s.chunk);
    assert Flatten(n.sealed) + n.chunk == Flatten(s.sealed) + s.chunk + [s.hand.value];
    assert Held(n.hand) == [] && Held(s.hand) == [s.hand.value];
  }

  lemma StepKeepsOrder(c: Config, s: State, accepted: seq<Packet>, e: Event)
    requires InOrder(s, accepted)
    requires forall i :: 0 <= i < |s.pending| ==> s.pending[i].data != []
    ensures InOrder(Step(c, s, e), accepted + if e.Offer? && Takes(c, s, e.packet) then [e.packet] else [])
    ensures forall i :: 0 <= i < |Step(c, s, e).pending| ==> Step(c, s, e).pending[i].data != []
  {
    hide AfterPut, Flatten;
    assert accepted + [] == accepted;
    match e
    case Put =>
      if s.running && s.hand.Some? {
        PutKeepsOrder(c, s, accepted);
        PutKeepsPending(c, s);
      }
    case Exit => FlattenAppend(s.sealed, s.chunk);
    case _ =>
  }

  lemma PutKeepsPending(c: Config, s: State)
    requires s.hand.Some?
    ensures AfterPut(c, s, s.hand.value).pending == s.pending
  {
  }

  lemma StepKeepsBounds(c: Config, s: State, e: Event)
    requires AllBounded(c, s)
    ensures AllBounded(c, Step(c, s, e))
  {
    hide FileOf;
    if e.Put? && s.running && s.hand.Some? {
      FileGrows(s.chunk, s.hand.value);
    }
  }

  lemma {:induction false} EveryRunKeepsOrder(c: Config, events: seq<Event>)
    ensures InOrder(Run(c, events), Accepted(c, events))
    ensures forall i :: 0 <= i < |Run(c, events).pending| ==> Run(c, events).pending[i].data != []
  {
    hide InOrder, Step;
    if events == [] {
      StartInOrder();
    } else {
      var before := events[..|events| - 1];
      EveryRunKeepsOrder(c, before);
      StepKeepsOrder(c, Run(c, before), Accepted(c, before), events[|events| - 1]);
    }
  }

  lemma StartInOrder()
    ensures InOrder(STARTED, [])
  {
  }

  /** No file outgrows the limit, or a header and one record when that is more. */
  lemma {:induction false} EveryFileIsBounded(c: Config, events: seq<Event>)
    ensures AllBounded(c, Run(c, events))
  {
    hide AllBounded, Step;
    if events == [] {
      StartBounded(c);
    } else {
      EveryFileIsBounded(c, events[..|events| - 1]);
      StepKeepsBounds(c, Run(c, events[..|events| - 1]), events[|events| - 1]);
    }
  }

  lemma StartBounded(c: Config)
    ensures AllBounded(c, STARTED)
  {
  }

  /** After `stop` everything that got into the queue is in the closed files, and the two counters agree. */
  lemma StoppedMeansWritten(c: Config, events: seq<Event>)
    requires !Run(c, events).running
    ensures Run(c, events).written == Run(c, events).enqueued == |Accepted(c, events)|
    ensures Flatten(Run(c, events).sealed) == Accepted(c, events)
  {
    EveryRunKeepsOrder(c, events);
    var s := Run(c, events);
    assert Flatten(s.sealed) + s.chunk + Held(s.hand) + s.pending == Flatten(s.sealed);
  }

  // ----- which packets are captured -----

  /** The filter, on a packet cut off after `n` bytes: a list that is not empty wants the field to be there and in it. */
  lemma PassesByHeader(c: Config, h: CommonHeader, reserved: Bytes, rest: Bytes, n: nat)
    requires |reserved| == COMMON_RESERVED_SIZE && n <= COMMON_HEADER_SIZE + |rest|
    ensures c.Passes((EncodeCommon(h, reserved) + rest)[..n]) <==>
      && (c.filterTypes == [] || (n >= 19 && h.packetType in c.filterTypes))
      && (c.filterSources == [] || (n >= 21 && h.sourceId in c.filterSources))
  {
    hide DecodeCommon, EncodeCommon;
    CommonHeaderRoundTrip(h, reserved, rest);
    TypeAndSource(EncodeCommon(h, reserved) + rest);
  }

  lemma TypeAndSource(b: Bytes)
    requires |b| >= COMMON_HEADER_SIZE
    ensures b[18] == DecodeCommon(b).packetType && b[20] == DecodeCommon(b).sourceId
  {
  }

  /** The filter lets the first `n` bytes of a packet with this header through. */
  predicate Wanted(c: Config, h: CommonHeader, n: nat) {
    && n > 0
    && (c.filterTypes == [] || (n >= 19 && h.packetType in c.filterTypes))
    && (c.filterSources == [] || (n >= 21 && h.sourceId in c.filterSources))
  }

  /** A packet of `n` bytes with this header is queued if and only if the writer has not been stopped, the filter lists
      have its type and its source, and the queue has room; without room it is counted as dropped. */
  lemma CapturedIff(c: Config, events: seq<Event>, t: u64, h: CommonHeader, reserved: Bytes, rest: Bytes, n: nat)
    requires |reserved| == COMMON_RESERVED_SIZE && n <= COMMON_HEADER_SIZE + |rest|
    ensures var p := Packet(t, (EncodeCommon(h, reserved) + rest)[..n]);
      var s, s' := Run(c, events), Run(c, events + [Offer(p)]);
      var wanted := Stop !in events && Wanted(c, h, n);
      var room := |s.pending| < if c.queueCapacity == 0 then 1 else c.queueCapacity;
      && Accepted(c, events + [Offer(p)]) == Accepted(c, events) + (if wanted && room then [p] else [])
      && s'.enqueued == s.enqueued + (if wanted && room then 1 else 0)
      && s'.droppedFull == s.droppedFull + (if wanted && !room then 1 else 0)
  {
    hide EncodeCommon, Config.Passes;
    var p := Packet(t, (EncodeCommon(h, reserved) + rest)[..n]);
    PassesByHeader(c, h, reserved, rest, n);
    AcceptingUntilStop(c, events);
    assert (events + [Offer(p)])[..|events|] == events;
  }

  lemma {:induction false} AcceptingUntilStop(c: Config, events: seq<Event>)
    ensures Run(c, events).accepting <==> Stop !in events
  {
    if events != [] {
      hide Run;
      var before, e := events[..|events| - 1], events[|events| - 1];
      AcceptingUntilStop(c, before);
      assert events == before + [e];
      assert Stop in events <==> Stop in before || e == Stop;
      RunIsStep(c, events);
      OnlyStopStops(c, Run(c, before), e);
    }
  }

  lemma RunIsStep(c: Config, events: seq<Event>)
    requires events != []
    ensures Run(c, events) == Step(c, Run(c, events[..|events| - 1]), events[|events| - 1])
  {
  }

  lemma OnlyStopStops(c: Config, s: State, e: Event)
    ensures Step(c, s, e).accepting == (s.accepting && e != Stop)
  {
    hide MustRotate, Config.Passes;
  }

  /** The queue never holds more than its capacity. */
  lemma {:induction false} QueueIsBounded(c: Config, events: seq<Event>)
    ensures |Run(c, events).pending| <= if c.queueCapacity == 0 then 1 else c.queueCapacity
  {
    hide AfterPut;
    if events != [] {
      var before := events[..|events| - 1];
      QueueIsBounded(c, before);
      if Run(c, before).hand.Some? {
        PutKeepsPending(c, Run(c, before));
      }
    }
  }

  // ----- when a file is closed -----

  /** The closed files and the open one. */
  function AllFiles(s: State): seq<seq<Packet>> {
    s.sealed + if s.running then [s.chunk] else []
  }

  /** Each file was closed because the record that opens the next one would have taken it over the limit. */
  ghost predicate Tight(c: Config, files: seq<seq<Packet>>) {
    forall i :: 0 < i < |files| ==>
      files[i] != [] && |FileOf(files[i - 1])| + 16 + |files[i][0].data| > c.maxFileSizeMb * 1048576
  }

  lemma PutKeepsTight(c: Config, s: State)
    requires s.running && s.hand.Some? && Tight(c, AllFiles(s))
    ensures Tight(c, AllFiles(AfterPut(c, s, s.hand.value)))
  {
    hide FileOf;
    var p, s' := s.hand.value, AfterPut(c, s, s.hand.value);
    var was, now := AllFiles(s), AllFiles(s');
    assert was == s.sealed + [s.chunk];
    if MustRotate(c, s.chunk, p) {
      assert now == was + [[p]];
    } else {
      assert now == s.sealed + [s.chunk + [p]];
      assert forall i :: 0 <= i < |s.sealed| ==> now[i] == was[i];
      assert |s.sealed| > 0 ==> was[|s.sealed|] != [] && now[|s.sealed|][0] == was[|s.sealed|][0];
    }
  }

  /** Over every run no file is closed before it is full, and the counter says how many were. */
  lemma {:induction false} FilesAreClosedOnlyWhenFull(c: Config, events: seq<Event>)
    ensures var s := Run(c, events);
      Tight(c, AllFiles(s)) && |s.sealed| == s.rotated + if s.running then 0 else 1
  {
    hide AfterPut, Tight;
    if events == [] {
      StartIsTight(c);
    } else {
      var before, e := events[..|events| - 1], events[|events| - 1];
      FilesAreClosedOnlyWhenFull(c, before);
      var s := Run(c, before);
      if e.Put? && s.running && s.hand.Some? {
        PutKeepsTight(c, s);
        PutRotates(c, s);
      } else {
        assert AllFiles(Step(c, s, e)) == AllFiles(s);
      }
    }
  }

  lemma StartIsTight(c: Config)
    ensures Tight(c, AllFiles(STARTED))
  {
  }

  lemma PutRotates(c: Config, s: State)
    requires s.hand.Some?
    ensures var s' := AfterPut(c, s, s.hand.value); s'.running == s.running && |s'.sealed| - |s.sealed| == s'.rotated - s.rotated
  {
    hide MustRotate;
  }

  // ----- reading all files -----

  function Files(parts: seq<seq<Packet>>): (r: seq<Bytes>)
    ensures |r| == |parts|
  {
    seq(|parts|, i requires 0 <= i < |parts| => FileOf(parts[i]))
  }

  function ReadAll(files: seq<Bytes>): Option<seq<Record>> {
    if files == [] then Some([])
    else
      var before, last := ReadAll(files[..|files| - 1]), ReadFile(files[|files| - 1]);
      if before.None? || last.None? then None else Some(before.value + last.value)
  }

  lemma {:induction false} FilesReadBack(parts: seq<seq<Packet>>)
    requires forall i :: 0 <= i < |parts| ==> Sized(parts[i]) && Readable(parts[i])
    ensures ReadAll(Files(parts)) == Some(AllStamped(Flatten(parts)))
  {
    hide FileOf, ReadFile, Sized, Readable, AllStamped;
    StampedConcat([], []);
    if parts != [] {
      var m := |parts| - 1;
      FilesReadBack(parts[..m]);
      assert Files(parts)[..m] == Files(parts[..m]);
      FileReadsBackIff(parts[m]);
      StampedConcat(Flatten(parts[..m]), parts[m]);
    }
  }

  lemma StampedConcat(a: seq<Packet>, b: seq<Packet>)
    ensures AllStamped(a + b) == AllStamped(a) + AllStamped(b)
    ensures AllStamped([]) == []
  {
  }

  lemma {:induction false} PartsOfFlatten(parts: seq<seq<Packet>>, n: nat)
    requires n <= |parts|
    ensures Flatten(parts) == Flatten(parts[..n]) + Flatten(parts[n..])
  {
    if n < |parts| {
      var m := |parts| - 1;
      PartsOfFlatten(parts[..m], n);
      assert parts[..m][..n] == parts[..n] && parts[..m][n..] == parts[n..][..m - n];
    } else {
      assert parts[..n] == parts && parts[n..] == [];
    }
  }

  lemma {:induction false} FlattenInherits(parts: seq<seq<Packet>>)
    requires Sized(Flatten(parts)) && Readable(Flatten(parts))
    ensures forall i :: 0 <= i < |parts| ==> Sized(parts[i]) && Readable(parts[i])
  {
    if parts != [] {
      var m := |parts| - 1;
      SizedSplits(Flatten(parts[..m]), parts[m]);
      FlattenInherits(parts[..m]);
      assert forall i :: 0 <= i < m ==> parts[..m][i] == parts[i];
    }
  }

  lemma SizedSplits(a: seq<Packet>, b: seq<Packet>)
    requires Sized(a + b) && Readable(a + b)
    ensures Sized(a) && Readable(a) && Sized(b) && Readable(b)
  {
    assert forall i :: 0 <= i < |a| ==> (a + b)[i] == a[i];
    assert forall i :: 0 <= i < |b| ==> (a + b)[|a| + i] == b[i];
  }

  /** The newest `keep` of the files read in order give their packets. */
  lemma NewestReadBack(parts: seq<seq<Packet>>, keep: nat)
    requires Sized(Flatten(parts)) && Readable(Flatten(parts))
    ensures var gone := if |parts| <= keep then 0 else |parts| - keep;
      && Flatten(parts) == Flatten(parts[..gone]) + Flatten(parts[gone..])
      && ReadAll(Newest(Files(parts), keep)) == Some(AllStamped(Flatten(parts[gone..])))
  {
    hide ReadAll, Sized, Readable, AllStamped, FileOf, Flatten;
    var gone := if |parts| <= keep then 0 else |parts| - keep;
    FlattenInherits(parts);
    PartsOfFlatten(parts, gone);
    assert Newest(Files(parts), keep) == Files(parts[gone..]);
    FilesReadBack(parts[gone..]);
  }

  /** Round trip: after `stop`, the retained files, at most as many as configured and at least one, read in order give the
      accepted packets, less those of the files that retention removed, which are the oldest. */
  lemma CaptureRoundTrip(c: Config, events: seq<Event>)
    requires !Run(c, events).running && Sized(Accepted(c, events)) && Readable(Accepted(c, events))
    ensures var sealed := Run(c, events).sealed;
      var keep := if c.maxFiles == 0 then 1 else c.maxFiles;
      var gone := if |sealed| <= keep then 0 else |sealed| - keep;
      && Accepted(c, events) == Flatten(sealed[..gone]) + Flatten(sealed[gone..])
      && ReadAll(Newest(Files(sealed), keep)) == Some(AllStamped(Flatten(sealed[gone..])))
      && (|sealed| <= keep ==> ReadAll(Files(sealed)) == Some(AllStamped(Accepted(c, events))))
  {
    hide ReadAll, Sized, Readable, AllStamped, Run, Accepted, FileOf, Flatten;
    StoppedMeansWritten(c, events);
    var sealed := Run(c, events).sealed;
    NewestReadBack(sealed, if c.maxFiles == 0 then 1 else c.maxFiles);
    assert sealed[0..] == sealed;
  }

  lemma PutIsRotateAndAppend(c: Config, s: State, n: State, p: Packet, chunk: seq<Packet>)
    requires s.running && s.hand == Some(p)
    requires n == s.(hand := None, written := s.written + 1, chunk := n.chunk, sealed := n.sealed, rotated := n.rotated)
    requires n.chunk == chunk + [p] && Rotated(c, RECORD_HEADER_SIZE + |p.data|, s.sealed, s.chunk, s.rotated, n.sealed, chunk, n.rotated)
    ensures n == Step(c, s, Put)
  {
    hide Overflows;
  }

  /** What rotation makes of the closed files, the open one and the counter: it closes the file exactly when a record
      of this size would take it over the limit. */
  ghost predicate Rotated(c: Config, recordSize: nat, sealed: seq<seq<Packet>>, chunk: seq<Packet>, rotated: nat,
                          sealed': seq<seq<Packet>>, chunk': seq<Packet>, rotated': nat) {
    if Overflows(c, chunk, recordSize) then sealed' == sealed + [chunk] && chunk' == [] && rotated' == rotated + 1
    else sealed' == sealed && chunk' == chunk && rotated' == rotated
  }

  // ----- the writer on bytes -----

  lemma FileGrows(packets: seq<Packet>, p: Packet)
    ensures FileOf(packets + [p]) == FileOf(packets) + RecordHeader(p) + p.data
    ensures |FileOf(packets + [p])| == |FileOf(packets)| + RECORD_HEADER_SIZE + |p.data|
  {
  }

  class Writer {
    const config: Config
    var pending: seq<Packet>
    var hand: Option<Packet>
    var accepting: bool
    var running: bool
    var currentFile: Bytes
    var currentFileSize: nat
    var recentFiles: seq<Bytes>
    var enqueued: nat
    var written: nat
    var droppedFull: nat
    var rotated: nat
    ghost var chunk: seq<Packet>
    ghost var sealed: seq<seq<Packet>>

    /** The bytes on disk are those of the packets, and only the newest files are left. */
    ghost predicate Valid()
      reads this
    {
      && (running ==> currentFile == FileOf(chunk) && currentFileSize == |currentFile|)
      && (!running ==> chunk == [])
      && recentFiles == Newest(Files(sealed), config.KeepCount())
    }

    ghost function View(): State
      reads this
    {
      State(pending, hand, accepting, running, chunk, sealed, enqueued, written, droppedFull, rotated)
    }

    /** `start`: open the first file. */
    constructor (config: Config)
      ensures Valid() && this.config == config && View() == STARTED
    {
      this.config := config;
      pending, hand, accepting, running := [], None, true, true;
      enqueued, written, droppedFull, rotated := 0, 0, 0, 0;
      recentFiles, chunk, sealed := [], [], [];
      currentFile, currentFileSize := GlobalHeader(), GLOBAL_HEADER_SIZE;
    }

    method WritePacket(p: Packet)
      requires Valid()
      modifies this`pending, this`enqueued, this`droppedFull
      ensures Valid() && View() == Step(config, old(View()), Offer(p))
    {
      hide FileOf, Files, Newest, Config.Passes;
      if !accepting || p.data == [] || !config.Passes(p.data) {
        return;
      }
      if |pending| >= config.Capacity() {
        droppedFull := droppedFull + 1;
        return;
      }
      pending := pending + [p];
      enqueued := enqueued + 1;
    }

    /** The first locked section of the writer loop. */
    method TakePending()
      requires Valid() && running && hand.None?
      modifies this`pending, this`hand
      ensures Valid() && View() == Step(config, old(View()), TakeFront)
    {
      if pending != [] {
        hand := Some(pending[0]);
        pending := pending[1..];
      }
    }

    method OpenNewFile()
      modifies this`currentFile, this`currentFileSize
      ensures currentFile == GlobalHeader() && currentFileSize == GLOBAL_HEADER_SIZE
    {
      currentFile := GlobalHeader();
      currentFileSize := GLOBAL_HEADER_SIZE;
    }

    /** Closes the file and removes the oldest ones beyond the limit. */
    method SealCurrentFile()
      requires Valid() && running
      modifies this`recentFiles, this`currentFileSize, this`sealed
      ensures sealed == old(sealed) + [chunk] && currentFileSize == 0
      ensures recentFiles == Newest(Files(sealed), if config.maxFiles == 0 then 1 else config.maxFiles)
    {
      hide FileOf;
      ghost var all := Files(sealed) + [currentFile];
      recentFiles := recentFiles + [currentFile];
      sealed := sealed + [chunk];
      while |recentFiles| > config.KeepCount()
        invariant sealed == old(sealed) + [chunk]
        invariant config.KeepCount() <= |recentFiles| || recentFiles == all
        invariant |recentFiles| <= |all| && recentFiles == all[|all| - |recentFiles|..]
        decreases |recentFiles|
      {
        recentFiles := recentFiles[1..];
      }
      currentFileSize := 0;
      assert Files(sealed) == all;
    }

    method RotateFileIfNeeded(recordSize: nat)
      requires Valid() && running
      modifies this`currentFile, this`currentFileSize, this`recentFiles, this`sealed, this`chunk, this`rotated
      ensures Valid()
      ensures Rotated(config, recordSize, old(sealed), old(chunk), old(rotated), sealed, chunk, rotated)
    {
      if currentFileSize + recordSize <= config.MaxBytes() {
        return;
      }
      SealCurrentFile();
      rotated := rotated + 1;
      OpenNewFile();
      chunk := [];
    }

    /** The header and the bytes of the record in hand, at the end of the open file. */
    method AppendRecord()
      requires Valid() && running && hand.Some?
      modifies this`currentFile, this`currentFileSize, this`chunk, this`written, this`hand
      ensures Valid() && chunk == old(chunk) + [old(hand).value] && written == old(written) + 1 && hand == None
    {
      hide FileOf, RecordHeader, Files, Newest;
      var packet := hand.value;
      FileGrows(chunk, packet);
      currentFile := currentFile + RecordHeader(packet);
      currentFile := currentFile + packet.data;
      currentFileSize := currentFileSize + (RECORD_HEADER_SIZE + |packet.data|);
      chunk := chunk + [packet];
      written := written + 1;
      hand := None;
    }

    /** The second locked section: rotate, then append the record. */
    method WriteTaken()
      requires Valid() && running && hand.Some?
      modifies this
      ensures Valid() && View() == Step(config, old(View()), Put)
    {
      hide FileOf, Files, Newest, Step, Rotated;
      RotateFileIfNeeded(RECORD_HEADER_SIZE + |hand.value.data|);
      ghost var before := chunk;
      AppendRecord();
      PutIsRotateAndAppend(config, old(View()), View(), old(hand).value, before);
    }

    /** The writer loop once `stop` has closed the queue to producers: everything pending is written, then the
        last file is closed. */
    method DrainAndExit()
      requires Valid() && running && !accepting && hand.None?
      modifies this
      ensures Valid() && !running && !accepting && hand.None? && pending == [] && chunk == []
      ensures Flatten(sealed) == Flatten(old(sealed)) + old(chunk) + old(pending)
      ensures written == old(written) + |old(pending)| && enqueued == old(enqueued)
    {
      hide FileOf, Flatten;
      while pending != []
        invariant Valid() && running && !accepting && hand.None? && enqueued == old(enqueued)
        invariant Flatten(sealed) + chunk + pending == Flatten(old(sealed)) + old(chunk) + old(pending)
        invariant written + |pending| == old(written) + |old(pending)|
        decreases |pending|
      {
        FlattenAppend(sealed, chunk);
        ghost var all := Flatten(sealed) + chunk + pending;
        TakePending();
        assert Flatten(sealed) + chunk + [hand.value] + pending == all;
        WriteTaken();
        assert Flatten(sealed) + chunk + pending == all;
      }
      FlattenAppend(sealed, chunk);
      SealCurrentFile();
      chunk := [];
      running := false;
    }
  }
}
