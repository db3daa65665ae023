/** The round-robin dispatcher over the in-flight slots of the CPU signal path. The detector is a parameter;
    clock readings and allocation failures are inputs of each visit. */
module GpuDispatch {
  import opened Machine
  import opened SpscQueue

  const STREAM_COUNT: nat := 3
  const INFLIGHT_MAX: nat := 2
  const GPU_MAX_MS: int := 50

  datatype Slot<B, R> = Slot(input: Option<B>, output: Option<R>, occupied: bool, completed: bool, submitTime: int)

  /** A slot after `poll_completion` or `handle_timeout`. */
  function Cleared<B, R>(): Slot<B, R> {
    Slot(None, None, false, false, 0)
  }

  predicate TimedOut<B, R>(s: Slot<B, R>, now: int) {
    s.occupied && ElapsedMs(now, s.submitTime) > GPU_MAX_MS
  }

  // ----- the slots of one stream -----

  function FirstDone<B, R>(row: seq<Slot<B, R>>, s: nat): (r: Option<nat>)
    requires s <= |row|
    ensures r.Some? ==> s <= r.value < |row| && row[r.value].occupied && row[r.value].completed
    ensures forall j :: s <= j < (if r.Some? then r.value else |row|) ==> !(row[j].occupied && row[j].completed)
    decreases |row| - s
  {
    if s == |row| then None
    else if row[s].occupied && row[s].completed then Some(s) else FirstDone(row, s + 1)
  }

  function AfterPoll<B, R>(row: seq<Slot<B, R>>): seq<Slot<B, R>> {
    var done := FirstDone(row, 0);
    if done.Some? then row[done.value := Cleared()] else row
  }

  function AfterTimeout<B, R>(row: seq<Slot<B, R>>, now: int): seq<Slot<B, R>> {
    seq(|row|, i requires 0 <= i < |row| => if TimedOut(row[i], now) then Cleared() else row[i])
  }

  /** A slot is given up exactly when it is in use and 51 milliseconds or more have gone by since its block was
      submitted: the limit is 50 whole ones. */
  lemma TimeoutClearsExactlyTheOld<B, R>(row: seq<Slot<B, R>>, now: int, i: nat)
    requires i < |row|
    ensures |AfterTimeout(row, now)| == |row|
    ensures row[i].occupied && now - row[i].submitTime >= 51_000_000 ==> !AfterTimeout(row, now)[i].occupied
    ensures !row[i].occupied || now - row[i].submitTime < 51_000_000 ==> AfterTimeout(row, now)[i] == row[i]
  {
  }

  function Occupied<B, R>(row: seq<Slot<B, R>>): nat {
    if row == [] then 0 else Occupied(row[..|row| - 1]) + if row[|row| - 1].occupied then 1 else 0
  }

  function FreeSlot<B, R>(row: seq<Slot<B, R>>, s: nat): (r: Option<nat>)
    requires s <= |row|
    ensures r.Some? ==> s <= r.value < |row| && !row[r.value].occupied
    ensures forall j :: s <= j < (if r.Some? then r.value else |row|) ==> row[j].occupied
    decreases |row| - s
  {
    if s == |row| then None else if !row[s].occupied then Some(s) else FreeSlot(row, s + 1)
  }

  // ----- one visit of one stream -----

  datatype Outcome<B, R> = Outcome(row: seq<Slot<B, R>>, queue: seq<B>, emitted: Option<R>, timedOut: nat, popped: Option<B>, submitted: bool)

  /** The first half of a visit: poll for a finished batch, then time slots out. */
  function Collected<B, R>(row: seq<Slot<B, R>>, queue: seq<B>, now: int): Outcome<B, R> {
    var done := FirstDone(row, 0);
    var emitted := if done.Some? then row[done.value].output else None;
    var polled := AfterPoll(row);
    var kept := AfterTimeout(polled, now);
    var timedOut := if Occupied(kept) < Occupied(polled) then Occupied(polled) - Occupied(kept) else 0;
    Outcome(kept, queue, emitted, timedOut, None, false)
  }

  /** The second half: take one block and submit it, unless the slots are all in use. */
  function Fed<B, R>(detect: B -> R, o: Outcome<B, R>, later: int, alloc: bool): Outcome<B, R> {
    if Occupied(o.row) >= INFLIGHT_MAX || o.queue == [] then o
    else
      var free := FreeSlot(o.row, 0);
      var rest := o.(queue := o.queue[1..], popped := Some(o.queue[0]));
      if free.None? || !alloc then rest
      else rest.(row := o.row[free.value := Slot(Some(o.queue[0]), Some(detect(o.queue[0])), true, true, later)], submitted := true)
  }

  /** One visit; `now` and `later` are its two clock readings, and `alloc` says whether the batch can be allocated. */
  function Visited<B, R>(detect: B -> R, row: seq<Slot<B, R>>, queue: seq<B>, now: int, later: int, alloc: bool): Outcome<B, R> {
    Fed(detect, Collected(row, queue, now), later, alloc)
  }

  // ----- one stream over a run -----

  /** How many blocks and how many batches the queues of a stream have room for. */
  datatype Rooms = Rooms(raw: nat, plots: nat)

  /** The result queue after one visit: `drop_oldest_push` of the batch, if there is one. */
  function Delivered<R>(plots: seq<R>, batch: Option<R>, room: nat): seq<R> {
    if batch.Some? then Newest(plots + [batch.value], room) else plots
  }

  /** `results` is the result queue. `arrived`, `taken` and `emitted` are histories: all blocks queued, all blocks
      submitted, all batches put out; `at` says which arrivals the submitted blocks were. */
  datatype Lane<B, R> = Lane(
    row: seq<Slot<B, R>>, queue: seq<B>, arrived: seq<B>, dropped: nat, popped: nat, failed: nat,
    taken: seq<B>, at: seq<nat>, emitted: seq<R>, results: seq<R>, timeouts: nat)

  datatype LaneEvent<B> = Arrive(block: B) | Visit(now: int, later: int, alloc: bool)

  function LaneStep<B, R>(detect: B -> R, room: Rooms, l: Lane<B, R>, e: LaneEvent<B>): Lane<B, R> {
    match e
    case Arrive(block) =>
      var queue := Newest(l.queue + [block], room.raw);
      l.(queue := queue, arrived := l.arrived + [block], dropped := l.dropped + |l.queue| + 1 - |queue|)
    case Visit(now, later, alloc) =>
      var o := Visited(detect, l.row, l.queue, now, later, alloc);
      l.(row := o.row, queue := o.queue,
         popped := l.popped + if o.popped.Some? then 1 else 0,
         failed := l.failed + if o.popped.Some? && !o.submitted then 1 else 0,
         taken := l.taken + (if o.popped.Some? && o.submitted then [o.popped.value] else []),
         at := l.at + (if o.popped.Some? && o.submitted then [l.popped + l.dropped] else []),
         emitted := l.emitted + (if o.emitted.Some? then [o.emitted.value] else []),
         results := Delivered(l.results, o.emitted, room.plots),
         timeouts := l.timeouts + o.timedOut)
  }

  function LaneRun<B, R>(detect: B -> R, room: Rooms, l: Lane<B, R>, events: seq<LaneEvent<B>>): Lane<B, R>
    decreases |events|
  {
    if events == [] then l else LaneRun(detect, room, LaneStep(detect, room, l, events[0]), events[1..])
  }

  function EmptyRow<B, R>(): seq<Slot<B, R>> {
    [Cleared(), Cleared()]
  }

  function EmptyLane<B, R>(): Lane<B, R> {
    Lane(EmptyRow(), [], [], 0, 0, 0, [], [], [], [], 0)
  }

  /** At most the first slot is in use, and then it is complete. */
  ghost predicate Ready<B, R>(row: seq<Slot<B, R>>) {
    && |row| == INFLIGHT_MAX && !row[1].occupied
    && (row[0].occupied ==> row[0].completed && row[0].output.Some?)
  }

  function InFlight<B, R>(row: seq<Slot<B, R>>): seq<R> {
    if |row| > 0 && row[0].occupied && row[0].output.Some? then [row[0].output.value] else []
  }

  function Mapped<B, R>(f: B -> R, s: seq<B>): (r: seq<R>)
    ensures |r| == |s|
  {
    seq(|s|, i requires 0 <= i < |s| => f(s[i]))
  }

  ghost predicate Flow<B, R>(room: Rooms, l: Lane<B, R>) {
    && |l.arrived| == l.popped + l.dropped + |l.queue| && |l.queue| <= room.raw
    && l.queue == l.arrived[l.popped + l.dropped..]
    && l.popped == |l.taken| + l.failed
  }

  /** The submitted blocks are arrivals that have left the queue, each once and in order of arrival. */
  ghost predicate InArrivalOrder<B, R>(l: Lane<B, R>) {
    && |l.at| == |l.taken| && l.popped + l.dropped <= |l.arrived|
    && (forall i :: 0 <= i < |l.at| ==> l.at[i] < l.popped + l.dropped && l.taken[i] == l.arrived[l.at[i]])
    && forall i, j :: 0 <= i < j < |l.at| ==> l.at[i] < l.at[j]
  }

  /** Batches come out in submission order, none is lost and none times out; the result queue holds the newest. */
  ghost predicate Sane<B, R>(detect: B -> R, room: Rooms, l: Lane<B, R>) {
    && Ready(l.row) && Flow(room, l) && InArrivalOrder(l)
    && l.emitted + InFlight(l.row) == Mapped(detect, l.taken)
    && l.results == Newest(l.emitted, room.plots)
    && l.timeouts == 0
  }

  /** A visit of a ready row empties it, times nothing out and takes a block whenever one is queued. */
  lemma VisitOfReady<B, R>(detect: B -> R, row: seq<Slot<B, R>>, queue: seq<B>, now: int, later: int, alloc: bool)
    requires Ready(row)
    ensures var o := Visited(detect, row, queue, now, later, alloc);
      && Ready(o.row) && o.timedOut == 0
      && (if o.emitted.Some? then [o.emitted.value] else []) == InFlight(row)
      && (o.popped == if queue == [] then None else Some(queue[0]))
      && o.queue == (if queue == [] then [] else queue[1..])
      && (o.submitted <==> queue != [] && alloc)
      && InFlight(o.row) == (if o.submitted then [detect(queue[0])] else [])
      && (o.submitted ==> o.row[0].submitTime == later && o.row[0].input == Some(queue[0]))
  {
    var polled := AfterPoll(row);
    assert FirstDone(row, 0) == if row[0].occupied then Some(0) else None by {
      assert FirstDone(row, 1) == FirstDone(row, 2) == None;
    }
    assert !polled[0].occupied && !polled[1].occupied;
    NoneOccupied(polled);
    assert AfterTimeout(polled, now) == polled;
  }

  lemma NoneOccupied<B, R>(row: seq<Slot<B, R>>)
    requires |row| == INFLIGHT_MAX && !row[0].occupied && !row[1].occupied
    ensures Occupied(row) == 0 && FreeSlot(row, 0) == Some(0)
  {
    assert Occupied(row[..1][..0]) == 0;
    assert row[..1][0] == row[0];
    assert Occupied(row[..1]) == 0;
  }

  /** Taking the front block moves the boundary between what left and what waits by one. */
  lemma TakeKeepsFlow<B, R>(room: Rooms, l: Lane<B, R>, n: Lane<B, R>, submitted: bool)
    requires Flow(room, l) && l.queue != []
    requires n.queue == l.queue[1..] && n.arrived == l.arrived && n.dropped == l.dropped && n.popped == l.popped + 1
    requires n.failed == l.failed + (if submitted then 0 else 1)
    requires n.taken == l.taken + (if submitted then [l.queue[0]] else [])
    ensures Flow(room, n)
  {
  }

  lemma TakeKeepsArrivalOrder<B, R>(room: Rooms, l: Lane<B, R>, n: Lane<B, R>, submitted: bool)
    requires Flow(room, l) && InArrivalOrder(l) && l.queue != []
    requires n.arrived == l.arrived && n.dropped == l.dropped && n.popped == l.popped + 1
    requires n.taken == l.taken + (if submitted then [l.queue[0]] else [])
    requires n.at == l.at + (if submitted then [l.popped + l.dropped] else [])
    ensures InArrivalOrder(n)
  {
    assert l.queue[0] == l.arrived[l.popped + l.dropped];
  }

  lemma DeliveredIsNewest<R>(emitted: seq<R>, batch: Option<R>, room: nat)
    ensures Delivered(Newest(emitted, room), batch, room) == Newest(emitted + (if batch.Some? then [batch.value] else []), room)
  {
  }

  lemma MappedAppend<B, R>(f: B -> R, s: seq<B>, x: B)
    ensures Mapped(f, s + [x]) == Mapped(f, s) + [f(x)]
  {
  }

  lemma VisitKeepsSane<B, R>(detect: B -> R, room: Rooms, l: Lane<B, R>, now: int, later: int, alloc: bool)
    requires Sane(detect, room, l)
    ensures Sane(detect, room, LaneStep(detect, room, l, Visit(now, later, alloc)))
  {
    hide Visited, Flow, Ready, InFlight, Mapped, InArrivalOrder, Newest, Delivered;
    VisitOfReady(detect, l.row, l.queue, now, later, alloc);
    DeliveredIsNewest(l.emitted, Visited(detect, l.row, l.queue, now, later, alloc).emitted, room.plots);
    var n := LaneStep(detect, room, l, Visit(now, later, alloc));
    assert n.emitted == Mapped(detect, l.taken);
    if l.queue == [] {
      VisitOfEmpty(room, l, n);
    } else {
      TakeKeepsFlow(room, l, n, alloc);
      TakeKeepsArrivalOrder(room, l, n, alloc);
      MappedAppend(detect, l.taken, l.queue[0]);
      assert n.taken == if alloc then l.taken + [l.queue[0]] else l.taken;
    }
  }

  lemma VisitOfEmpty<B, R>(room: Rooms, l: Lane<B, R>, n: Lane<B, R>)
    requires Flow(room, l) && n.queue == l.queue && n.arrived == l.arrived && n.dropped == l.dropped && n.popped == l.popped
    requires n.failed == l.failed && n.taken == l.taken && n.at == l.at
    ensures Flow(room, n) && (InArrivalOrder(l) ==> InArrivalOrder(n))
  {
  }

  /** A block is dropped for a new one exactly when the queue is full. */
  lemma DropsOnlyWhenFull<B, R>(detect: B -> R, room: Rooms, l: Lane<B, R>, block: B)
    requires Flow(room, l)
    ensures LaneStep(detect, room, l, Arrive(block)).dropped == l.dropped + if |l.queue| == room.raw then 1 else 0
  {
  }

  lemma ArriveKeepsSane<B, R>(detect: B -> R, room: Rooms, l: Lane<B, R>, block: B)
    requires Sane(detect, room, l) && room.raw > 0
    ensures Sane(detect, room, LaneStep(detect, room, l, Arrive(block)))
  {
    var n := LaneStep(detect, room, l, Arrive(block));
    assert forall i :: 0 <= i < |l.arrived| ==> n.arrived[i] == l.arrived[i];
    assert (l.arrived + [block])[l.popped + l.dropped..] == l.queue + [block];
  }

  lemma StepKeepsSane<B, R>(detect: B -> R, room: Rooms, l: Lane<B, R>, e: LaneEvent<B>)
    requires Sane(detect, room, l) && room.raw > 0
    ensures Sane(detect, room, LaneStep(detect, room, l, e))
  {
    match e
    case Arrive(block) => ArriveKeepsSane(detect, room, l, block);
    case Visit(now, later, alloc) => VisitKeepsSane(detect, room, l, now, later, alloc);
  }

  lemma {:induction false} LaneRunKeepsSane<B, R>(detect: B -> R, room: Rooms, l: Lane<B, R>, events: seq<LaneEvent<B>>)
    requires Sane(detect, room, l) && room.raw > 0
    ensures Sane(detect, room, LaneRun(detect, room, l, events))
    decreases |events|
  {
    hide Sane, LaneStep;
    if events != [] {
      StepKeepsSane(detect, room, l, events[0]);
      LaneRunKeepsSane(detect, room, LaneStep(detect, room, l, events[0]), events[1..]);
    }
  }

  function Visits<B>(events: seq<LaneEvent<B>>): nat {
    if events == [] then 0 else (if events[0].Visit? then 1 else 0) + Visits(events[1..])
  }

  /** Bounded waiting: the block at queue position `k` has left the queue after `k + 1` visits, whatever arrives,
      whatever the clock reads and whichever allocations fail. */
  lemma {:induction false} LeavesWithinVisits<B, R>(detect: B -> R, room: Rooms, l: Lane<B, R>, events: seq<LaneEvent<B>>, k: int)
    requires Sane(detect, room, l) && room.raw > 0
    requires k < |l.queue| && Visits(events) >= k + 1
    ensures var r := LaneRun(detect, room, l, events); r.popped + r.dropped > l.popped + l.dropped + k
    decreases |events|
  {
    hide Sane, LaneStep;
    if events == [] {
      assert k < 0;
    } else {
      var next := LaneStep(detect, room, l, events[0]);
      StepKeepsSane(detect, room, l, events[0]);
      StepAdvances(detect, room, l, events[0]);
      LeavesWithinVisits(detect, room, next, events[1..], l.popped + l.dropped + k - next.popped - next.dropped);
    }
  }

  lemma StepAdvances<B, R>(detect: B -> R, room: Rooms, l: Lane<B, R>, e: LaneEvent<B>)
    requires Sane(detect, room, l)
    ensures var n := LaneStep(detect, room, l, e);
      && n.popped + n.dropped >= l.popped + l.dropped + (if e.Visit? && l.queue != [] then 1 else 0)
      && |n.queue| + n.popped + n.dropped >= |l.queue| + l.popped + l.dropped
  {
    hide Visited;
    if e.Visit? {
      VisitOfReady(detect, l.row, l.queue, e.now, e.later, e.alloc);
    }
  }

  // ----- submission -----

  function Arrivals<B>(events: seq<LaneEvent<B>>): seq<B> {
    if events == [] then [] else (if events[0].Arrive? then [events[0].block] else []) + Arrivals(events[1..])
  }

  predicate AllAllocated<B>(events: seq<LaneEvent<B>>) {
    forall i :: 0 <= i < |events| && events[i].Visit? ==> events[i].alloc
  }

  lemma {:induction false} DropsOnlyGrow<B, R>(detect: B -> R, room: Rooms, l: Lane<B, R>, events: seq<LaneEvent<B>>)
    ensures LaneRun(detect, room, l, events).dropped >= l.dropped
    decreases |events|
  {
    hide Visited;
    if events != [] {
      DropsOnlyGrow(detect, room, LaneStep(detect, room, l, events[0]), events[1..]);
    }
  }

  /** Where nothing is dropped and every allocation succeeds, submitted and waiting blocks together only grow, by what
      arrives. */
  lemma {:induction false} NothingIsLost<B, R>(detect: B -> R, room: Rooms, l: Lane<B, R>, events: seq<LaneEvent<B>>)
    requires Sane(detect, room, l) && room.raw > 0 && AllAllocated(events)
    requires LaneRun(detect, room, l, events).dropped == l.dropped
    ensures var r := LaneRun(detect, room, l, events);
      r.failed == l.failed && r.taken + r.queue == l.taken + l.queue + Arrivals(events)
    decreases |events|
  {
    hide Sane, LaneStep;
    if events != [] {
      var next := LaneStep(detect, room, l, events[0]);
      DropsOnlyGrow(detect, room, next, events[1..]);
      StepKeepsSane(detect, room, l, events[0]);
      StepLosesNothing(detect, room, l, events[0]);
      NothingIsLost(detect, room, next, events[1..]);
      var first := if events[0].Arrive? then [events[0].block] else [];
      var r := LaneRun(detect, room, next, events[1..]);
      assert r.taken + r.queue == l.taken + l.queue + first + Arrivals(events[1..]);
      Regrouped(l.taken + l.queue, first, Arrivals(events[1..]));
    }
  }

  lemma Regrouped<B>(a: seq<B>, b: seq<B>, c: seq<B>)
    ensures a + b + c == a + (b + c)
  {
  }

  lemma StepLosesNothing<B, R>(detect: B -> R, room: Rooms, l: Lane<B, R>, e: LaneEvent<B>)
    requires Sane(detect, room, l) && (e.Visit? ==> e.alloc)
    ensures var n := LaneStep(detect, room, l, e);
      && n.dropped >= l.dropped
      && (n.dropped == l.dropped ==>
            n.failed == l.failed && n.taken + n.queue == l.taken + l.queue + (if e.Arrive? then [e.block] else []))
  {
    hide Visited;
    if e.Visit? {
      VisitOfReady(detect, l.row, l.queue, e.now, e.later, e.alloc);
    }
  }

  /** Where nothing is dropped and every allocation succeeds, the block at queue position `k` has been submitted, after
      the `k` before it, once `k + 1` visits have been made. */
  lemma SubmittedWithinVisits<B, R>(detect: B -> R, room: Rooms, l: Lane<B, R>, events: seq<LaneEvent<B>>, k: nat)
    requires Sane(detect, room, l) && room.raw > 0 && AllAllocated(events)
    requires LaneRun(detect, room, l, events).dropped == l.dropped
    requires k < |l.queue| && Visits(events) >= k + 1
    ensures var r := LaneRun(detect, room, l, events);
      |l.taken| + k < |r.taken| && r.taken[|l.taken| + k] == l.queue[k]
  {
    NothingIsLost(detect, room, l, events);
    LeavesWithinVisits(detect, room, l, events, k);
    LaneRunKeepsSane(detect, room, l, events);
    var r := LaneRun(detect, room, l, events);
    hide LaneRun;
    assert (r.taken + r.queue)[|l.taken| + k] == (l.taken + l.queue + Arrivals(events))[|l.taken| + k];
  }

  // ----- the three streams and the round-robin order -----

  /** `i` counts the visits made in the current round. */
  datatype Dispatcher<B, R> = Dispatcher(lanes: seq<Lane<B, R>>, rr: nat, i: nat)

  datatype Event<B> = Queued(stream: nat, block: B) | Tick(now: int, later: int, alloc: bool)

  function Target(rr: nat, i: nat): (q: nat)
    ensures q < STREAM_COUNT
  {
    (rr + i) % STREAM_COUNT
  }

  function NextTurn(rr: nat, i: nat): (nat, nat) {
    if i + 1 == STREAM_COUNT then ((rr + 1) % STREAM_COUNT, 0) else (rr, i + 1)
  }

  function Step<B, R>(detect: B -> R, room: Rooms, d: Dispatcher<B, R>, e: Event<B>): (n: Dispatcher<B, R>)
    requires |d.lanes| == STREAM_COUNT
    ensures |n.lanes| == STREAM_COUNT
  {
    match e
    case Queued(q, block) =>
      if q < STREAM_COUNT then d.(lanes := d.lanes[q := LaneStep(detect, room, d.lanes[q], Arrive(block))]) else d
    case Tick(now, later, alloc) =>
      var q := Target(d.rr, d.i);
      var turn := NextTurn(d.rr, d.i);
      Dispatcher(d.lanes[q := LaneStep(detect, room, d.lanes[q], Visit(now, later, alloc))], turn.0, turn.1)
  }

  function Run<B, R>(detect: B -> R, room: Rooms, d: Dispatcher<B, R>, events: seq<Event<B>>): (n: Dispatcher<B, R>)
    requires |d.lanes| == STREAM_COUNT
    ensures |n.lanes| == STREAM_COUNT
    decreases |events|
  {
    if events == [] then d else Run(detect, room, Step(detect, room, d, events[0]), events[1..])
  }

  function Start<B, R>(): Dispatcher<B, R> {
    Dispatcher([EmptyLane(), EmptyLane(), EmptyLane()], 0, 0)
  }

  /** What stream `q` sees of a run. */
  function Seen<B>(rr: nat, i: nat, events: seq<Event<B>>, q: nat): seq<LaneEvent<B>>
    decreases |events|
  {
    if events == [] then []
    else match events[0]
      case Queued(stream, block) => (if stream == q then [Arrive(block)] else []) + Seen(rr, i, events[1..], q)
      case Tick(now, later, alloc) =>
        (if Target(rr, i) == q then [Visit(now, later, alloc)] else [])
        + Seen(NextTurn(rr, i).0, NextTurn(rr, i).1, events[1..], q)
  }

  /** The turn after event `e`. */
  function TurnAfter<B>(rr: nat, i: nat, e: Event<B>): (nat, nat) {
    if e.Tick? then NextTurn(rr, i) else (rr, i)
  }

  predicate Concerns<B>(rr: nat, i: nat, e: Event<B>, q: nat) {
    match e
    case Queued(stream, _) => stream == q
    case Tick(_, _, _) => Target(rr, i) == q
  }

  lemma SeenSplits<B>(rr: nat, i: nat, events: seq<Event<B>>, q: nat)
    requires events != []
    ensures var turn := TurnAfter(rr, i, events[0]);
      var rest := Seen(turn.0, turn.1, events[1..], q);
      var all := Seen(rr, i, events, q);
      if Concerns(rr, i, events[0], q) then
        && all != [] && all[1..] == rest
        && all[0] == match events[0]
                     case Queued(_, block) => Arrive(block)
                     case Tick(now, later, alloc) => Visit(now, later, alloc)
      else all == rest
  {
  }

  lemma {:induction false} LaneOfRun<B, R>(detect: B -> R, room: Rooms, d: Dispatcher<B, R>, events: seq<Event<B>>, q: nat)
    requires |d.lanes| == STREAM_COUNT && q < STREAM_COUNT
    ensures Run(detect, room, d, events).lanes[q] == LaneRun(detect, room, d.lanes[q], Seen(d.rr, d.i, events, q))
    decreases |events|
  {
    hide LaneStep;
    if events != [] {
      SeenSplits(d.rr, d.i, events, q);
      LaneOfRun(detect, room, Step(detect, room, d, events[0]), events[1..], q);
    }
  }

  function Ticks<B>(events: seq<Event<B>>): nat {
    if events == [] then 0 else (if events[0].Tick? then 1 else 0) + Ticks(events[1..])
  }

  /** How many of the next `n` visits go to stream `q`. */
  function Turns(rr: nat, i: nat, n: nat, q: nat): nat
    decreases n
  {
    if n == 0 then 0 else (if Target(rr, i) == q then 1 else 0) + Turns(NextTurn(rr, i).0, NextTurn(rr, i).1, n - 1, q)
  }

  lemma {:induction false} VisitsAreTurns<B>(rr: nat, i: nat, events: seq<Event<B>>, q: nat)
    requires q < STREAM_COUNT
    ensures Visits(Seen(rr, i, events, q)) == Turns(rr, i, Ticks(events), q)
    decreases |events|
  {
    if events != [] {
      var turn := TurnAfter(rr, i, events[0]);
      SeenSplits(rr, i, events, q);
      VisitsAreTurns(turn.0, turn.1, events[1..], q);
    }
  }

  /** How many of the first `i` visits of a round, with the given inputs, put a batch out. */
  function CompletedIn<B, R>(detect: B -> R, lanes: seq<(seq<Slot<B, R>>, seq<B>)>, rr: nat, inputs: seq<(int, int, bool)>, i: nat): nat
    requires |lanes| == STREAM_COUNT && i <= |inputs|
  {
    if i == 0 then 0
    else
      var lane, input := lanes[Target(rr, i - 1)], inputs[i - 1];
      CompletedIn(detect, lanes, rr, inputs, i - 1)
      + if Visited(detect, lane.0, lane.1, input.0, input.1, input.2).emitted.Some? then 1 else 0
  }

  /** How many of them submit a block. */
  function SubmittedIn<B, R>(detect: B -> R, lanes: seq<(seq<Slot<B, R>>, seq<B>)>, rr: nat, inputs: seq<(int, int, bool)>, i: nat): nat
    requires |lanes| == STREAM_COUNT && i <= |inputs|
  {
    if i == 0 then 0
    else
      var lane, input := lanes[Target(rr, i - 1)], inputs[i - 1];
      SubmittedIn(detect, lanes, rr, inputs, i - 1)
      + if Visited(detect, lane.0, lane.1, input.0, input.1, input.2).submitted then 1 else 0
  }

  predicate Busy<B, R>(lane: (seq<Slot<B, R>>, seq<B>)) {
    lane.0 != [] && lane.0[0].occupied
  }

  /** A round over ready streams completes one batch for each stream that has one in flight, from whichever stream it
      starts, and submits one block for each turn at which a block waits and can be allocated. */
  lemma RoundCounts<B, R>(detect: B -> R, lanes: seq<(seq<Slot<B, R>>, seq<B>)>, rr: nat, inputs: seq<(int, int, bool)>)
    requires |lanes| == |inputs| == STREAM_COUNT && rr < STREAM_COUNT && forall q :: 0 <= q < STREAM_COUNT ==> Ready(lanes[q].0)
    ensures CompletedIn(detect, lanes, rr, inputs, STREAM_COUNT)
         == (if Busy(lanes[0]) then 1 else 0) + (if Busy(lanes[1]) then 1 else 0) + (if Busy(lanes[2]) then 1 else 0)
    ensures SubmittedIn(detect, lanes, rr, inputs, STREAM_COUNT)
         == (if lanes[rr].1 != [] && inputs[0].2 then 1 else 0) + (if lanes[(rr + 1) % 3].1 != [] && inputs[1].2 then 1 else 0)
            + (if lanes[(rr + 2) % 3].1 != [] && inputs[2].2 then 1 else 0)
  {
    hide Visited;
    forall i: nat | i < STREAM_COUNT
      ensures var lane := lanes[Target(rr, i)];
        var o := Visited(detect, lane.0, lane.1, inputs[i].0, inputs[i].1, inputs[i].2);
        (o.emitted.Some? <==> Busy(lane)) && (o.submitted <==> lane.1 != [] && inputs[i].2)
    {
      var lane := lanes[Target(rr, i)];
      VisitOfReady(detect, lane.0, lane.1, inputs[i].0, inputs[i].1, inputs[i].2);
    }
    var busy := (i: nat) => if Busy(lanes[Target(rr, i)]) then 1 else 0;
    assert CompletedIn(detect, lanes, rr, inputs, 1) == busy(0);
    assert CompletedIn(detect, lanes, rr, inputs, 2) == busy(0) + busy(1);
    var fed := (i: nat) requires i < STREAM_COUNT => if lanes[Target(rr, i)].1 != [] && inputs[i].2 then 1 else 0;
    assert SubmittedIn(detect, lanes, rr, inputs, 1) == fed(0);
    assert SubmittedIn(detect, lanes, rr, inputs, 2) == fed(0) + fed(1);
  }

  /** Each round visits every stream exactly once, from whichever stream it starts. */
  lemma {:induction false} OneTurnPerRound(rr: nat, rounds: nat, extra: nat, q: nat)
    requires rr < STREAM_COUNT && q < STREAM_COUNT
    ensures Turns(rr, 0, STREAM_COUNT * rounds + extra, q) >= rounds
    ensures extra == 0 ==> Turns(rr, 0, STREAM_COUNT * rounds, q) == rounds
    decreases rounds
  {
    if rounds > 0 {
      var n := STREAM_COUNT * rounds + extra;
      var next := (rr + 1) % STREAM_COUNT;
      OneTurnPerRound(next, rounds - 1, extra, q);
      assert Turns(rr, 2, n - 2, q) == (if Target(rr, 2) == q then 1 else 0) + Turns(next, 0, n - 3, q);
      assert Turns(rr, 1, n - 1, q) == (if Target(rr, 1) == q then 1 else 0) + Turns(rr, 2, n - 2, q);
    }
  }

  lemma EmptyIsSane<B, R>(detect: B -> R, room: Rooms)
    ensures Sane(detect, room, EmptyLane<B, R>())
  {
  }

  /** Over every run each stream keeps its order, loses no submitted block and times none out. */
  lemma EveryRunIsSane<B, R>(detect: B -> R, room: Rooms, events: seq<Event<B>>, q: nat)
    requires room.raw > 0 && q < STREAM_COUNT
    ensures Sane(detect, room, Run(detect, room, Start(), events).lanes[q])
  {
    hide Run, LaneRun, Seen, Sane;
    LaneOfRun(detect, room, Start(), events, q);
    EmptyIsSane(detect, room);
    LaneRunKeepsSane(detect, room, EmptyLane(), Seen(0, 0, events, q));
  }

  /** Every allocation of the run succeeds. */
  predicate EveryTickAllocates<B>(events: seq<Event<B>>) {
    forall i :: 0 <= i < |events| && events[i].Tick? ==> events[i].alloc
  }

  lemma {:induction false} SeenAllocated<B>(rr: nat, i: nat, events: seq<Event<B>>, q: nat)
    requires EveryTickAllocates(events)
    ensures AllAllocated(Seen(rr, i, events, q))
    decreases |events|
  {
    if events != [] {
      var turn := TurnAfter(rr, i, events[0]);
      SeenSplits(rr, i, events, q);
      SeenAllocated(turn.0, turn.1, events[1..], q);
      var all := Seen(rr, i, events, q);
      assert Concerns(rr, i, events[0], q) ==> all == [all[0]] + all[1..];
    }
  }

  /** From the start of any round, the block at position `k` of any queue leaves it within `k + 1` rounds; and where its
      queue drops nothing and every allocation succeeds, it has been submitted by then, right after those before it. */
  lemma TakenWithinRounds<B, R>(detect: B -> R, room: Rooms, d: Dispatcher<B, R>, events: seq<Event<B>>, q: nat, k: nat)
    requires room.raw > 0 && |d.lanes| == STREAM_COUNT && q < STREAM_COUNT && d.rr < STREAM_COUNT && d.i == 0
    requires Sane(detect, room, d.lanes[q]) && k < |d.lanes[q].queue|
    requires Ticks(events) >= STREAM_COUNT * (k + 1)
    ensures var l, r := d.lanes[q], Run(detect, room, d, events).lanes[q];
      && r.popped + r.dropped > l.popped + l.dropped + k
      && (EveryTickAllocates(events) && r.dropped == l.dropped ==>
            |l.taken| + k < |r.taken| && r.taken[|l.taken| + k] == l.queue[k])
  {
    hide Sane, Run, LaneRun, Seen, Turns, Visits, Ticks, AllAllocated;
    LaneOfRun(detect, room, d, events, q);
    VisitsAreTurns(d.rr, 0, events, q);
    OneTurnPerRound(d.rr, k + 1, Ticks(events) - STREAM_COUNT * (k + 1), q);
    LeavesWithinVisits(detect, room, d.lanes[q], Seen(d.rr, 0, events, q), k);
    if EveryTickAllocates(events) && Run(detect, room, d, events).lanes[q].dropped == d.lanes[q].dropped {
      SeenAllocated(d.rr, 0, events, q);
      SubmittedWithinVisits(detect, room, d.lanes[q], Seen(d.rr, 0, events, q), k);
    }
  }
}
