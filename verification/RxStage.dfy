/** The receive stage: parse, validate, push into the overwriting queue, count. */
module RxStage {
  import opened Machine
  import opened SpscQueue

  /** What the parser and the validator say of one received packet. */
  datatype Verdict<T> = Malformed | Invalid | Good(envelope: T)

  datatype Counters = Counters(rxTotal: nat, parseOk: nat, validateOk: nat, enqueued: nat, drops: nat, watermark: nat)

  const NO_COUNTS := Counters(0, 0, 0, 0, 0, 0)

  function Max(a: nat, b: nat): nat {
    if a < b then b else a
  }

  /** Counters after one packet, with the queue holding `depth` elements before and room for `room`. */
  function Counted<T>(c: Counters, verdict: Verdict<T>, depth: nat, room: nat): Counters {
    match verdict
    case Malformed => c.(rxTotal := c.rxTotal + 1)
    case Invalid => c.(rxTotal := c.rxTotal + 1, parseOk := c.parseOk + 1)
    case Good(_) =>
      var now := if depth < room then depth + 1 else room;
      Counters(c.rxTotal + 1, c.parseOk + 1, c.validateOk + 1, c.enqueued + 1,
               c.drops + depth + 1 - now, Max(c.watermark, now))
  }

  // ----- runs -----

  datatype Event<T> = Arrive(verdict: Verdict<T>) | Take

  datatype State<T> = State(queue: seq<T>, counters: Counters, taken: seq<T>)

  function Step<T>(room: nat, s: State<T>, e: Event<T>): State<T> {
    match e
    case Arrive(verdict) =>
      State(if verdict.Good? then Newest(s.queue + [verdict.envelope], room) else s.queue,
            Counted(s.counters, verdict, |s.queue|, room), s.taken)
    case Take => if s.queue == [] then s else State(s.queue[1..], s.counters, s.taken + [s.queue[0]])
  }

  function Run<T>(room: nat, events: seq<Event<T>>): State<T> {
    if events == [] then State([], NO_COUNTS, [])
    else Step(room, Run(room, events[..|events| - 1]), events[|events| - 1])
  }

  /** The envelopes that passed parsing and validation, in order of arrival. */
  function Accepted<T>(events: seq<Event<T>>): seq<T> {
    if events == [] then []
    else
      var last := events[|events| - 1];
      Accepted(events[..|events| - 1]) + if last.Arrive? && last.verdict.Good? then [last.verdict.envelope] else []
  }

  /** Arrival positions of the envelopes taken. */
  function TakenAt<T>(room: nat, events: seq<Event<T>>): seq<nat> {
    if events == [] then []
    else
      var before := events[..|events| - 1];
      var s := Run(room, before);
      TakenAt(room, before)
      + if events[|events| - 1].Take? && s.queue != [] then [|s.taken| + s.counters.drops] else []
  }

  /** What left the queue, taken or dropped, is what arrived first; what is in it is what arrived last. */
  ghost predicate Balanced<T>(room: nat, s: State<T>, accepted: seq<T>) {
    && s.counters.validateOk == s.counters.enqueued == |accepted| == |s.taken| + s.counters.drops + |s.queue|
    && s.queue == accepted[|s.taken| + s.counters.drops..]
    && |s.queue| <= room
    && s.counters.validateOk <= s.counters.parseOk <= s.counters.rxTotal
  }

  lemma ArriveKeepsBalance<T>(room: nat, s: State<T>, accepted: seq<T>, envelope: T)
    requires room > 0 && Balanced(room, s, accepted)
    ensures Balanced(room, Step(room, s, Arrive(Good(envelope))), accepted + [envelope])
  {
  }

  lemma TakeKeepsBalance<T>(room: nat, s: State<T>, accepted: seq<T>)
    requires Balanced(room, s, accepted)
    ensures Balanced(room, Step(room, s, Take), accepted)
  {
  }

  /** Every accepted envelope was taken, dropped or is queued, and the queue is the tail of the arrivals. */
  lemma {:induction false} EveryEnvelopeIsAccountedFor<T>(room: nat, events: seq<Event<T>>)
    requires room > 0
    ensures Balanced(room, Run(room, events), Accepted(events))
  {
    if events != [] {
      var before, last := events[..|events| - 1], events[|events| - 1];
      EveryEnvelopeIsAccountedFor(room, before);
      match last
      case Take => TakeKeepsBalance(room, Run(room, before), Accepted(before));
      case Arrive(Good(envelope)) => ArriveKeepsBalance(room, Run(room, before), Accepted(before), envelope);
      case _ =>
    }
  }

  function CountOf<T>(events: seq<Event<T>>, wanted: Verdict<T> -> bool): nat {
    if events == [] then 0
    else
      var last := events[|events| - 1];
      CountOf(events[..|events| - 1], wanted) + if last.Arrive? && wanted(last.verdict) then 1 else 0
  }

  /** Each counter counts the packets that got that far. */
  lemma {:induction false} CountersAreExact<T>(room: nat, events: seq<Event<T>>)
    ensures var c := Run(room, events).counters;
      && c.rxTotal == CountOf(events, (v: Verdict<T>) => true)
      && c.parseOk == CountOf(events, (v: Verdict<T>) => !v.Malformed?)
      && c.validateOk == c.enqueued == CountOf(events, (v: Verdict<T>) => v.Good?)
  {
    if events != [] {
      CountersAreExact(room, events[..|events| - 1]);
    }
  }

  /** After any run, a packet that passes costs a queued one exactly when the queue is full, and is queued itself. */
  lemma DropsOnlyWhenFull<T>(room: nat, events: seq<Event<T>>, envelope: T)
    requires room > 0
    ensures var s, s' := Run(room, events), Run(room, events + [Arrive(Good(envelope))]);
      && s'.counters.drops == s.counters.drops + (if |s.queue| == room then 1 else 0)
      && s'.queue == (if |s.queue| == room then s.queue[1..] else s.queue) + [envelope]
  {
    hide Step, Balanced, Newest;
    EveryEnvelopeIsAccountedFor(room, events);
    assert (events + [Arrive(Good(envelope))])[..|events|] == events;
    PushOnBalanced(room, Run(room, events), Accepted(events), envelope);
  }

  lemma PushOnBalanced<T>(room: nat, s: State<T>, accepted: seq<T>, envelope: T)
    requires room > 0 && Balanced(room, s, accepted)
    ensures var s' := Step(room, s, Arrive(Good(envelope)));
      && s'.counters.drops == s.counters.drops + (if |s.queue| == room then 1 else 0)
      && s'.queue == (if |s.queue| == room then s.queue[1..] else s.queue) + [envelope]
  {
    assert |s.queue| <= room;
    hide Balanced;
    if |s.queue| == room {
      assert (s.queue + [envelope])[1..] == s.queue[1..] + [envelope];
    }
  }

  /** The consumer sees the arrivals in order, each at most once: overflow only leaves some out. */
  lemma {:induction false} TakenInArrivalOrder<T>(room: nat, events: seq<Event<T>>)
    requires room > 0
    ensures |TakenAt(room, events)| == |Run(room, events).taken|
    ensures forall i :: 0 <= i < |TakenAt(room, events)| ==>
      && TakenAt(room, events)[i] < |Accepted(events)| - |Run(room, events).queue|
      && Run(room, events).taken[i] == Accepted(events)[TakenAt(room, events)[i]]
    ensures forall i, j :: 0 <= i < j < |TakenAt(room, events)| ==> TakenAt(room, events)[i] < TakenAt(room, events)[j]
  {
    EveryEnvelopeIsAccountedFor(room, events);
    if events != [] {
      EveryEnvelopeIsAccountedFor(room, events[..|events| - 1]);
      TakenInArrivalOrder(room, events[..|events| - 1]);
    }
  }

  /** The first `n` events end with a push. */
  ghost predicate PushedAt<T>(events: seq<Event<T>>, n: nat) {
    0 < n <= |events| && events[n - 1].Arrive? && events[n - 1].verdict.Good?
  }

  /** No push within the first events saw more than `mark`, and some push saw it, or it is 0. */
  ghost predicate Greatest<T>(room: nat, events: seq<Event<T>>, mark: nat) {
    && (forall n: nat :: PushedAt(events, n) ==> |Run(room, events[..n]).queue| <= mark)
    && (mark == 0 || exists n: nat :: PushedAt(events, n) && |Run(room, events[..n]).queue| == mark)
  }

  lemma PushedBefore<T>(events: seq<Event<T>>, n: nat)
    requires n < |events|
    ensures events[..|events| - 1][..n] == events[..n]
    ensures PushedAt(events[..|events| - 1], n) <==> PushedAt(events, n)
  {
  }

  lemma GreatestGrows<T>(room: nat, events: seq<Event<T>>, mark: nat)
    requires events != [] && Greatest(room, events[..|events| - 1], mark)
    ensures Greatest(room, events, if PushedAt(events, |events|) then Max(mark, |Run(room, events).queue|) else mark)
  {
    hide Run;
    var before := events[..|events| - 1];
    var depth := if PushedAt(events, |events|) then |Run(room, events).queue| else 0;
    assert events[..|events|] == events;
    forall n: nat | PushedAt(events, n) ensures |Run(room, events[..n]).queue| <= Max(mark, depth) {
      if n < |events| {
        PushedBefore(events, n);
      }
    }
    if mark != 0 && mark >= depth {
      var n: nat :| PushedAt(before, n) && |Run(room, before[..n]).queue| == mark;
      PushedBefore(events, n);
      assert PushedAt(events, n);
    }
  }

  /** The watermark is the greatest depth seen after any push, and 0 when there was none. */
  lemma {:induction false} WatermarkIsGreatestDepth<T>(room: nat, events: seq<Event<T>>)
    ensures Greatest(room, events, Run(room, events).counters.watermark)
  {
    if events != [] {
      hide Greatest;
      var before := events[..|events| - 1];
      WatermarkIsGreatestDepth(room, before);
      GreatestGrows(room, events, Run(room, before).counters.watermark);
    }
  }

  lemma PushedDepth<T>(queue: seq<T>, envelope: T, room: nat)
    requires |queue| <= room
    ensures |Newest(queue + [envelope], room)| == if |queue| < room then |queue| + 1 else room
  {
  }

  // ----- the stage -----

  class Stage<T(0)> {
    const queue: Queue<T>
    var counters: Counters

    ghost predicate Valid()
      reads this, queue
    {
      queue.Valid() && queue.k >= 1 && counters.drops == queue.dropCount
    }

    constructor (k: nat)
      requires 1 <= k <= 63
      ensures Valid() && fresh(queue) && fresh(queue.buffer) && queue.k == k
      ensures counters == NO_COUNTS && queue.Contents() == []
    {
      queue := new Queue(k);
      counters := NO_COUNTS;
    }

    method OnPacket(verdict: Verdict<T>)
      requires Valid()
      modifies this, queue, queue.buffer
      ensures Valid()
      ensures State(queue.Contents(), counters, [])
           == Step(Pow2(queue.k) - 1, State(old(queue.Contents()), old(counters), []), Arrive(verdict))
    {
      hide Pow2, Queue.Contents, Newest;
      ghost var before := queue.Contents();
      counters := counters.(rxTotal := counters.rxTotal + 1);
      if verdict.Malformed? {
        return;
      }
      counters := counters.(parseOk := counters.parseOk + 1);
      if verdict.Invalid? {
        return;
      }
      counters := counters.(validateOk := counters.validateOk + 1);
      PushedDepth(before, verdict.envelope, Pow2(queue.k) - 1);
      var _ := queue.DropOldestPush(verdict.envelope);
      counters := counters.(enqueued := counters.enqueued + 1, drops := queue.dropCount);
      var depth := queue.Size();
      if depth > counters.watermark {
        counters := counters.(watermark := depth);
      }
    }
  }
}
