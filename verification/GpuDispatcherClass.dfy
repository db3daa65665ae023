/** The in-flight slot table and the dispatcher loop, updated in place. */
module GpuDispatcherClass {
  import opened Machine
  import opened SpscQueue
  import opened GpuDispatch

  class GpuPipeline<B(0), R(0)> {
    const inflight: array2<Slot<B, R>>
    const detect: B -> R

    ghost predicate Valid() {
      inflight.Length0 == STREAM_COUNT && inflight.Length1 == INFLIGHT_MAX
    }

    /** The slots of one stream. */
    ghost function Row(q: nat): (r: seq<Slot<B, R>>)
      requires Valid() && q < STREAM_COUNT
      reads inflight
      ensures |r| == INFLIGHT_MAX
    {
      [inflight[q, 0], inflight[q, 1]]
    }

    /** Every stream but `q` is as it was. */
    twostate predicate OthersKept(q: nat)
      requires Valid()
      reads inflight
    {
      forall p: nat :: p < STREAM_COUNT && p != q ==> Row(p) == old(Row(p))
    }

    constructor (detect: B -> R)
      ensures Valid() && fresh(inflight) && this.detect == detect
      ensures forall q: nat :: q < STREAM_COUNT ==> Row(q) == EmptyRow()
    {
      this.detect := detect;
      inflight := new Slot<B, R>[STREAM_COUNT, INFLIGHT_MAX]((_, _) => Cleared());
    }

    method FindFreeSlot(q: nat) returns (slot: Option<nat>)
      requires Valid() && q < STREAM_COUNT
      ensures slot == FreeSlot(Row(q), 0)
    {
      for s := 0 to INFLIGHT_MAX
        invariant FreeSlot(Row(q), 0) == FreeSlot(Row(q), s)
      {
        if !inflight[q, s].occupied {
          return Some(s);
        }
      }
      return None;
    }

    method InflightCount(q: nat) returns (count: nat)
      requires Valid() && q < STREAM_COUNT
      ensures count == Occupied(Row(q))
    {
      count := 0;
      for s := 0 to INFLIGHT_MAX
        invariant count == Occupied(Row(q)[..s])
      {
        assert Row(q)[..s + 1][..s] == Row(q)[..s];
        if inflight[q, s].occupied {
          count := count + 1;
        }
      }
      assert Row(q)[..INFLIGHT_MAX] == Row(q);
    }

    method PollCompletion(q: nat) returns (found: bool, result: Option<R>)
      requires Valid() && q < STREAM_COUNT
      modifies inflight
      ensures Row(q) == AfterPoll(old(Row(q))) && OthersKept(q)
      ensures found <==> FirstDone(old(Row(q)), 0).Some?
      ensures result == if found then old(Row(q))[FirstDone(old(Row(q)), 0).value].output else None
    {
      for s := 0 to INFLIGHT_MAX
        invariant Row(q) == old(Row(q)) && OthersKept(q)
        invariant FirstDone(Row(q), 0) == FirstDone(Row(q), s)
      {
        if inflight[q, s].occupied && inflight[q, s].completed {
          result := inflight[q, s].output;
          inflight[q, s] := Cleared();
          assert Row(q) == old(Row(q))[s := Cleared()];
          return true, result;
        }
      }
      return false, None;
    }

    method HandleTimeout(q: nat, now: int)
      requires Valid() && q < STREAM_COUNT
      modifies inflight
      ensures Row(q) == AfterTimeout(old(Row(q)), now) && OthersKept(q)
    {
      for s := 0 to INFLIGHT_MAX
        invariant OthersKept(q)
        invariant forall j :: 0 <= j < INFLIGHT_MAX ==>
          Row(q)[j] == if j < s then AfterTimeout(old(Row(q)), now)[j] else old(Row(q))[j]
      {
        assert Row(q)[s] == old(Row(q))[s];
        if inflight[q, s].occupied && ElapsedMs(now, inflight[q, s].submitTime) > GPU_MAX_MS {
          inflight[q, s] := Cleared();
        }
      }
    }

    method SubmitCpi(block: B, q: nat, later: int, alloc: bool) returns (ok: bool)
      requires Valid() && q < STREAM_COUNT
      modifies inflight
      ensures ok <==> alloc && FreeSlot(old(Row(q)), 0).Some?
      ensures ok ==> Row(q) == old(Row(q))[FreeSlot(old(Row(q)), 0).value := Slot(Some(block), Some(detect(block)), true, true, later)]
      ensures !ok ==> Row(q) == old(Row(q))
      ensures OthersKept(q)
    {
      var slot := FindFreeSlot(q);
      if slot.None? || !alloc {
        return false;
      }
      inflight[q, slot.value] := Slot(Some(block), Some(detect(block)), true, true, later);
      assert Row(q) == old(Row(q))[slot.value := Slot(Some(block), Some(detect(block)), true, true, later)];
      return true;
    }
  }

  /** The queue of raw blocks and the queue of results of one stream. */
  datatype Queues<B, R> = Queues(raw: seq<B>, plots: seq<R>)

  class GpuDispatcher<B(0), R(0)> {
    const pipeline: GpuPipeline<B, R>
    const queues: array<Queues<B, R>>
    const plotRoom: nat
    var rrIndex: nat
    var framesCompleted: nat
    var framesSubmitted: nat
    var timeoutTotal: nat

    ghost predicate Valid()
      reads this
    {
      pipeline.Valid() && queues.Length == STREAM_COUNT && rrIndex < STREAM_COUNT
    }

    constructor (pipeline: GpuPipeline<B, R>, plotRoom: nat)
      requires pipeline.Valid()
      ensures Valid() && this.pipeline == pipeline && this.plotRoom == plotRoom && fresh(queues)
      ensures rrIndex == framesCompleted == framesSubmitted == timeoutTotal == 0
      ensures forall q :: 0 <= q < STREAM_COUNT ==> queues[q] == Queues([], [])
    {
      this.pipeline := pipeline;
      this.plotRoom := plotRoom;
      queues := new Queues<B, R>[STREAM_COUNT](_ => Queues([], []));
      rrIndex, framesCompleted, framesSubmitted, timeoutTotal := 0, 0, 0, 0;
    }

    /** The first half of the inner loop: results out, timeouts counted. */
    method Collect(q: nat, now: int)
      requires Valid() && q < STREAM_COUNT
      modifies this`framesCompleted, this`timeoutTotal, queues, pipeline.inflight
      ensures pipeline.OthersKept(q)
      ensures forall p :: 0 <= p < STREAM_COUNT && p != q ==> queues[p] == old(queues[p])
      ensures var o := Collected(old(pipeline.Row(q)), old(queues[q].raw), now);
        && pipeline.Row(q) == o.row && queues[q].raw == o.queue
        && queues[q].plots == Delivered(old(queues[q].plots), o.emitted, plotRoom)
        && framesCompleted == old(framesCompleted) + (if o.emitted.Some? then 1 else 0)
        && timeoutTotal == old(timeoutTotal) + o.timedOut
    {
      hide AfterPoll, AfterTimeout, Occupied, FirstDone, Newest, GpuPipeline.Row;
      var found, result := pipeline.PollCompletion(q);
      if found && result.Some? {
        queues[q] := queues[q].(plots := Newest(queues[q].plots + [result.value], plotRoom));
        framesCompleted := framesCompleted + 1;
      }
      var before := pipeline.InflightCount(q);
      pipeline.HandleTimeout(q, now);
      var after := pipeline.InflightCount(q);
      if after < before {
        timeoutTotal := timeoutTotal + (before - after);
      }
    }

    /** One turn of the inner loop. */
    method VisitStream(q: nat, now: int, later: int, alloc: bool)
      requires Valid() && q < STREAM_COUNT
      modifies this`framesCompleted, this`framesSubmitted, this`timeoutTotal, queues, pipeline.inflight
      ensures pipeline.OthersKept(q)
      ensures forall p :: 0 <= p < STREAM_COUNT && p != q ==> queues[p] == old(queues[p])
      ensures var o := Visited(pipeline.detect, old(pipeline.Row(q)), old(queues[q].raw), now, later, alloc);
        && pipeline.Row(q) == o.row && queues[q].raw == o.queue
        && queues[q].plots == Delivered(old(queues[q].plots), o.emitted, plotRoom)
        && framesCompleted == old(framesCompleted) + (if o.emitted.Some? then 1 else 0)
        && framesSubmitted == old(framesSubmitted) + (if o.submitted then 1 else 0)
        && timeoutTotal == old(timeoutTotal) + o.timedOut
    {
      hide AfterPoll, AfterTimeout, Delivered, Occupied, FreeSlot, FirstDone, GpuPipeline.Row;
      Collect(q, now);
      var inflight := pipeline.InflightCount(q);
      if inflight >= INFLIGHT_MAX || queues[q].raw == [] {
        return;
      }
      var block := queues[q].raw[0];
      queues[q] := queues[q].(raw := queues[q].raw[1..]);
      var ok := pipeline.SubmitCpi(block, q, later, alloc);
      if ok {
        framesSubmitted := framesSubmitted + 1;
      }
    }

    /** Every stream's slots are ready for a visit. */
    ghost predicate AllReady()
      requires Valid()
      reads this, pipeline.inflight
    {
      forall q: nat :: q < STREAM_COUNT ==> Ready(pipeline.Row(q))
    }

    /** One turn of the outer loop: every stream is visited once, starting at `rrIndex`, with the inputs of its
        turn; where the slots were ready they are ready again, and nothing was counted as timed out. */
    method RunRound(inputs: seq<(int, int, bool)>)
      requires Valid() && |inputs| == STREAM_COUNT
      modifies this, queues, pipeline.inflight
      ensures Valid() && rrIndex == (old(rrIndex) + 1) % STREAM_COUNT
      ensures old(AllReady()) ==> AllReady() && timeoutTotal == old(timeoutTotal)
      ensures forall i: nat :: i < STREAM_COUNT ==> VisitedOnce(Target(old(rrIndex), i), inputs[i])
      ensures framesCompleted == old(framesCompleted) + CompletedIn(pipeline.detect, old(Lanes()), old(rrIndex), inputs, STREAM_COUNT)
      ensures framesSubmitted == old(framesSubmitted) + SubmittedIn(pipeline.detect, old(Lanes()), old(rrIndex), inputs, STREAM_COUNT)
    {
      hide Visited, Ready, Target, Delivered, GpuPipeline.Row, Lanes;
      for i := 0 to STREAM_COUNT
        invariant Valid() && rrIndex == old(rrIndex)
        invariant old(AllReady()) ==> AllReady() && timeoutTotal == old(timeoutTotal)
        invariant forall j: nat :: j < i ==> VisitedOnce(Target(rrIndex, j), inputs[j])
        invariant framesCompleted == old(framesCompleted) + CompletedIn(pipeline.detect, old(Lanes()), rrIndex, inputs, i)
        invariant framesSubmitted == old(framesSubmitted) + SubmittedIn(pipeline.detect, old(Lanes()), rrIndex, inputs, i)
        invariant forall j: nat :: i <= j < STREAM_COUNT ==> Untouched(Target(rrIndex, j))
      {
        var q := Target(rrIndex, i);
        TargetsDiffer(rrIndex, i);
        if old(AllReady()) {
          VisitOfReady(pipeline.detect, pipeline.Row(q), queues[q].raw, inputs[i].0, inputs[i].1, inputs[i].2);
        }
        VisitStream(q, inputs[i].0, inputs[i].1, inputs[i].2);
      }
      rrIndex := (rrIndex + 1) % STREAM_COUNT;
    }

    /** The slots and the queue of every stream. */
    ghost function Lanes(): (r: seq<(seq<Slot<B, R>>, seq<B>)>)
      requires Valid()
      reads this, queues, pipeline.inflight
      ensures |r| == STREAM_COUNT
      ensures forall q: nat :: q < STREAM_COUNT ==> r[q] == (pipeline.Row(q), queues[q].raw)
    {
      [(pipeline.Row(0), queues[0].raw), (pipeline.Row(1), queues[1].raw), (pipeline.Row(2), queues[2].raw)]
    }

    twostate predicate Untouched(q: nat)
      requires Valid() && old(Valid()) && q < STREAM_COUNT
      reads this, queues, pipeline.inflight
    {
      queues[q] == old(queues[q]) && pipeline.Row(q) == old(pipeline.Row(q))
    }

    twostate predicate VisitedOnce(q: nat, input: (int, int, bool))
      requires Valid() && old(Valid()) && q < STREAM_COUNT
      reads this, queues, pipeline.inflight
    {
      var o := Visited(pipeline.detect, old(pipeline.Row(q)), old(queues[q].raw), input.0, input.1, input.2);
      && pipeline.Row(q) == o.row
      && queues[q] == Queues(o.queue, Delivered(old(queues[q].plots), o.emitted, plotRoom))
    }
  }

  /** The streams of one round are all different. */
  lemma TargetsDiffer(rr: nat, i: nat)
    requires rr < STREAM_COUNT && i < STREAM_COUNT
    ensures forall j: nat :: j < STREAM_COUNT && j != i ==> Target(rr, j) != Target(rr, i)
  {
  }
}
