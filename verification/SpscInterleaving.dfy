/** The single-producer single-consumer ring under every interleaving of the loads, stores and slot accesses of
    one `try_push` thread and one `try_pop` thread. */
module SpscInterleaving {
  import opened Machine

  /** A slot in the middle of being written holds no value. */
  datatype Cell<T> = Torn | Val(value: T)

  datatype Producer<T> =
    | PIdle
    | PTailLoaded(item: T, tail: nat)
    | PHasRoom(item: T, tail: nat, next: nat)
    | PWriting(item: T, tail: nat, next: nat)
    | PWritten(item: T, tail: nat, next: nat)

  datatype Consumer<T> =
    | CIdle
    | CHeadLoaded(head: nat)
    | CHasItem(head: nat)
    | CReading(head: nat)
    | CTaken(head: nat, cell: Cell<T>)

  /** `pushed` and `popped` record what has been published and what has been taken, in order. */
  datatype State<T> = State(
    head: nat, tail: nat, buffer: seq<Cell<T>>, producer: Producer<T>, consumer: Consumer<T>,
    pushed: seq<T>, popped: seq<Cell<T>>)

  datatype Action<T> =
    | StartPush(item: T)
    | CheckRoom
    | BeginWrite
    | EndWrite
    | Publish
    | StartPop
    | CheckItem
    | BeginRead
    | EndRead
    | Retire

  predicate Enabled<T>(s: State<T>, a: Action<T>) {
    match a
    case StartPush(_) => s.producer.PIdle?
    case CheckRoom => s.producer.PTailLoaded?
    case BeginWrite => s.producer.PHasRoom? && s.producer.tail < |s.buffer|
    case EndWrite => s.producer.PWriting? && s.producer.tail < |s.buffer|
    case Publish => s.producer.PWritten?
    case StartPop => s.consumer.CIdle?
    case CheckItem => s.consumer.CHeadLoaded?
    case BeginRead => s.consumer.CHasItem?
    case EndRead => s.consumer.CReading? && s.consumer.head < |s.buffer|
    case Retire => s.consumer.CTaken?
  }

  /** `(index + 1) & mask_`, with the capacity 2^k. */
  function NextIndex(index: nat, k: nat): nat {
    BitAnd(index + 1, Pow2(k) - 1)
  }

  function Step<T>(k: nat, s: State<T>, a: Action<T>): State<T>
    requires Enabled(s, a)
  {
    match a
    case StartPush(item) => s.(producer := PTailLoaded(item, s.tail))
    case CheckRoom =>
      var next := NextIndex(s.producer.tail, k);
      s.(producer := if next == s.head then PIdle else PHasRoom(s.producer.item, s.producer.tail, next))
    case BeginWrite =>
      s.(buffer := s.buffer[s.producer.tail := Torn], producer := PWriting(s.producer.item, s.producer.tail, s.producer.next))
    case EndWrite =>
      s.(buffer := s.buffer[s.producer.tail := Val(s.producer.item)],
         producer := PWritten(s.producer.item, s.producer.tail, s.producer.next))
    case Publish => s.(tail := s.producer.next, pushed := s.pushed + [s.producer.item], producer := PIdle)
    case StartPop => s.(consumer := CHeadLoaded(s.head))
    case CheckItem => s.(consumer := if s.consumer.head == s.tail then CIdle else CHasItem(s.consumer.head))
    case BeginRead => s.(consumer := CReading(s.consumer.head))
    case EndRead => s.(consumer := CTaken(s.consumer.head, s.buffer[s.consumer.head]))
    case Retire =>
      s.(head := NextIndex(s.consumer.head, k), popped := s.popped + [s.consumer.cell], consumer := CIdle)
  }

  /** Any initial contents of the slots, even torn ones. */
  function Initial<T>(slots: seq<Cell<T>>): State<T> {
    State(0, 0, slots, PIdle, CIdle, [], [])
  }

  ghost predicate Run<T>(k: nat, slots: seq<Cell<T>>, actions: seq<Action<T>>, trace: seq<State<T>>) {
    && |slots| == Pow2(k)
    && |trace| == |actions| + 1
    && trace[0] == Initial(slots)
    && forall i :: 0 <= i < |actions| ==> Enabled(trace[i], actions[i]) && trace[i + 1] == Step(k, trace[i], actions[i])
  }

  // ----- ring arithmetic -----

  /** The slot of the `i`-th element ever pushed. */
  function Slot(i: nat, k: nat): (r: nat)
    ensures r < Pow2(k)
  {
    i % Pow2(k)
  }

  lemma NextSlot(i: nat, k: nat)
    ensures NextIndex(Slot(i, k), k) == Slot(i + 1, k)
  {
    hide Pow2;
    AndMaskIsMod(i % Pow2(k) + 1, k);
    NextRemainder(i, Pow2(k));
  }

  lemma NextRemainder(i: nat, cap: nat)
    requires cap > 0
    ensures (i % cap + 1) % cap == (i + 1) % cap
  {
    var q, r := i / cap, i % cap;
    assert i == cap * q + r;
    if r + 1 < cap {
      DivModUnique(i + 1, cap, q, r + 1);
      DivModUnique(r + 1, cap, 0, r + 1);
    } else {
      assert cap * (q + 1) == cap * q + cap;
      DivModUnique(i + 1, cap, q + 1, 0);
      DivModUnique(cap, cap, 1, 0);
    }
  }

  /** Elements less than a lap apart share a slot only if they are the same. */
  lemma SlotsDiffer(i: nat, j: nat, k: nat)
    requires i < j < i + Pow2(k)
    ensures Slot(i, k) != Slot(j, k)
  {
    var cap := Pow2(k);
    var qi, qj := i / cap, j / cap;
    MulDistributes(cap, qj, qi);
    MulAtLeast(cap, qj - qi);
    MulAtLeast(cap, qi - qj);
    assert j - i == cap * (qj - qi) + j % cap - i % cap;
  }

  lemma SlotsMeet(i: nat, k: nat)
    ensures Slot(i + Pow2(k), k) == Slot(i, k)
  {
    var cap := Pow2(k);
    assert i + cap == cap * (i / cap + 1) + i % cap by { assert cap * (i / cap + 1) == cap * (i / cap) + cap; }
    DivModUnique(i + cap, cap, i / cap + 1, i % cap);
  }

  // ----- the invariant -----

  ghost predicate Indices<T>(k: nat, s: State<T>) {
    && |s.buffer| == Pow2(k)
    && |s.popped| <= |s.pushed| < |s.popped| + Pow2(k)
    && s.head == Slot(|s.popped|, k) && s.tail == Slot(|s.pushed|, k)
  }

  /** The published, not yet taken elements sit in their slots. */
  ghost predicate Stored<T>(k: nat, s: State<T>) {
    |s.buffer| == Pow2(k) && forall i :: |s.popped| <= i < |s.pushed| ==> s.buffer[Slot(i, k)] == Val(s.pushed[i])
  }

  /** What was taken is what was published, in order. */
  ghost predicate Fifo<T>(s: State<T>) {
    |s.popped| <= |s.pushed| && forall i :: 0 <= i < |s.popped| ==> s.popped[i] == Val(s.pushed[i])
  }

  ghost predicate ProducerView<T>(k: nat, s: State<T>) {
    match s.producer
    case PIdle => true
    case PTailLoaded(_, tail) => tail == s.tail
    case PHasRoom(_, tail, next) => tail == s.tail && next == NextIndex(tail, k) && |s.pushed| + 1 < |s.popped| + Pow2(k)
    case PWriting(_, tail, next) => tail == s.tail && next == NextIndex(tail, k) && |s.pushed| + 1 < |s.popped| + Pow2(k)
    case PWritten(item, tail, next) =>
      && tail == s.tail && next == NextIndex(tail, k) && |s.pushed| + 1 < |s.popped| + Pow2(k)
      && tail < |s.buffer| && s.buffer[tail] == Val(item)
  }

  ghost predicate ConsumerView<T>(s: State<T>) {
    match s.consumer
    case CIdle => true
    case CHeadLoaded(head) => head == s.head
    case CHasItem(head) => head == s.head && |s.popped| < |s.pushed|
    case CReading(head) => head == s.head && |s.popped| < |s.pushed|
    case CTaken(head, cell) => head == s.head && |s.popped| < |s.pushed| && cell == Val(s.pushed[|s.popped|])
  }

  ghost predicate Inv<T>(k: nat, s: State<T>) {
    Indices(k, s) && Stored(k, s) && Fifo(s) && ProducerView(k, s) && ConsumerView(s)
  }

  lemma InitialInv<T>(k: nat, slots: seq<Cell<T>>)
    requires |slots| == Pow2(k)
    ensures Inv(k, Initial(slots))
  {
  }

  /** The full test is exact: the ring looks full exactly when one slot is left. */
  lemma FullTest<T>(k: nat, s: State<T>)
    requires Indices(k, s)
    ensures NextIndex(s.tail, k) == s.head <==> |s.pushed| + 1 == |s.popped| + Pow2(k)
  {
    NextSlot(|s.pushed|, k);
    if |s.pushed| + 1 < |s.popped| + Pow2(k) {
      SlotsDiffer(|s.popped|, |s.pushed| + 1, k);
    } else {
      SlotsMeet(|s.popped|, k);
    }
  }

  lemma EmptyTest<T>(k: nat, s: State<T>)
    requires Indices(k, s)
    ensures s.head == s.tail <==> |s.popped| == |s.pushed|
  {
    if |s.popped| < |s.pushed| {
      SlotsDiffer(|s.popped|, |s.pushed|, k);
    }
  }

  /** Writing the slot at the tail disturbs no stored element. */
  lemma WriteKeepsStored<T>(k: nat, s: State<T>, cell: Cell<T>)
    requires Indices(k, s) && Stored(k, s) && |s.pushed| + 1 < |s.popped| + Pow2(k)
    ensures Stored(k, s.(buffer := s.buffer[s.tail := cell]))
  {
    forall i | |s.popped| <= i < |s.pushed| ensures Slot(i, k) != s.tail {
      SlotsDiffer(i, |s.pushed|, k);
    }
  }

  lemma StepKeepsInv<T>(k: nat, s: State<T>, a: Action<T>)
    requires Inv(k, s) && Enabled(s, a)
    ensures Inv(k, Step(k, s, a))
  {
    hide Slot, NextIndex;
    match a
    case CheckRoom => FullTest(k, s);
    case BeginWrite => WriteKeepsStored(k, s, Torn);
    case EndWrite => WriteKeepsStored(k, s, Val(s.producer.item));
    case Publish => NextSlot(|s.pushed|, k);
    case CheckItem => EmptyTest(k, s);
    case Retire => NextSlot(|s.popped|, k);
    case _ =>
  }

  lemma {:induction false} RunKeepsInv<T>(k: nat, slots: seq<Cell<T>>, actions: seq<Action<T>>, trace: seq<State<T>>)
    requires Run(k, slots, actions, trace)
    ensures Inv(k, trace[|actions|])
  {
    if actions == [] {
      InitialInv(k, slots);
    } else {
      var m := |actions| - 1;
      RunKeepsInv(k, slots, actions[..m], trace[..m + 1]);
      StepKeepsInv(k, trace[m], actions[m]);
    }
  }

  /** What is still in the ring, read through the head. */
  function LiveSlice<T>(k: nat, s: State<T>, n: nat): seq<Cell<T>>
    requires |s.buffer| == Pow2(k)
  {
    seq(n, (i: nat) => s.buffer[Slot(|s.popped| + i, k)])
  }

  function Vals<T>(items: seq<T>): seq<Cell<T>> {
    seq(|items|, i requires 0 <= i < |items| => Val(items[i]))
  }

  /** In every state of every interleaving the popped values followed by the live slice are the pushed values:
      nothing lost, repeated, reordered or torn. */
  lemma FirstInFirstOut<T>(k: nat, slots: seq<Cell<T>>, actions: seq<Action<T>>, trace: seq<State<T>>)
    requires Run(k, slots, actions, trace)
    ensures var s := trace[|actions|];
      && |s.buffer| == Pow2(k) && |s.popped| <= |s.pushed| < |s.popped| + Pow2(k)
      && s.popped + LiveSlice(k, s, |s.pushed| - |s.popped|) == Vals(s.pushed)
  {
    RunKeepsInv(k, slots, actions, trace);
    var s := trace[|actions|];
    var joined := s.popped + LiveSlice(k, s, |s.pushed| - |s.popped|);
    forall i | 0 <= i < |s.pushed| ensures joined[i] == Vals(s.pushed)[i] {
    }
  }

  /** No slot is ever read while it is being written. */
  lemma ReaderAndWriterNeverMeet<T>(k: nat, slots: seq<Cell<T>>, actions: seq<Action<T>>, trace: seq<State<T>>)
    requires Run(k, slots, actions, trace)
    requires trace[|actions|].producer.PWriting? && trace[|actions|].consumer.CReading?
    ensures trace[|actions|].producer.tail != trace[|actions|].consumer.head
  {
    RunKeepsInv(k, slots, actions, trace);
    var s := trace[|actions|];
    SlotsDiffer(|s.popped|, |s.pushed|, k);
  }

  /** The index guards in `Enabled` block nobody: every slot access is within the buffer. */
  lemma AccessesAreInRange<T>(k: nat, slots: seq<Cell<T>>, actions: seq<Action<T>>, trace: seq<State<T>>)
    requires Run(k, slots, actions, trace)
    ensures var s := trace[|actions|];
      && (s.producer.PHasRoom? ==> Enabled(s, BeginWrite)) && (s.producer.PWriting? ==> Enabled(s, EndWrite))
      && (s.consumer.CReading? ==> Enabled(s, EndRead))
  {
    RunKeepsInv(k, slots, actions, trace);
  }
}
