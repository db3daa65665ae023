/** The pool and its move-only buffer handles, operation by operation. */
module PacketBuffers {
  import opened Machine
  import opened PacketPool

  // ----- the pool -----

  /** A buffer of the pool, one from the heap when the pool is empty, or a null pointer when the heap is too. */
  datatype Allocation = FromPool(addr: nat) | FromHeap | NoMemory

  class Pool {
    const poolBegin: nat
    const packetSize: nat
    const next: array<Option<nat>>
    var head: Option<nat>
    var available: nat
    var inUse: int
    var allocCount: nat
    var deallocCount: nat
    var fallbackAlloc: nat
    ghost var free: seq<nat>

    /** The list reachable from `head` is `free`, without repetition, and the counters agree with it. */
    ghost predicate Valid()
      reads this, next
    {
      && (packetSize > 0 || next.Length == 0) && Chain(next[..], head, free) && NoRepeats(free)
      && available == |free| && inUse + available == next.Length
    }

    /** The free list is threaded through the nodes in order; there are none when the size is zero or the storage
        could not be had. */
    constructor (poolBegin: nat, packetSize: nat, poolSize: nat, storage: bool)
      ensures Valid() && fresh(next) && this.poolBegin == poolBegin && this.packetSize == packetSize
      ensures next.Length == if packetSize == 0 || !storage then 0 else poolSize
      ensures free == seq(next.Length, i requires 0 <= i < next.Length => i)
      ensures allocCount == deallocCount == fallbackAlloc == 0
    {
      this.poolBegin, this.packetSize := poolBegin, packetSize;
      var count := if packetSize == 0 || !storage then 0 else poolSize;
      var nodes := new Option<nat>[count](_ => None);
      for i := 0 to count
        invariant forall j :: 0 <= j < i ==> nodes[j] == if j + 1 < count then Some(j + 1) else None
      {
        nodes[i] := if i + 1 < count then Some(i + 1) else None;
      }
      next := nodes;
      head := if count == 0 then None else Some(0);
      available, inUse := count, 0;
      allocCount, deallocCount, fallbackAlloc := 0, 0, 0;
      free := seq(count, i requires 0 <= i < count => i);
    }

    function BufferStart(i: nat): nat {
      StartOf(poolBegin, packetSize, i)
    }

    /** The first free buffer, or one from the heap; `heap` says whether it has memory left. */
    method Allocate(heap: bool) returns (r: Allocation)
      requires Valid()
      modifies this
      ensures Valid() && allocCount == old(allocCount) + 1 && deallocCount == old(deallocCount)
      ensures old(free) == [] ==> r == (if heap then FromHeap else NoMemory) && free == [] && fallbackAlloc == old(fallbackAlloc) + 1
      ensures old(free) != [] ==> fallbackAlloc == old(fallbackAlloc) && free == old(free)[1..]
      ensures old(free) != [] ==> r == FromPool(BufferStart(old(free)[0]))
    {
      hide Chain, NoRepeats;
      ChainHead(next[..], head, free);
      allocCount := allocCount + 1;
      if head.None? {
        fallbackAlloc := fallbackAlloc + 1;
        return if heap then FromHeap else NoMemory;
      }
      var node := head.value;
      ChainTail(next[..], head, free);
      head := next[node];
      free := free[1..];
      available, inUse := available - 1, inUse + 1;
      return FromPool(BufferStart(node));
    }

    /** A buffer of the pool goes to the front of the list, any other address leaves the list alone; the list survives
        if and only if the buffer was not in it already. */
    method Deallocate(addr: nat)
      requires Valid()
      modifies this, next
      ensures deallocCount == old(deallocCount) + 1 && allocCount == old(allocCount) && fallbackAlloc == old(fallbackAlloc)
      ensures (forall i: nat :: i < next.Length ==> addr != BufferStart(i)) ==> Valid() && free == old(free)
      ensures forall i: nat :: i < next.Length && addr == BufferStart(i) ==>
        && next[..] == old(next[..])[i := old(head)] && head == Some(i)
        && available == old(available) + 1 && inUse == old(inUse) - 1
        && (Valid() <==> i !in old(free)) && (Valid() ==> free == [i] + old(free))
    {
      hide Chain, NoRepeats, NodeIndex;
      deallocCount := deallocCount + 1;
      var found := NodeIndex(poolBegin, packetSize, next.Length, addr);
      FoundIffStart(poolBegin, packetSize, next.Length, addr);
      assert found.Some? ==> addr == BufferStart(found.value);
      if found.None? {
        return;
      }
      var node := found.value;
      ghost var before := next[..];
      ReleaseKeepsListIff(before, head, free, node);
      next[node] := head;
      head := Some(node);
      free := [node] + free;
      available, inUse := available + 1, inUse - 1;
      assert next[..] == before[node := old(head)];
    }
  }

  /** The node a walk comes to next. */
  lemma WalkNext(next: seq<Option<nat>>, head: Option<nat>, walk: seq<nat>, i: nat)
    requires Chain(next, head, walk) && i + 1 < |walk|
    ensures walk[i] < |next| && next[walk[i]] == Some(walk[i + 1])
  {
    assert next[walk[i]] == Successor(walk, i);
  }

  lemma WalkFirst(next: seq<Option<nat>>, head: Option<nat>, walk: seq<nat>)
    requires Chain(next, head, walk) && walk != []
    ensures head == Some(walk[0])
  {
  }

  /** A walk from a released node that was free already only meets nodes up to that node. */
  lemma {:induction false} WalkStaysInCycle(next: seq<Option<nat>>, head: Option<nat>, free: seq<nat>, node: nat, p: nat, walk: seq<nat>, i: nat)
    requires Chain(next, head, free) && NoRepeats(free) && p < |free| && free[p] == node && node < |next|
    requires Chain(next[node := head], Some(node), walk) && i < |walk|
    ensures exists j :: 0 <= j <= p && walk[i] == free[j]
  {
    hide Chain;
    WalkFirst(next[node := head], Some(node), walk);
    if i > 0 {
      WalkStaysInCycle(next, head, free, node, p, walk, i - 1);
      var j :| 0 <= j <= p && walk[i - 1] == free[j];
      WalkNext(next[node := head], Some(node), walk, i - 1);
      WalkFirst(next, head, free);
      if j == p {
        assert walk[i] == free[0];
      } else {
        WalkNext(next, head, free, j);
        assert free[j] != node && walk[i] == free[j + 1];
      }
    } else {
      assert walk[0] == free[p];
    }
  }

  /** Some sequence of nodes is the list that starts at `head`. */
  ghost predicate IsList(next: seq<Option<nat>>, head: Option<nat>) {
    exists free :: Chain(next, head, free)
  }

  /** Putting a node in front of the free list gives a list if and only if the node was not in it. */
  lemma ReleaseKeepsListIff(next: seq<Option<nat>>, head: Option<nat>, free: seq<nat>, node: nat)
    requires Chain(next, head, free) && NoRepeats(free) && node < |next|
    ensures node !in free ==> Chain(next[node := head], Some(node), [node] + free) && NoRepeats([node] + free)
    ensures node in free ==> !IsList(next[node := head], Some(node))
  {
    if node !in free {
      ChainKept(next, next[node := head], head, free, node);
      ChainCons(next[node := head], head, free, node);
    } else {
      var p :| 0 <= p < |free| && free[p] == node;
      if IsList(next[node := head], Some(node)) {
        var walk :| Chain(next[node := head], Some(node), walk);
        CycleHasNoEnd(next, head, free, node, p, walk);
      }
    }
  }

  lemma CycleHasNoEnd(next: seq<Option<nat>>, head: Option<nat>, free: seq<nat>, node: nat, p: nat, walk: seq<nat>)
    requires Chain(next, head, free) && NoRepeats(free) && p < |free| && free[p] == node && node < |next|
    ensures !Chain(next[node := head], Some(node), walk)
  {
    if Chain(next[node := head], Some(node), walk) {
      WalkStaysInCycle(next, head, free, node, p, walk, |walk| - 1);
    }
  }

  function StartOf(poolBegin: nat, packetSize: nat, i: nat): nat {
    poolBegin + packetSize * i
  }

  lemma FoundIffStart(poolBegin: nat, packetSize: nat, nodes: nat, addr: nat)
    requires packetSize > 0 || nodes == 0
    ensures var found := NodeIndex(poolBegin, packetSize, nodes, addr);
      && (found.Some? ==> found.value < nodes && addr == StartOf(poolBegin, packetSize, found.value))
      && forall i: nat :: i < nodes && addr == StartOf(poolBegin, packetSize, i) ==> found == Some(i)
  {
    var found := NodeIndex(poolBegin, packetSize, nodes, addr);
    if found.Some? {
      NodeIndexIffBufferStart(poolBegin, packetSize, nodes, addr, found.value);
    }
    forall i: nat | i < nodes && addr == StartOf(poolBegin, packetSize, i) ensures found == Some(i) {
      NodeIndexIffBufferStart(poolBegin, packetSize, nodes, addr, i);
    }
  }

  lemma ChainHead(next: seq<Option<nat>>, head: Option<nat>, free: seq<nat>)
    requires Chain(next, head, free)
    ensures head.None? <==> free == []
    ensures head.Some? ==> head.value == free[0] < |next|
  {
  }

  lemma ChainKept(before: seq<Option<nat>>, after: seq<Option<nat>>, head: Option<nat>, free: seq<nat>, node: nat)
    requires Chain(before, head, free) && node !in free && node < |before| && after == before[node := head]
    ensures Chain(after, head, free)
  {
  }

  // ----- the handles -----

  /** A variable of the handle type; `owned` says that it has a pool to give the buffer back to. */
  datatype Handle = Dead | Alive(buffer: Option<nat>, owned: bool)

  /** `returned` are the buffers given back to the pool, `abandoned` those dropped without a pool to take them, and
      `released` the handles whose buffers the caller took out, as they were. */
  datatype Handles = Handles(handles: seq<Handle>, returned: seq<nat>, abandoned: seq<nat>, released: seq<Handle>)

  datatype Op =
    | Construct(i: nat, buffer: Option<nat>, owned: bool)
    | MoveConstruct(i: nat, j: nat)
    | MoveAssign(i: nat, j: nat)
    | Release(i: nat)
    | Destroy(i: nat)

  const MOVED_FROM := Alive(None, false)

  predicate IsAlive(s: Handles, i: nat) {
    i < |s.handles| && s.handles[i].Alive?
  }

  predicate IsDead(s: Handles, i: nat) {
    i < |s.handles| && s.handles[i].Dead?
  }

  /** Letting go of what a handle holds, as the destructor and the assignment do. */
  function DropHeld(s: Handles, i: nat): Handles
    requires IsAlive(s, i)
  {
    var h := s.handles[i];
    if h.buffer.None? then s
    else if h.owned then s.(returned := s.returned + [h.buffer.value])
    else s.(abandoned := s.abandoned + [h.buffer.value])
  }

  function Step(s: Handles, op: Op): (r: Handles)
    ensures |r.handles| == |s.handles|
  {
    match op
    case Construct(i, buffer, owned) => if IsDead(s, i) then s.(handles := s.handles[i := Alive(buffer, owned)]) else s
    case MoveConstruct(i, j) =>
      if IsDead(s, i) && IsAlive(s, j) then s.(handles := s.handles[i := s.handles[j]][j := MOVED_FROM]) else s
    case MoveAssign(i, j) =>
      if IsAlive(s, i) && IsAlive(s, j) && i != j then
        DropHeld(s, i).(handles := s.handles[i := s.handles[j]][j := MOVED_FROM])
      else s
    case Release(i) =>
      if IsAlive(s, i) && s.handles[i].buffer.Some? then
        s.(handles := s.handles[i := s.handles[i].(buffer := None)], released := s.released + [s.handles[i]])
      else s
    case Destroy(i) => if IsAlive(s, i) then DropHeld(s, i).(handles := s.handles[i := Dead]) else s
  }

  function Run(n: nat, ops: seq<Op>): (r: Handles)
    ensures |r.handles| == n
  {
    if ops == [] then Handles(seq(n, _ => Dead), [], [], []) else Step(Run(n, ops[..|ops| - 1]), ops[|ops| - 1])
  }

  /** The handles constructed so far, as they were. */
  function Made(n: nat, ops: seq<Op>): seq<Handle> {
    if ops == [] then []
    else
      var before, op := ops[..|ops| - 1], ops[|ops| - 1];
      Made(n, before) + if op.Construct? && IsDead(Run(n, before), op.i) then [Alive(op.buffer, op.owned)] else []
  }

  function Holds(h: Handle, owned: bool, b: nat): nat {
    if h == Alive(Some(b), owned) then 1 else 0
  }

  /** How many of the handles hold buffer `b` with a pool, or without one. */
  function Held(handles: seq<Handle>, owned: bool, b: nat): nat {
    if handles == [] then 0 else Held(handles[..|handles| - 1], owned, b) + Holds(handles[|handles| - 1], owned, b)
  }

  function Times(log: seq<nat>, b: nat): nat {
    multiset(log)[b]
  }

  lemma TimesAppend(log: seq<nat>, x: nat, b: nat)
    ensures Times(log + [x], b) == Times(log, b) + if x == b then 1 else 0
  {
  }

  lemma HeldAppend(handles: seq<Handle>, h: Handle, owned: bool, b: nat)
    ensures Held(handles + [h], owned, b) == Held(handles, owned, b) + Holds(h, owned, b)
  {
    assert (handles + [h])[..|handles|] == handles;
  }

  lemma {:induction false} HeldUpdate(handles: seq<Handle>, i: nat, h: Handle, owned: bool, b: nat)
    requires i < |handles|
    ensures Held(handles[i := h], owned, b) + Holds(handles[i], owned, b) == Held(handles, owned, b) + Holds(h, owned, b)
  {
    hide Holds;
    var m := |handles| - 1;
    if i == m {
      assert handles[i := h][..m] == handles[..m];
    } else {
      assert handles[i := h][..m] == handles[..m][i := h];
      HeldUpdate(handles[..m], i, h, owned, b);
    }
  }

  /** The places where buffer `b` can be, put in with a pool or without one. */
  function Places(s: Handles, owned: bool, b: nat): nat {
    Held(s.handles, owned, b) + Held(s.released, owned, b) + Times(if owned then s.returned else s.abandoned, b)
  }

  /** Letting go of a handle moves its buffer to the pool if it has one, and nowhere else. */
  lemma DropConserves(s: Handles, i: nat, owned: bool, b: nat)
    requires IsAlive(s, i)
    ensures var s' := DropHeld(s, i);
      && s'.handles == s.handles && s'.released == s.released
      && Times(if owned then s'.returned else s'.abandoned, b)
         == Times(if owned then s.returned else s.abandoned, b) + Holds(s.handles[i], owned, b)
  {
  }

  lemma MoveConserves(handles: seq<Handle>, i: nat, j: nat, owned: bool, b: nat)
    requires i < |handles| && j < |handles| && i != j
    ensures Held(handles[i := handles[j]][j := MOVED_FROM], owned, b) + Holds(handles[i], owned, b) == Held(handles, owned, b)
  {
    hide Held;
    HeldUpdate(handles, i, handles[j], owned, b);
    HeldUpdate(handles[i := handles[j]], j, MOVED_FROM, owned, b);
  }

  lemma StepConserves(s: Handles, op: Op, owned: bool, b: nat)
    ensures Places(Step(s, op), owned, b)
         == Places(s, owned, b) + if op.Construct? && IsDead(s, op.i) then Holds(Alive(op.buffer, op.owned), owned, b) else 0
  {
    hide Held, Times, DropHeld;
    match op
    case Construct(i, buffer, own) =>
      if IsDead(s, i) { HeldUpdate(s.handles, i, Alive(buffer, own), owned, b); }
    case MoveConstruct(i, j) =>
      if IsDead(s, i) && IsAlive(s, j) { MoveConserves(s.handles, i, j, owned, b); }
    case MoveAssign(i, j) =>
      if IsAlive(s, i) && IsAlive(s, j) && i != j {
        MoveConserves(s.handles, i, j, owned, b);
        DropConserves(s, i, owned, b);
      }
    case Release(i) =>
      if IsAlive(s, i) && s.handles[i].buffer.Some? {
        HeldUpdate(s.handles, i, s.handles[i].(buffer := None), owned, b);
        HeldAppend(s.released, s.handles[i], owned, b);
      }
    case Destroy(i) =>
      if IsAlive(s, i) {
        HeldUpdate(s.handles, i, Dead, owned, b);
        DropConserves(s, i, owned, b);
      }
  }

  lemma {:induction false} NothingHeldByTheDead(handles: seq<Handle>, owned: bool, b: nat)
    requires forall i :: 0 <= i < |handles| ==> handles[i].Dead?
    ensures Held(handles, owned, b) == 0
  {
    if handles != [] {
      NothingHeldByTheDead(handles[..|handles| - 1], owned, b);
    }
  }

  /** Conservation, for the buffers put in with a pool and for those put in without one: whatever is moved, released or
      destroyed, each is in handles, taken out, or, with a pool, back in the pool, exactly as often as it was put in. */
  lemma {:induction false} BuffersAreConserved(n: nat, ops: seq<Op>, owned: bool, b: nat)
    ensures Places(Run(n, ops), owned, b) == Held(Made(n, ops), owned, b)
  {
    if ops == [] {
      NothingHeldByTheDead(seq(n, _ => Dead), owned, b);
    } else {
      hide Step, Held, Places;
      var before, op := ops[..|ops| - 1], ops[|ops| - 1];
      BuffersAreConserved(n, before, owned, b);
      StepConserves(Run(n, before), op, owned, b);
      if op.Construct? && IsDead(Run(n, before), op.i) {
        HeldAppend(Made(n, before), Alive(op.buffer, op.owned), owned, b);
      } else {
        assert Made(n, ops) == Made(n, before);
      }
    }
  }

  function Releases(ops: seq<Op>): nat {
    if ops == [] then 0 else Releases(ops[..|ops| - 1]) + if ops[|ops| - 1].Release? then 1 else 0
  }

  /** Only `Release` takes buffers out, one at a time. */
  lemma {:induction false} OnlyReleaseTakesOut(n: nat, ops: seq<Op>)
    ensures |Run(n, ops).released| <= Releases(ops)
  {
    if ops != [] {
      OnlyReleaseTakesOut(n, ops[..|ops| - 1]);
    }
  }

  /** When every handle is gone and nothing was taken out, each buffer put in with a pool is back in the pool exactly as
      often as it was put in, and one is lost only if it was put in without a pool. */
  lemma EverythingComesBack(n: nat, ops: seq<Op>, b: nat)
    requires Releases(ops) == 0 && forall i: nat :: i < n ==> IsDead(Run(n, ops), i)
    ensures Times(Run(n, ops).returned, b) == Held(Made(n, ops), true, b)
    ensures Times(Run(n, ops).abandoned, b) == Held(Made(n, ops), false, b)
  {
    hide Held, Run, Made;
    OnlyReleaseTakesOut(n, ops);
    assert Run(n, ops).released == [];
    forall i: nat | i < n ensures Run(n, ops).handles[i].Dead? {
      assert IsDead(Run(n, ops), i);
    }
    BuffersAreConserved(n, ops, true, b);
    BuffersAreConserved(n, ops, false, b);
    NothingHeldByTheDead(Run(n, ops).handles, true, b);
    NothingHeldByTheDead(Run(n, ops).handles, false, b);
    NothingHeldByTheDead([], true, b);
    NothingHeldByTheDead([], false, b);
  }

  /** Where every handle is given a pool and nothing is taken out, no buffer is ever lost. */
  lemma NothingIsLost(n: nat, ops: seq<Op>)
    requires Releases(ops) == 0 && forall i :: 0 <= i < |ops| && ops[i].Construct? ==> ops[i].owned
    ensures Run(n, ops).released == [] && Run(n, ops).abandoned == []
  {
    hide Held, Run, Made;
    OnlyReleaseTakesOut(n, ops);
    if Run(n, ops).abandoned != [] {
      var b := Run(n, ops).abandoned[0];
      assert Times(Run(n, ops).abandoned, b) > 0;
      BuffersAreConserved(n, ops, false, b);
      NoneMadeWithout(n, ops, b);
    }
  }

  lemma {:induction false} NoneMadeWithout(n: nat, ops: seq<Op>, b: nat)
    requires forall i :: 0 <= i < |ops| && ops[i].Construct? ==> ops[i].owned
    ensures Held(Made(n, ops), false, b) == 0
  {
    if ops != [] {
      hide Run, Held;
      var before, op := ops[..|ops| - 1], ops[|ops| - 1];
      NoneMadeWithout(n, before, b);
      if op.Construct? && IsDead(Run(n, before), op.i) {
        HeldAppend(Made(n, before), Alive(op.buffer, op.owned), false, b);
      } else {
        assert Made(n, ops) == Made(n, before);
      }
    }
  }

  /** A buffer put in once is given back at most once, and not while a handle still holds it. */
  lemma GivenBackAtMostOnce(n: nat, ops: seq<Op>, b: nat)
    requires Held(Made(n, ops), true, b) <= 1
    ensures Times(Run(n, ops).returned, b) + Held(Run(n, ops).handles, true, b) <= 1
  {
    BuffersAreConserved(n, ops, true, b);
  }
}
