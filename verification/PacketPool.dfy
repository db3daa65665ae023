/** The packet pool's lock-free free list under every interleaving of one allocating thread and any number
    of releasing threads, one atomic access at a time. */
module PacketPool {
  import opened Machine

  // ----- buffers and nodes -----

  /** The node a buffer address belongs to, as `deallocate` computes it. */
  function NodeIndex(poolBegin: nat, packetSize: nat, nodes: nat, addr: nat): Option<nat> {
    if addr < poolBegin || addr >= poolBegin + packetSize * nodes then None
    else if packetSize == 0 || (addr - poolBegin) % packetSize != 0 then None
    else
      var index := (addr - poolBegin) / packetSize;
      if index >= nodes then None else Some(index)
  }

  /** An address is taken for a node exactly when it is the start of that node's buffer. */
  lemma NodeIndexIffBufferStart(poolBegin: nat, packetSize: nat, nodes: nat, addr: nat, i: nat)
    requires packetSize > 0
    ensures NodeIndex(poolBegin, packetSize, nodes, addr) == Some(i) <==> i < nodes && addr == poolBegin + packetSize * i
  {
    if i < nodes && addr == poolBegin + packetSize * i {
      DivModUnique(addr - poolBegin, packetSize, i, 0);
      InsidePool(packetSize, nodes, i);
    }
    if addr >= poolBegin {
      DivisionExact(addr - poolBegin, packetSize);
    }
  }

  lemma InsidePool(packetSize: nat, nodes: nat, i: nat)
    requires i < nodes && packetSize > 0
    ensures packetSize * i < packetSize * nodes
  {
  }

  lemma DivisionExact(offset: nat, packetSize: nat)
    requires packetSize > 0
    ensures offset % packetSize == 0 ==> offset == packetSize * (offset / packetSize)
  {
  }

  // ----- the state machine -----

  /** Where the allocating thread is in `allocate`. */
  datatype Allocator =
    | Idle
    | Loaded(head: nat)
    | NextRead(head: nat, next: Option<nat>)
    | Popped(node: nat)

  /** Where a releasing thread is in `deallocate`. */
  datatype Releaser =
    | Entered(node: nat)
    | HeadLoaded(node: nat, head: Option<nat>)
    | NextWritten(node: nat, head: Option<nat>)
    | Pushed

  /** `live` are the buffers in the hands of users; `available` is the counter as a mathematical integer. */
  datatype State = State(
    next: seq<Option<nat>>, head: Option<nat>, allocator: Allocator, releasers: map<nat, Releaser>,
    live: set<nat>, available: int, fallbacks: nat)

  datatype Action =
    | LoadHead
    | ReadNext
    | Pop(spurious: bool)
    | CountPop
    | Enter(thread: nat, node: nat)
    | LoadForPush(thread: nat)
    | WriteNext(thread: nat)
    | Push(thread: nat, spurious: bool)
    | CountPush(thread: nat)

  predicate Enabled(s: State, a: Action) {
    match a
    case LoadHead => s.allocator.Idle?
    case ReadNext => s.allocator.Loaded? && s.allocator.head < |s.next|
    case Pop(_) => s.allocator.NextRead?
    case CountPop => s.allocator.Popped?
    case Enter(t, node) => t !in s.releasers && node in s.live
    case LoadForPush(t) => t in s.releasers && s.releasers[t].Entered?
    case WriteNext(t) => t in s.releasers && s.releasers[t].HeadLoaded? && s.releasers[t].node < |s.next|
    case Push(t, _) => t in s.releasers && s.releasers[t].NextWritten?
    case CountPush(t) => t in s.releasers && s.releasers[t].Pushed?
  }

  /** With a freshly loaded head: go on, or fall back to the heap when the list is empty. */
  function Retry(s: State): State {
    match s.head
    case None => s.(allocator := Idle, fallbacks := s.fallbacks + 1)
    case Some(h) => s.(allocator := Loaded(h))
  }

  function Step(s: State, a: Action): State
    requires Enabled(s, a)
  {
    match a
    case LoadHead => Retry(s)
    case ReadNext => s.(allocator := NextRead(s.allocator.head, s.next[s.allocator.head]))
    case Pop(spurious) =>
      if !spurious && s.head == Some(s.allocator.head)
      then s.(head := s.allocator.next, allocator := Popped(s.allocator.head))
      else Retry(s)
    case CountPop =>
      s.(available := s.available - 1, live := s.live + {s.allocator.node}, allocator := Idle)
    case Enter(t, node) => s.(live := s.live - {node}, releasers := s.releasers[t := Entered(node)])
    case LoadForPush(t) => s.(releasers := s.releasers[t := HeadLoaded(s.releasers[t].node, s.head)])
    case WriteNext(t) =>
      var r := s.releasers[t];
      s.(next := s.next[r.node := r.head], releasers := s.releasers[t := NextWritten(r.node, r.head)])
    case Push(t, spurious) =>
      var r := s.releasers[t];
      if !spurious && s.head == r.head
      then s.(head := Some(r.node), releasers := s.releasers[t := Pushed])
      else s.(releasers := s.releasers[t := HeadLoaded(r.node, s.head)])
    case CountPush(t) => s.(available := s.available + 1, releasers := s.releasers - {t})
  }

  /** The list the constructor builds: every node free, each linked to the one after it. */
  function Initial(n: nat): State {
    State(seq(n, i requires 0 <= i < n => if i + 1 < n then Some(i + 1) else None),
          if n == 0 then None else Some(0), Idle, map[], {}, n, 0)
  }

  /** A run: the states `trace` passes through under `actions`. */
  ghost predicate Run(n: nat, actions: seq<Action>, trace: seq<State>) {
    && |trace| == |actions| + 1
    && trace[0] == Initial(n)
    && forall i :: 0 <= i < |actions| ==> Enabled(trace[i], actions[i]) && trace[i + 1] == Step(trace[i], actions[i])
  }

  // ----- the invariant -----

  function Successor(free: seq<nat>, i: nat): Option<nat> {
    if i + 1 < |free| then Some(free[i + 1]) else None
  }

  /** `free` is the list that starts at `head`. */
  ghost predicate Chain(next: seq<Option<nat>>, head: Option<nat>, free: seq<nat>) {
    && (forall i :: 0 <= i < |free| ==> free[i] < |next|)
    && head == (if free == [] then None else Some(free[0]))
    && forall i :: 0 <= i < |free| ==> next[free[i]] == Successor(free, i)
  }

  ghost predicate NoRepeats(free: seq<nat>) {
    forall i, j :: 0 <= i < j < |free| ==> free[i] != free[j]
  }

  /** Thread `t` holds `x` on its way back into the list. */
  ghost predicate Releasing(s: State, t: nat, x: nat) {
    t in s.releasers && !s.releasers[t].Pushed? && s.releasers[t].node == x
  }

  /** Each node is in exactly one place: free, live, just popped, or in the hands of one releasing thread. */
  ghost predicate Partition(s: State, free: seq<nat>) {
    && (forall x :: x in free ==> x !in s.live && s.allocator != Popped(x) && forall t :: !Releasing(s, t, x))
    && (forall x :: x in s.live ==> x < |s.next| && s.allocator != Popped(x) && forall t :: !Releasing(s, t, x))
    && (forall t, x: nat :: Releasing(s, t, x) ==> x < |s.next| && s.allocator != Popped(x))
    && (forall t, t', x: nat :: Releasing(s, t, x) && Releasing(s, t', x) ==> t == t')
    && (s.allocator.Popped? ==> s.allocator.node < |s.next|)
    && (forall x :: 0 <= x < |s.next| ==> x in free || x in s.live || s.allocator == Popped(x) || exists t :: Releasing(s, t, x))
  }

  /** What the allocator has read is still true: only it removes nodes, and nobody writes a free node. */
  ghost predicate AllocatorView(s: State, free: seq<nat>) {
    match s.allocator
    case Loaded(h) => h in free
    case NextRead(h, nx) => h in free && h < |s.next| && s.next[h] == nx
    case _ => true
  }

  /** What a releaser has written is still there. */
  ghost predicate ReleaserView(s: State) {
    forall t :: t in s.releasers && s.releasers[t].NextWritten? ==>
      s.releasers[t].node < |s.next| && s.next[s.releasers[t].node] == s.releasers[t].head
  }

  ghost function PushedThreads(s: State): set<nat> {
    set t | t in s.releasers && s.releasers[t].Pushed?
  }

  /** The counter lags behind the list by the operations that have not counted themselves yet. */
  ghost predicate Counted(s: State, free: seq<nat>) {
    s.available == |free| + (if s.allocator.Popped? then 1 else 0) - |PushedThreads(s)|
  }

  ghost predicate Inv(s: State, free: seq<nat>) {
    Chain(s.next, s.head, free) && NoRepeats(free) && Partition(s, free) && AllocatorView(s, free) && ReleaserView(s) && Counted(s, free)
  }

  lemma ChainTail(next: seq<Option<nat>>, head: Option<nat>, free: seq<nat>)
    requires Chain(next, head, free) && NoRepeats(free) && free != []
    ensures Chain(next, next[free[0]], free[1..]) && NoRepeats(free[1..])
  {
  }

  lemma ChainCons(next: seq<Option<nat>>, head: Option<nat>, free: seq<nat>, node: nat)
    requires Chain(next, head, free) && NoRepeats(free) && node < |next| && next[node] == head && node !in free
    ensures Chain(next, Some(node), [node] + free) && NoRepeats([node] + free)
  {
  }

  lemma InitialInv(n: nat)
    ensures Inv(Initial(n), FirstNodes(n))
  {
    hide Chain;
    InitialChain(n);
    assert PushedThreads(Initial(n)) == {};
    forall x | 0 <= x < n ensures x in FirstNodes(n) {
      assert FirstNodes(n)[x] == x;
    }
    assert forall t, x: nat :: !Releasing(Initial(n), t, x);
  }

  function FirstNodes(n: nat): (r: seq<nat>)
    ensures |r| == n
  {
    seq(n, i requires 0 <= i < n => i)
  }

  lemma InitialChain(n: nat)
    ensures Chain(Initial(n).next, Initial(n).head, FirstNodes(n))
  {
  }

  /** Steps that leave the list alone and only move the allocator among its reading positions. */
  lemma RetryInv(s: State, free: seq<nat>)
    requires Inv(s, free) && !s.allocator.Popped?
    ensures Inv(Retry(s), free)
  {
    var s' := Retry(s);
    assert forall t, x: nat :: Releasing(s', t, x) <==> Releasing(s, t, x);
    assert PushedThreads(s') == PushedThreads(s);
    assert free != [] ==> free[0] in free;
  }

  lemma ReadNextInv(s: State, free: seq<nat>)
    requires Inv(s, free) && Enabled(s, ReadNext)
    ensures Inv(Step(s, ReadNext), free)
  {
    var s' := Step(s, ReadNext);
    assert forall t, x: nat :: Releasing(s', t, x) <==> Releasing(s, t, x);
    assert PushedThreads(s') == PushedThreads(s);
  }

  /** The pop is safe: the next pointer read before the CAS is the one the list has when the CAS succeeds. */
  lemma PopInv(s: State, free: seq<nat>)
    requires Inv(s, free) && s.allocator.NextRead? && s.head == Some(s.allocator.head)
    ensures |free| > 0 && free[0] == s.allocator.head && Inv(Step(s, Pop(false)), free[1..])
  {
    var s', rest, h := Step(s, Pop(false)), free[1..], s.allocator.head;
    assert free[0] == h;
    assert forall x :: x in free <==> x == h || x in rest;
    ChainTail(s.next, s.head, free);
    assert forall t, x: nat :: Releasing(s', t, x) <==> Releasing(s, t, x);
    assert PushedThreads(s') == PushedThreads(s);
  }

  lemma CountPopInv(s: State, free: seq<nat>)
    requires Inv(s, free) && Enabled(s, CountPop)
    ensures Inv(Step(s, CountPop), free)
  {
    var s' := Step(s, CountPop);
    assert forall t, x: nat :: Releasing(s', t, x) <==> Releasing(s, t, x);
    assert PushedThreads(s') == PushedThreads(s);
  }

  lemma EnterInv(s: State, free: seq<nat>, t: nat, node: nat)
    requires Inv(s, free) && Enabled(s, Enter(t, node))
    ensures Inv(Step(s, Enter(t, node)), free)
  {
    var s' := Step(s, Enter(t, node));
    assert forall u, x: nat :: Releasing(s', u, x) <==> Releasing(s, u, x) || (u == t && x == node);
    assert PushedThreads(s') == PushedThreads(s);
    forall x | 0 <= x < |s.next| ensures x in free || x in s'.live || s'.allocator == Popped(x) || exists u :: Releasing(s', u, x) {
      if x == node {
        assert Releasing(s', t, x);
      } else if exists u :: Releasing(s, u, x) {
        var u :| Releasing(s, u, x);
        assert Releasing(s', u, x);
      }
    }
  }

  /** A releaser moving on without losing its node. */
  lemma ReleaserMoves(s: State, free: seq<nat>, t: nat, r: Releaser)
    requires Inv(s, free) && t in s.releasers && !s.releasers[t].Pushed? && !r.Pushed? && r.node == s.releasers[t].node
    requires r.NextWritten? ==> r.node < |s.next| && s.next[r.node] == r.head
    ensures Inv(s.(releasers := s.releasers[t := r]), free)
  {
    var s' := s.(releasers := s.releasers[t := r]);
    assert forall u, x: nat :: Releasing(s', u, x) <==> Releasing(s, u, x);
    assert PushedThreads(s') == PushedThreads(s);
    forall x | 0 <= x < |s.next| ensures x in free || x in s'.live || s'.allocator == Popped(x) || exists u :: Releasing(s', u, x) {
      if exists u :: Releasing(s, u, x) {
        var u :| Releasing(s, u, x);
        assert Releasing(s', u, x);
      }
    }
  }

  /** Writing the next field of a node in a releaser's hands touches neither the list nor another releaser. */
  lemma WriteInv(s: State, free: seq<nat>, t: nat)
    requires Inv(s, free) && Enabled(s, WriteNext(t))
    ensures Inv(s.(next := s.next[s.releasers[t].node := s.releasers[t].head]), free)
  {
    var node := s.releasers[t].node;
    var s' := s.(next := s.next[node := s.releasers[t].head]);
    assert Releasing(s, t, node);
    assert node !in free;
    forall i | 0 <= i < |free| ensures s'.next[free[i]] == s.next[free[i]] {
      assert free[i] in free;
    }
    assert forall u, x: nat :: Releasing(s', u, x) <==> Releasing(s, u, x);
    forall u | u in s.releasers && s.releasers[u].NextWritten? ensures s.releasers[u].node != node {
      assert Releasing(s, u, s.releasers[u].node);
      assert u != t;
    }
    assert PushedThreads(s') == PushedThreads(s);
    forall x | 0 <= x < |s.next| ensures x in free || x in s'.live || s'.allocator == Popped(x) || exists u :: Releasing(s', u, x) {
      if exists u :: Releasing(s, u, x) {
        var u :| Releasing(s, u, x);
        assert Releasing(s', u, x);
      }
    }
  }

  lemma PushInv(s: State, free: seq<nat>, t: nat)
    requires Inv(s, free) && t in s.releasers && s.releasers[t].NextWritten? && s.head == s.releasers[t].head
    ensures Inv(Step(s, Push(t, false)), [s.releasers[t].node] + free)
  {
    var node := s.releasers[t].node;
    var s', grown := Step(s, Push(t, false)), [node] + free;
    assert Releasing(s, t, node);
    assert node !in free;
    assert forall u, x: nat :: Releasing(s', u, x) <==> Releasing(s, u, x) && u != t;
    assert forall x :: x in grown <==> x == node || x in free;
    assert PushedThreads(s') == PushedThreads(s) + {t};
    ChainCons(s.next, s.head, free, node);
    forall x | 0 <= x < |s.next| ensures x in grown || x in s'.live || s'.allocator == Popped(x) || exists u :: Releasing(s', u, x) {
      if x != node && exists u :: Releasing(s, u, x) {
        var u :| Releasing(s, u, x);
        assert Releasing(s', u, x);
      }
    }
  }

  lemma CountPushInv(s: State, free: seq<nat>, t: nat)
    requires Inv(s, free) && Enabled(s, CountPush(t))
    ensures Inv(Step(s, CountPush(t)), free)
  {
    var s' := Step(s, CountPush(t));
    assert forall u, x: nat :: Releasing(s', u, x) <==> Releasing(s, u, x);
    assert PushedThreads(s') == PushedThreads(s) - {t} && t in PushedThreads(s);
    forall x | 0 <= x < |s.next| ensures x in free || x in s'.live || s'.allocator == Popped(x) || exists u :: Releasing(s', u, x) {
      if exists u :: Releasing(s, u, x) {
        var u :| Releasing(s, u, x);
        assert Releasing(s', u, x);
      }
    }
  }

  /** Every single step, by whichever thread, keeps the invariant. */
  lemma StepKeepsInv(s: State, a: Action, free: seq<nat>) returns (free': seq<nat>)
    requires Inv(s, free) && Enabled(s, a)
    ensures Inv(Step(s, a), free')
  {
    free' := free;
    match a
    case LoadHead => RetryInv(s, free);
    case ReadNext => ReadNextInv(s, free);
    case Pop(spurious) =>
      if !spurious && s.head == Some(s.allocator.head) {
        PopInv(s, free);
        free' := free[1..];
      } else {
        RetryInv(s, free);
      }
    case CountPop => CountPopInv(s, free);
    case Enter(t, node) => EnterInv(s, free, t, node);
    case LoadForPush(t) => ReleaserMoves(s, free, t, HeadLoaded(s.releasers[t].node, s.head));
    case WriteNext(t) =>
      WriteInv(s, free, t);
      var written := s.(next := s.next[s.releasers[t].node := s.releasers[t].head]);
      ReleaserMoves(written, free, t, NextWritten(s.releasers[t].node, s.releasers[t].head));
    case Push(t, spurious) =>
      if !spurious && s.head == s.releasers[t].head {
        PushInv(s, free, t);
        free' := [s.releasers[t].node] + free;
      } else {
        ReleaserMoves(s, free, t, HeadLoaded(s.releasers[t].node, s.head));
      }
    case CountPush(t) => CountPushInv(s, free, t);
  }

  /** In every state of every interleaving there is an acyclic free list starting at the head, and the free,
      live, popped and returning nodes partition the pool. */
  lemma {:induction false} EveryInterleavingKeepsTheList(n: nat, actions: seq<Action>, trace: seq<State>) returns (free: seq<nat>)
    requires Run(n, actions, trace)
    ensures Inv(trace[|actions|], free) && |trace[|actions|].next| == n
  {
    if actions == [] {
      InitialInv(n);
      free := FirstNodes(n);
    } else {
      var m := |actions| - 1;
      var before := EveryInterleavingKeepsTheList(n, actions[..m], trace[..m + 1]);
      free := StepKeepsInv(trace[m], actions[m], before);
    }
  }

  /** A buffer that `allocate` returns is in nobody else's hands: not live, not on its way back, not free. */
  lemma AllocateNeverReturnsALiveBuffer(n: nat, actions: seq<Action>, trace: seq<State>)
    requires Run(n, actions, trace) && trace[|actions|].allocator.Popped?
    ensures var s := trace[|actions|]; var x := s.allocator.node;
      x < n && x !in s.live && (forall t :: !Releasing(s, t, x)) && s.head != Some(x)
  {
    var free := EveryInterleavingKeepsTheList(n, actions, trace);
    assert free != [] ==> free[0] in free;
  }

  /** The index guards in `Enabled` block nobody: every node access is within the pool. */
  lemma AccessesAreInRange(n: nat, actions: seq<Action>, trace: seq<State>)
    requires Run(n, actions, trace)
    ensures var s := trace[|actions|];
      && (s.allocator.Loaded? ==> Enabled(s, ReadNext))
      && forall t :: t in s.releasers && s.releasers[t].HeadLoaded? ==> Enabled(s, WriteNext(t))
  {
    var s := trace[|actions|];
    var free := EveryInterleavingKeepsTheList(n, actions, trace);
    hide Run;
    forall t | t in s.releasers && s.releasers[t].HeadLoaded? ensures s.releasers[t].node < |s.next| {
      assert Releasing(s, t, s.releasers[t].node);
    }
  }

  // ----- how exact the counter is -----

  /** The counter is short of the buffers that are not live by the releases under way, at whatever stage. */
  ghost predicate CounterLags(n: nat, s: State) {
    s.available == n - |s.live| - |s.releasers|
  }

  lemma ReplacedReleaser(m: map<nat, Releaser>, t: nat, r: Releaser)
    ensures |m[t := r]| == if t in m then |m| else |m| + 1
  {
    assert m[t := r].Keys == m.Keys + {t};
  }

  lemma RemovedReleaser(m: map<nat, Releaser>, t: nat)
    requires t in m
    ensures |m - {t}| == |m| - 1
  {
    assert (m - {t}).Keys == m.Keys - {t};
  }

  lemma StepKeepsLag(n: nat, s: State, a: Action, free: seq<nat>)
    requires Inv(s, free) && Enabled(s, a) && CounterLags(n, s)
    ensures CounterLags(n, Step(s, a))
  {
    match a
    case CountPop => assert s.allocator.node !in s.live;
    case Enter(t, node) => ReplacedReleaser(s.releasers, t, Entered(node));
    case LoadForPush(t) => ReplacedReleaser(s.releasers, t, HeadLoaded(s.releasers[t].node, s.head));
    case WriteNext(t) => ReplacedReleaser(s.releasers, t, NextWritten(s.releasers[t].node, s.releasers[t].head));
    case Push(t, spurious) =>
      ReplacedReleaser(s.releasers, t, Pushed);
      ReplacedReleaser(s.releasers, t, HeadLoaded(s.releasers[t].node, s.head));
    case CountPush(t) => RemovedReleaser(s.releasers, t);
    case _ =>
  }

  lemma {:induction false} CounterLagsByReleases(n: nat, actions: seq<Action>, trace: seq<State>)
    requires Run(n, actions, trace)
    ensures CounterLags(n, trace[|actions|])
  {
    if actions != [] {
      hide Inv, CounterLags, Step;
      var m := |actions| - 1;
      CounterLagsByReleases(n, actions[..m], trace[..m + 1]);
      var free := EveryInterleavingKeepsTheList(n, actions[..m], trace[..m + 1]);
      StepKeepsLag(n, trace[m], actions[m], free);
    }
  }

  /** In every interleaving the counter is the number of buffers that are not live if and only if no release is under
      way, whatever the allocating thread is doing; and it is below zero if and only if the live buffers and the
      releases under way together exceed the pool. */
  lemma CounterIsExactIff(n: nat, actions: seq<Action>, trace: seq<State>)
    requires Run(n, actions, trace)
    ensures var s := trace[|actions|]; s.available == n - |s.live| <==> s.releasers == map[]
    ensures var s := trace[|actions|]; s.available >= 0 <==> |s.live| + |s.releasers| <= n
  {
    CounterLagsByReleases(n, actions, trace);
  }

  /** Whether the actions can be taken one after the other, and where they lead. */
  function Execute(s: State, actions: seq<Action>): Option<State>
    decreases |actions|
  {
    if actions == [] then Some(s)
    else if Enabled(s, actions[0]) then Execute(Step(s, actions[0]), actions[1..])
    else None
  }

  lemma {:induction false} ExecuteIsARun(n: nat, done: seq<Action>, trace: seq<State>, actions: seq<Action>) returns (full: seq<State>)
    requires Run(n, done, trace) && Execute(trace[|done|], actions).Some?
    ensures Run(n, done + actions, full) && full[|done + actions|] == Execute(trace[|done|], actions).value
    decreases |actions|
  {
    if actions == [] {
      assert done + actions == done;
      full := trace;
    } else {
      var a := actions[0];
      var s' := Step(trace[|done|], a);
      assert Run(n, done + [a], trace + [s']);
      full := ExecuteIsARun(n, done + [a], trace + [s'], actions[1..]);
      assert done + [a] + actions[1..] == done + actions;
    }
  }

  const POP_AND_COUNT := [LoadHead, ReadNext, Pop(false), CountPop]

  lemma PopTheOnlyNode(s: State)
    requires s.next == [None] && s.head == Some(0) && s.allocator == Idle
    ensures Execute(s, POP_AND_COUNT) == Some(s.(head := None, live := s.live + {0}, available := s.available - 1))
  {
  }

  const PUSH_UNCOUNTED := [Enter(7, 0), LoadForPush(7), WriteNext(7), Push(7, false)]

  lemma PushTheOnlyNode(s: State)
    requires s.next == [None] && s.head == None && s.releasers == map[] && s.live == {0}
    ensures Execute(s, PUSH_UNCOUNTED) == Some(s.(head := Some(0), live := {}, releasers := map[7 := Pushed]))
  {
    var s1 := Step(s, Enter(7, 0));
    var s2 := Step(s1, LoadForPush(7));
    var s3 := Step(s2, WriteNext(7));
    var s4 := Step(s3, Push(7, false));
    assert s4.releasers == map[7 := Pushed] && s4.next == [None] && s4.live == {};
    assert Execute(s3, [Push(7, false)]) == Some(s4);
    assert [WriteNext(7), Push(7, false)][1..] == [Push(7, false)];
    assert [LoadForPush(7), WriteNext(7), Push(7, false)][1..] == [WriteNext(7), Push(7, false)];
    assert PUSH_UNCOUNTED[1..] == [LoadForPush(7), WriteNext(7), Push(7, false)];
    assert Execute(s2, [WriteNext(7), Push(7, false)]) == Execute(s3, [Push(7, false)]);
    assert Execute(s1, [LoadForPush(7), WriteNext(7), Push(7, false)]) == Execute(s2, [WriteNext(7), Push(7, false)]);
  }

  /** The counter is not exact in between: a pool of one buffer, pushed back and popped again before the
      releasing thread has counted its push, shows -1 (that is, 2^64 - 1 in the counter's own type). */
  lemma CounterCanDipBelowZero() returns (actions: seq<Action>, trace: seq<State>)
    ensures Run(1, actions, trace) && trace[|actions|].available == -1
  {
    var s0 := Initial(1);
    assert s0.next == [None];
    PopTheOnlyNode(s0);
    trace := ExecuteIsARun(1, [], [s0], POP_AND_COUNT);
    actions := [] + POP_AND_COUNT;
    PushTheOnlyNode(trace[|actions|]);
    trace := ExecuteIsARun(1, actions, trace, PUSH_UNCOUNTED);
    actions := actions + PUSH_UNCOUNTED;
    PopTheOnlyNode(trace[|actions|]);
    trace := ExecuteIsARun(1, actions, trace, POP_AND_COUNT);
    actions := actions + POP_AND_COUNT;
  }
}
