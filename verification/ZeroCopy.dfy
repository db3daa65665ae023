/** The zero-copy path refines the copying path, and gives every pool buffer back exactly once.
    Other threads may overwrite every buffer that no context owns, between two calls and during a sweep. */
module ZeroCopy {
  import opened Machine
  import opened Protocol
  import opened ReassemblyModel
  import opened Assembly
  import opened ReassemblyRuns

  // ----- ownership -----

  predicate Owns(r: FragmentRef, buffer: nat) {
    r.Pooled? && r.buffer == buffer
  }

  ghost predicate HeldAt(s: State, k: ReassemblyKey, i: nat, buffer: nat) {
    k in s.contexts && i < |s.contexts[k].refs| && Owns(s.contexts[k].refs[i], buffer)
  }

  ghost predicate Held(s: State, buffer: nat) {
    exists k, i :: HeldAt(s, k, i, buffer)
  }

  // ----- resolving references -----

  function ResolveRef(mem: Memory, r: FragmentRef): FragmentRef {
    if r.Pooled? then Heap(RefBytes(mem, r)) else r
  }

  /** The context with every pool reference replaced by a copy of the bytes it denotes. */
  function Resolve(mem: Memory, c: Context): Context {
    c.(refs := seq(|c.refs|, i requires 0 <= i < |c.refs| => ResolveRef(mem, c.refs[i])))
  }

  function ResolveAll(mem: Memory, s: State): State {
    s.(contexts := map k | k in s.contexts :: Resolve(mem, s.contexts[k]), returned := [])
  }

  lemma {:induction false} KnownSizeOnlyReadsSizes(c: Context, d: Context, i: nat)
    requires c.Shape() && d.Shape() && c.totalFrags == d.totalFrags && c.sizes == d.sizes
    ensures FirstKnownSize(c, i) == FirstKnownSize(d, i)
    decreases |c.sizes| - i
  {
    if i + 1 < c.totalFrags {
      KnownSizeOnlyReadsSizes(c, d, i + 1);
    }
  }

  lemma {:induction false} ResolveAssembled(cfg: Config, mem: Memory, key: ReassemblyKey, c: Context, n: nat)
    requires c.Shape() && n <= c.totalFrags
    ensures Assembled(cfg, mem, key, c, n) == Assembled(cfg, map[], key, Resolve(mem, c), n)
    ensures Missing(c, n) == Missing(Resolve(mem, c), n)
  {
    if n > 0 {
      ResolveAssembled(cfg, mem, key, c, n - 1);
      KnownSizeOnlyReadsSizes(c, Resolve(mem, c), 0);
    }
  }

  lemma ResolveFrame(cfg: Config, mem: Memory, key: ReassemblyKey, c: Context)
    requires c.Shape()
    ensures MakeFrame(cfg, mem, key, c) == MakeFrame(cfg, map[], key, Resolve(mem, c))
  {
    ResolveAssembled(cfg, mem, key, c, c.totalFrags);
  }

  lemma ResolveComplete(cfg: Config, mem: Memory, s: State, key: ReassemblyKey, expireMs: Option<u64>)
    requires key in s.contexts && s.contexts[key].Shape()
    ensures ResolveAll(mem, Complete(cfg, mem, s, key, expireMs)) == Complete(cfg, map[], ResolveAll(mem, s), key, expireMs).(returned := [])
  {
    hide MakeFrame, HeldBuffers, FindFrozen, Resolve;
    ResolveShape(mem, s.contexts[key]);
    ResolveFrame(cfg, mem, key, s.contexts[key]);
  }

  lemma ResolveShape(mem: Memory, c: Context)
    requires c.Shape()
    ensures Resolve(mem, c).Shape() && Resolve(mem, c).Complete() == c.Complete()
  {
  }

  /** The packet's payload lies in the buffer, where the carrier says. */
  ghost predicate Carries(mem: Memory, p: ParsedPacket, carrier: Carrier) {
    carrier.InBuffer? && p.payload.Some? ==>
      && carrier.buffer in mem
      && carrier.offset + |p.payload.value| <= |mem[carrier.buffer]|
      && mem[carrier.buffer][carrier.offset..carrier.offset + |p.payload.value|] == p.payload.value
  }

  lemma ResolveNewRef(mem: Memory, p: ParsedPacket, carrier: Carrier, f: Fragment)
    requires p.payload.Some? && Carries(mem, p, carrier) && f.start + f.size <= |p.payload.value|
    ensures ResolveRef(mem, MakeRef(p.payload.value, carrier, f)) == MakeRef(p.payload.value, Copied, f)
  {
    if carrier.InBuffer? && f.size > 0 {
      var bytes := mem[carrier.buffer];
      var at := carrier.offset;
      SliceOfSlice(bytes, at, at + |p.payload.value|, f.start, f.size);
    }
  }

  lemma SliceOfSlice(s: Bytes, a: nat, b: nat, i: nat, n: nat)
    requires a <= b <= |s| && a + i + n <= b
    ensures s[a..b][i..i + n] == s[a + i..a + i + n]
  {
    var l, r := s[a..b][i..i + n], s[a + i..a + i + n];
    assert |l| == |r| && forall j :: 0 <= j < n ==> l[j] == r[j];
  }

  lemma ResolveStore(mem: Memory, c: Context, f: Fragment, r: FragmentRef)
    requires c.Shape() && f.header.fragIndex < c.totalFrags
    ensures Resolve(mem, StoreFragment(c, f, r)) == StoreFragment(Resolve(mem, c), f, ResolveRef(mem, r))
  {
  }

  lemma ResolveSnapshot(mem: Memory, c: Context, f: Fragment)
    ensures Resolve(mem, WithSnapshot(c, f)) == WithSnapshot(Resolve(mem, c), f)
  {
  }

  lemma ResolveJudge(cfg: Config, mem: Memory, c: Context, f: Fragment)
    requires c.Shape()
    ensures Judge(cfg, Resolve(mem, c), f) == Judge(cfg, c, f)
  {
  }

  lemma ResolveUpdate(mem: Memory, s: State, k: ReassemblyKey, c: Context)
    ensures ResolveAll(mem, s.(contexts := s.contexts[k := c])) ==
            ResolveAll(mem, s).(contexts := ResolveAll(mem, s).contexts[k := Resolve(mem, c)])
  {
  }

  lemma ResolveAdd(cfg: Config, mem: Memory, s: State, f: Fragment, r: FragmentRef, carrier: Carrier, r': FragmentRef)
    requires f.key in s.contexts && s.contexts[f.key].Shape() && r' == ResolveRef(mem, r)
    ensures ResolveAll(mem, AddToContext(cfg, mem, s, f, r, carrier)) == AddToContext(cfg, map[], ResolveAll(mem, s), f, r', Copied).(returned := [])
  {
    hide Complete, StoreFragment, Resolve, WithSnapshot;
    var c := WithSnapshot(s.contexts[f.key], f);
    SnapshotShape(s.contexts[f.key], f);
    ResolveSnapshot(mem, s.contexts[f.key], f);
    ResolveShape(mem, s.contexts[f.key]);
    ResolveShape(mem, c);
    ResolveJudge(cfg, mem, c, f);
    ResolveUpdate(mem, s, f.key, c);
    if Judge(cfg, c, f) == Store {
      var c' := StoreFragment(c, f, r);
      var stored := s.(contexts := s.contexts[f.key := c']);
      StoreShape(c, f, r);
      ResolveShape(mem, c');
      ResolveStore(mem, c, f, r);
      ResolveUpdate(mem, s, f.key, c');
      if c'.Complete() {
        ResolveComplete(cfg, mem, stored, f.key, None);
      }
    }
  }

  lemma StoreShape(c: Context, f: Fragment, r: FragmentRef)
    requires c.Shape() && f.header.fragIndex < c.totalFrags
    ensures StoreFragment(c, f, r).Shape()
  {
  }

  lemma ResolveReady(cfg: Config, mem: Memory, s: State, f: Fragment, now: u64)
    ensures ResolveAll(mem, GetOrCreate(cfg, s, f, now)) == GetOrCreate(cfg, ResolveAll(mem, s), f, now)
  {
    var c := NewContext(f.header.totalFrags, f.header.tailFragPayloadBytes, f.header.dataTimestamp, now);
    assert Resolve(mem, c) == c;
    assert |ResolveAll(mem, s).contexts.Keys| == |s.contexts.Keys| by {
      assert ResolveAll(mem, s).contexts.Keys == s.contexts.Keys;
    }
    ResolveUpdate(mem, s, f.key, c);
  }

  lemma ResolveProcess(cfg: Config, mem: Memory, s: State, p: ParsedPacket, carrier: Carrier, now: u64)
    requires p.Valid() && ContextsShaped(s) && cfg.Valid() && Carries(mem, p, carrier)
    ensures ContextsShaped(ResolveAll(mem, s))
    ensures ResolveAll(mem, Process(cfg, mem, s, p, carrier, now)) == Process(cfg, map[], ResolveAll(mem, s), p, Copied, now).(returned := [])
  {
    hide ParseFragment, AddToContext, ScanFrozen, MakeRef, Resolve, GetOrCreate, Carries;
    forall k | k in s.contexts ensures Resolve(mem, s.contexts[k]).Shape() {
      ResolveShape(mem, s.contexts[k]);
    }
    match ParseFragment(cfg, p)
    case None =>
    case Some(f) =>
      var scanned := s.(stats := s.stats.(received := s.stats.received + 1), frozen := ScanFrozen(s.frozen, f.key, now, 0).0);
      var readied := GetOrCreate(cfg, scanned, f, now);
      ResolveReady(cfg, mem, scanned, f, now);
      ReadyShape(cfg, scanned, f, now);
      if f.key in readied.contexts {
        ResolveNewRef(mem, p, carrier, f);
        ResolveAdd(cfg, mem, readied, f, MakeRef(p.payload.value, carrier, f), carrier, MakeRef(p.payload.value, Copied, f));
      }
  }

  lemma ReadyShape(cfg: Config, s: State, f: Fragment, now: u64)
    requires ContextsShaped(s) && 0 < f.header.totalFrags <= MAX_FRAGMENTS
    ensures ContextsShaped(GetOrCreate(cfg, s, f, now))
  {
  }

  // ----- a sweep beside the threads that refill the pool -----

  /** Two contents of the pool that agree on the buffers the contexts own. */
  ghost predicate Agree(s: State, mem: Memory, mem': Memory) {
    forall b :: Held(s, b) ==> (b in mem <==> b in mem') && (b in mem ==> mem[b] == mem'[b])
  }

  lemma AgreeKeepsBytes(s: State, mem: Memory, mem': Memory)
    requires Agree(s, mem, mem')
    ensures ResolveAll(mem, s) == ResolveAll(mem', s)
  {
    forall k, i | k in s.contexts && 0 <= i < |s.contexts[k].refs|
      ensures ResolveRef(mem, s.contexts[k].refs[i]) == ResolveRef(mem', s.contexts[k].refs[i])
    {
      var r := s.contexts[k].refs[i];
      if r.Pooled? {
        assert HeldAt(s, k, i, r.buffer);
      }
    }
    forall k | k in s.contexts ensures Resolve(mem, s.contexts[k]) == Resolve(mem', s.contexts[k]) {
    }
  }

  /** The contents of the pool when the `i`-th frame of a sweep has been assembled. */
  function MemoryAt(mem: Memory, order: seq<Stamp>, i: nat): Memory
    requires i <= |order|
  {
    if i == 0 then mem else order[i - 1].mem
  }

  /** From one frame of a sweep to the next only the buffers that no context owns any more may change: those of the
      frames already emitted are refilled at once. */
  ghost predicate SweepAllowed(cfg: Config, s: State, mem: Memory, order: seq<Stamp>, timeoutMs: u32)
    requires ContextsShaped(s)
  {
    forall i :: 0 <= i < |order| ==> Agree(ExpireAll(cfg, s, order[..i], timeoutMs), MemoryAt(mem, order, i), order[i].mem)
  }

  /** `mem'` is `mem` with some of the `free` buffers refilled. */
  ghost predicate Refilled(mem: Memory, mem': Memory, free: seq<nat>) {
    forall b :: b !in free ==> (b in mem <==> b in mem') && (b in mem ==> mem[b] == mem'[b])
  }

  /** After the frames of `done`, only buffers handed back since the sweep began differ between `mem` and `mem'`. */
  ghost predicate RefillsAfter(cfg: Config, s: State, done: seq<Stamp>, timeoutMs: u32, mem: Memory, mem': Memory)
    requires ContextsShaped(s)
  {
    var returned := ExpireAll(cfg, s, done, timeoutMs).returned;
    |s.returned| <= |returned| && Refilled(mem, mem', returned[|s.returned|..])
  }

  /** From one frame of a sweep to the next only the buffers handed back since the sweep began are refilled. */
  ghost predicate SweepRefills(cfg: Config, s: State, mem: Memory, order: seq<Stamp>, timeoutMs: u32)
    requires ContextsShaped(s)
  {
    forall i :: 0 <= i < |order| ==> RefillsAfter(cfg, s, order[..i], timeoutMs, MemoryAt(mem, order, i), order[i].mem)
  }

  lemma RefilledNot(mem: Memory, free: seq<nat>)
    ensures Refilled(mem, mem, free)
  {
  }

  lemma RefilledAlso(a: Memory, b: Memory, c: Memory, free: seq<nat>, more: seq<nat>)
    requires Refilled(a, b, free) && Refilled(b, c, more)
    ensures Refilled(a, c, free + more)
  {
  }

  lemma RefilledTwice(a: Memory, b: Memory, c: Memory, free: seq<nat>, more: seq<nat>)
    requires Refilled(a, b, free) && Refilled(b, c, more) && forall x :: x in free ==> x in more
    ensures Refilled(a, c, more)
  {
  }

  lemma SweepStarts(cfg: Config, s: State, mem: Memory, timeoutMs: u32)
    requires ContextsShaped(s)
    ensures SweepRefills(cfg, s, mem, [], timeoutMs) && ExpireAll(cfg, s, [], timeoutMs) == s
  {
  }

  lemma SweepGrows(cfg: Config, s: State, mem: Memory, order: seq<Stamp>, stamp: Stamp, timeoutMs: u32)
    requires ContextsShaped(s) && SweepRefills(cfg, s, mem, order, timeoutMs)
    requires RefillsAfter(cfg, s, order, timeoutMs, MemoryAt(mem, order, |order|), stamp.mem)
    ensures SweepRefills(cfg, s, mem, order + [stamp], timeoutMs)
  {
    hide RefillsAfter;
    var all := order + [stamp];
    forall i | 0 <= i < |all| ensures RefillsAfter(cfg, s, all[..i], timeoutMs, MemoryAt(mem, all, i), all[i].mem) {
      assert all[..i] == order[..i];
    }
  }

  lemma ExpireOneMore(cfg: Config, s: State, order: seq<Stamp>, stamp: Stamp, timeoutMs: u32)
    requires ContextsShaped(s)
    ensures var before, after := ExpireAll(cfg, s, order, timeoutMs), ExpireAll(cfg, s, order + [stamp], timeoutMs);
      && (stamp.key !in before.contexts ==> after == before)
      && (stamp.key in before.contexts ==>
            after == Complete(cfg, stamp.mem, before, stamp.key, Some((stamp.now + timeoutMs) % TWO64)))
  {
    hide Complete;
    assert (order + [stamp])[..|order|] == order;
  }

  /** The same walk on the copying path, which reads no pool memory. */
  function Unread(order: seq<Stamp>): (r: seq<Stamp>)
    ensures |r| == |order|
  {
    seq(|order|, i requires 0 <= i < |order| => order[i].(mem := map[]))
  }

  lemma AllowedPrefix(cfg: Config, s: State, mem: Memory, order: seq<Stamp>, timeoutMs: u32, n: nat)
    requires ContextsShaped(s) && n <= |order| && SweepAllowed(cfg, s, mem, order, timeoutMs)
    ensures SweepAllowed(cfg, s, mem, order[..n], timeoutMs)
    ensures MemoryAt(mem, order[..n], n) == MemoryAt(mem, order, n)
    ensures n < |order| ==> Agree(ExpireAll(cfg, s, order[..n], timeoutMs), MemoryAt(mem, order, n), order[n].mem)
  {
    hide Agree, ExpireAll;
    assert forall i :: 0 <= i < n ==> order[..n][..i] == order[..i];
  }

  lemma {:induction false} ResolveExpireAll(cfg: Config, mem: Memory, s: State, order: seq<Stamp>, timeoutMs: u32)
    requires ContextsShaped(s) && SweepAllowed(cfg, s, mem, order, timeoutMs)
    ensures ContextsShaped(ResolveAll(mem, s))
    ensures ResolveAll(MemoryAt(mem, order, |order|), ExpireAll(cfg, s, order, timeoutMs))
         == ExpireAll(cfg, ResolveAll(mem, s), Unread(order), timeoutMs).(returned := [])
    decreases |order|
  {
    hide Complete, Resolve, Agree, ResolveAll, ContextsShaped, ExpireAll, SweepAllowed;
    ResolvedShaped(mem, s);
    if order == [] {
      assert Unread(order) == [];
      ExpireNone(cfg, s, timeoutMs);
      ExpireNone(cfg, ResolveAll(mem, s), timeoutMs);
      ResolvedReturnsNothing(mem, s);
    } else {
      var n := |order| - 1;
      var front, last := order[..n], order[n];
      AllowedPrefix(cfg, s, mem, order, timeoutMs, n);
      ResolveExpireAll(cfg, mem, s, front, timeoutMs);
      assert Unread(order)[..n] == Unread(front);
      ResolveOne(cfg, ExpireAll(cfg, s, front, timeoutMs), MemoryAt(mem, order, n),
                 ExpireAll(cfg, ResolveAll(mem, s), Unread(front), timeoutMs), last, timeoutMs);
      ExpireUnfolds(cfg, s, order, timeoutMs);
      ExpireUnfolds(cfg, ResolveAll(mem, s), Unread(order), timeoutMs);
    }
  }

  lemma ExpireNone(cfg: Config, s: State, timeoutMs: u32)
    requires ContextsShaped(s)
    ensures ExpireAll(cfg, s, [], timeoutMs) == s
  {
  }

  lemma ExpireUnfolds(cfg: Config, s: State, order: seq<Stamp>, timeoutMs: u32)
    requires ContextsShaped(s) && order != []
    ensures var before, last := ExpireAll(cfg, s, order[..|order| - 1], timeoutMs), order[|order| - 1];
      if last.key in before.contexts
      then before.contexts[last.key].Shape()
           && ExpireAll(cfg, s, order, timeoutMs) == Complete(cfg, last.mem, before, last.key, Some((last.now + timeoutMs) % TWO64))
      else ExpireAll(cfg, s, order, timeoutMs) == before
  {
  }

  lemma ResolvedShaped(mem: Memory, s: State)
    requires ContextsShaped(s)
    ensures ContextsShaped(ResolveAll(mem, s))
  {
    forall k | k in s.contexts ensures Resolve(mem, s.contexts[k]).Shape() {
      ResolveShape(mem, s.contexts[k]);
    }
  }

  /** One context of a sweep, on both paths. */
  lemma ResolveOne(cfg: Config, s: State, mem: Memory, plain: State, stamp: Stamp, timeoutMs: u32)
    requires ContextsShaped(s) && ContextsShaped(plain) && Agree(s, mem, stamp.mem) && ResolveAll(mem, s) == plain.(returned := [])
    ensures stamp.key in s.contexts <==> stamp.key in plain.contexts
    ensures stamp.key !in s.contexts ==> ResolveAll(stamp.mem, s) == plain.(returned := [])
    ensures stamp.key in s.contexts ==>
      var expireMs := Some((stamp.now + timeoutMs) % TWO64);
      ResolveAll(stamp.mem, Complete(cfg, stamp.mem, s, stamp.key, expireMs))
      == Complete(cfg, map[], plain, stamp.key, expireMs).(returned := [])
  {
    hide Complete, Resolve, Agree;
    AgreeKeepsBytes(s, mem, stamp.mem);
    assert plain.contexts == ResolveAll(mem, s).contexts;
    if stamp.key in s.contexts {
      var expireMs := Some((stamp.now + timeoutMs) % TWO64);
      ResolveComplete(cfg, stamp.mem, s, stamp.key, expireMs);
      CompleteIgnoresReturned(cfg, map[], plain, stamp.key, expireMs);
    }
  }

  lemma CompleteIgnoresReturned(cfg: Config, mem: Memory, s: State, key: ReassemblyKey, expireMs: Option<u64>)
    requires key in s.contexts && s.contexts[key].Shape()
    ensures Complete(cfg, mem, s.(returned := []), key, expireMs).(returned := []) == Complete(cfg, mem, s, key, expireMs).(returned := [])
  {
    hide MakeFrame, HeldBuffers, FindFrozen;
  }

  // ----- the copying path returns no buffers -----

  ghost predicate NothingPooled(s: State) {
    forall k, i :: k in s.contexts && 0 <= i < |s.contexts[k].refs| ==> !s.contexts[k].refs[i].Pooled?
  }

  lemma {:induction false} NoneHeld(refs: seq<FragmentRef>)
    requires forall i :: 0 <= i < |refs| ==> !refs[i].Pooled?
    ensures HeldBuffers(refs) == []
  {
    if refs != [] {
      NoneHeld(refs[..|refs| - 1]);
    }
  }

  lemma CompletePlain(cfg: Config, mem: Memory, s: State, key: ReassemblyKey, expireMs: Option<u64>)
    requires key in s.contexts && s.contexts[key].Shape() && NothingPooled(s)
    ensures var s' := Complete(cfg, mem, s, key, expireMs); NothingPooled(s') && s'.returned == s.returned
  {
    hide MakeFrame, FindFrozen, HeldBuffers;
    NoneHeld(s.contexts[key].refs);
  }

  lemma AddPlain(cfg: Config, mem: Memory, s: State, f: Fragment, r: FragmentRef)
    requires f.key in s.contexts && s.contexts[f.key].Shape() && NothingPooled(s) && !r.Pooled?
    ensures var s' := AddToContext(cfg, mem, s, f, r, Copied); NothingPooled(s') && s'.returned == s.returned
  {
    hide Complete;
    var c := WithSnapshot(s.contexts[f.key], f);
    if Judge(cfg, c, f) == Store {
      var stored := s.(contexts := s.contexts[f.key := StoreFragment(c, f, r)]);
      assert NothingPooled(stored);
      if StoreFragment(c, f, r).Complete() {
        CompletePlain(cfg, mem, stored, f.key, None);
      }
    }
  }

  lemma ProcessPlain(cfg: Config, mem: Memory, s: State, p: ParsedPacket, now: u64)
    requires p.Valid() && ContextsShaped(s) && cfg.Valid() && NothingPooled(s)
    ensures var s' := Process(cfg, mem, s, p, Copied, now); NothingPooled(s') && s'.returned == s.returned
  {
    hide ParseFragment, AddToContext, ScanFrozen;
    match ParseFragment(cfg, p)
    case None =>
    case Some(f) =>
      var scanned := s.(stats := s.stats.(received := s.stats.received + 1), frozen := ScanFrozen(s.frozen, f.key, now, 0).0);
      var readied := GetOrCreate(cfg, scanned, f, now);
      if f.key in readied.contexts {
        AddPlain(cfg, mem, readied, f, MakeRef(p.payload.value, Copied, f));
      }
  }

  lemma {:induction false} ExpireAllPlain(cfg: Config, s: State, order: seq<Stamp>, timeoutMs: u32)
    requires ContextsShaped(s) && NothingPooled(s)
    ensures var s' := ExpireAll(cfg, s, order, timeoutMs); NothingPooled(s') && s'.returned == s.returned
    decreases |order|
  {
    hide Complete;
    if order != [] {
      var front, last := order[..|order| - 1], order[|order| - 1];
      ExpireAllPlain(cfg, s, front, timeoutMs);
      var before := ExpireAll(cfg, s, front, timeoutMs);
      if last.key in before.contexts {
        CompletePlain(cfg, last.mem, before, last.key, Some((last.now + timeoutMs) % TWO64));
      }
    }
  }

  // ----- runs with a pool that keeps being reused -----

  /** The reassembler and the contents of the pool when it was last read. */
  datatype World = World(s: State, mem: Memory)

  /** Whatever else happens to the pool before and during the call, buffers owned by a context are left alone; a new
      packet comes in a buffer no context owns. */
  ghost predicate Allowed(cfg: Config, w: World, e: Event)
    requires ContextsShaped(w.s)
  {
    match e
    case Arrive(p, carrier, _, mem) =>
      && p.Valid() && Agree(w.s, w.mem, mem) && Carries(mem, p, carrier)
      && (carrier.InBuffer? ==> !Held(w.s, carrier.buffer))
    case Sweep(_, order, timeoutMs) => SweepAllowed(cfg, w.s, w.mem, order, timeoutMs)
    case FlushAll(order, timeoutMs) => SweepAllowed(cfg, w.s, w.mem, order, timeoutMs)
  }

  function WorldStep(cfg: Config, w: World, e: Event): World
    requires cfg.Valid() && ContextsShaped(w.s) && (e.Arrive? ==> e.packet.Valid())
  {
    World(Step(cfg, w.s, e),
          match e
          case Arrive(_, _, _, mem) => mem
          case Sweep(_, order, _) => MemoryAt(w.mem, order, |order|)
          case FlushAll(order, _) => MemoryAt(w.mem, order, |order|))
  }

  ghost predicate WorldRun(cfg: Config, events: seq<Event>, worlds: seq<World>)
    requires cfg.Valid()
  {
    && |worlds| == |events| + 1
    && worlds[0].s == Initial(cfg)
    && forall i :: 0 <= i < |events| ==>
         && ContextsShaped(worlds[i].s) && Allowed(cfg, worlds[i], events[i])
         && worlds[i + 1] == WorldStep(cfg, worlds[i], events[i])
  }

  /** The same call on the copying path. */
  function AsCopied(e: Event): Event {
    match e
    case Arrive(p, _, now, _) => Arrive(p, Copied, now, map[])
    case Sweep(now, order, timeoutMs) => Sweep(now, Unread(order), timeoutMs)
    case FlushAll(order, timeoutMs) => FlushAll(Unread(order), timeoutMs)
  }

  function CopiedCalls(events: seq<Event>): (r: seq<Event>)
    ensures |r| == |events|
  {
    seq(|events|, i requires 0 <= i < |events| => AsCopied(events[i]))
  }

  lemma ResolvedIsPlain(mem: Memory, s: State)
    ensures NothingPooled(ResolveAll(mem, s))
  {
  }

  lemma CallRefines(cfg: Config, w: World, e: Event)
    requires cfg.Valid() && ContextsShaped(w.s) && Allowed(cfg, w, e)
    ensures ContextsShaped(ResolveAll(w.mem, w.s))
    ensures var w' := WorldStep(cfg, w, e);
      ResolveAll(w'.mem, w'.s) == Step(cfg, ResolveAll(w.mem, w.s), AsCopied(e))
  {
    hide Process, ExpireAll, ResolveAll, NothingPooled, SweepAllowed;
    ResolvedIsPlain(w.mem, w.s);
    ResolvedReturnsNothing(w.mem, w.s);
    match e
    case Arrive(p, carrier, now, mem) =>
      AgreeKeepsBytes(w.s, w.mem, mem);
      ResolveProcess(cfg, mem, w.s, p, carrier, now);
      ProcessPlain(cfg, map[], ResolveAll(w.mem, w.s), p, now);
    case Sweep(_, order, timeoutMs) =>
      ResolveExpireAll(cfg, w.mem, w.s, order, timeoutMs);
      ExpireAllPlain(cfg, ResolveAll(w.mem, w.s), Unread(order), timeoutMs);
    case FlushAll(order, timeoutMs) =>
      ResolveExpireAll(cfg, w.mem, w.s, order, timeoutMs);
      ExpireAllPlain(cfg, ResolveAll(w.mem, w.s), Unread(order), timeoutMs);
  }

  lemma ResolvedReturnsNothing(mem: Memory, s: State)
    ensures ResolveAll(mem, s).returned == []
  {
  }

  /** For every run of packets, sweeps and flushes, with every buffer that no context owns overwritten at will before
      and during the calls, the zero-copy path emits the same frames, counts the same and waits for the same
      fragments as the copying path does on the same calls. */
  lemma {:induction false} ZeroCopyRefinesCopying(cfg: Config, events: seq<Event>, worlds: seq<World>)
    requires cfg.Valid() && WorldRun(cfg, events, worlds)
    ensures PacketsValid(CopiedCalls(events))
    ensures ResolveAll(worlds[|events|].mem, worlds[|events|].s) == RunFrom(cfg, Initial(cfg), CopiedCalls(events))
  {
    var n := |events| - 1;
    if events == [] {
      assert ResolveAll(worlds[0].mem, Initial(cfg)) == Initial(cfg);
    } else {
      hide ResolveAll, Step;
      ZeroCopyRefinesCopying(cfg, events[..n], worlds[..n + 1]);
      assert CopiedCalls(events)[..n] == CopiedCalls(events[..n]);
      CallRefines(cfg, worlds[n], events[n]);
    }
  }

  // ----- every buffer comes back exactly once -----

  /** No buffer is owned twice. */
  ghost predicate Unique(s: State) {
    forall k, i, k', i', b :: HeldAt(s, k, i, b) && HeldAt(s, k', i', b) ==> k == k' && i == i'
  }

  ghost function HeldCount(s: State, b: nat): nat {
    if Held(s, b) then 1 else 0
  }

  /** Each handed-over buffer has been returned, or is owned by exactly one context; never both. */
  ghost predicate Balanced(s: State, acquired: multiset<nat>) {
    Unique(s) && forall b :: acquired[b] == multiset(s.returned)[b] + HeldCount(s, b)
  }

  ghost predicate OneOwner(refs: seq<FragmentRef>, b: nat) {
    forall i, j :: 0 <= i < j < |refs| ==> !(Owns(refs[i], b) && Owns(refs[j], b))
  }

  ghost predicate OwnedIn(refs: seq<FragmentRef>, b: nat) {
    exists i :: 0 <= i < |refs| && Owns(refs[i], b)
  }

  lemma HeldBuffersLast(refs: seq<FragmentRef>, b: nat)
    requires refs != []
    ensures multiset(HeldBuffers(refs))[b] == multiset(HeldBuffers(refs[..|refs| - 1]))[b] + if Owns(refs[|refs| - 1], b) then 1 else 0
  {
  }

  lemma OwnedLast(refs: seq<FragmentRef>, b: nat)
    requires refs != [] && OneOwner(refs, b)
    ensures OneOwner(refs[..|refs| - 1], b)
    ensures OwnedIn(refs, b) <==> OwnedIn(refs[..|refs| - 1], b) || Owns(refs[|refs| - 1], b)
    ensures !(OwnedIn(refs[..|refs| - 1], b) && Owns(refs[|refs| - 1], b))
  {
  }

  lemma {:induction false} HeldBuffersCount(refs: seq<FragmentRef>, b: nat)
    requires OneOwner(refs, b)
    ensures multiset(HeldBuffers(refs))[b] == if OwnedIn(refs, b) then 1 else 0
  {
    if refs != [] {
      hide HeldBuffers, OneOwner, OwnedIn, Owns;
      OwnedLast(refs, b);
      HeldBuffersCount(refs[..|refs| - 1], b);
      HeldBuffersLast(refs, b);
    }
  }

  /** Closing a context returns exactly the buffers it owned. */
  lemma DestroyBalanced(s: State, key: ReassemblyKey, acquired: multiset<nat>)
    requires key in s.contexts && Balanced(s, acquired)
    ensures Balanced(Destroy(s, key), acquired)
  {
    var refs := s.contexts[key].refs;
    var s' := Destroy(s, key);
    forall b ensures OneOwner(refs, b) {
      assert forall i :: 0 <= i < |refs| && Owns(refs[i], b) ==> HeldAt(s, key, i, b);
    }
    forall k, i, b ensures HeldAt(s', k, i, b) <==> k != key && HeldAt(s, k, i, b) {
    }
    forall b ensures acquired[b] == multiset(s'.returned)[b] + HeldCount(s', b) {
      HeldBuffersCount(refs, b);
      assert multiset(s'.returned) == multiset(s.returned) + multiset(HeldBuffers(refs));
      if exists i :: 0 <= i < |refs| && Owns(refs[i], b) {
        var i :| 0 <= i < |refs| && Owns(refs[i], b);
        assert HeldAt(s, key, i, b);
        assert !Held(s', b);
      } else {
        assert Held(s', b) <==> Held(s, b);
      }
    }
  }

  // ----- what a sweep hands back can be refilled at once -----

  /** The buffers handed back since `s` are owned by nobody, and no buffer is owned twice. */
  ghost predicate Freed(s: State, s': State) {
    && Unique(s') && |s.returned| <= |s'.returned|
    && forall b :: b in s'.returned[|s.returned|..] ==> !Held(s', b)
  }

  lemma {:induction false} HeldBuffersOwned(refs: seq<FragmentRef>, b: nat)
    requires b in HeldBuffers(refs)
    ensures OwnedIn(refs, b)
  {
    var n := |refs| - 1;
    if !Owns(refs[n], b) {
      HeldBuffersOwned(refs[..n], b);
      var i :| 0 <= i < n && Owns(refs[..n][i], b);
      assert Owns(refs[i], b);
    }
  }

  lemma DestroyFrees(s: State, s1: State, s2: State, key: ReassemblyKey)
    requires Freed(s, s1) && key in s1.contexts
    requires s2.contexts == s1.contexts - {key} && s2.returned == s1.returned + HeldBuffers(s1.contexts[key].refs)
    ensures Freed(s, s2)
  {
    hide HeldBuffers;
    var refs := s1.contexts[key].refs;
    assert forall k, i, b :: HeldAt(s2, k, i, b) ==> k != key && HeldAt(s1, k, i, b);
    forall b | b in s2.returned[|s.returned|..] ensures !Held(s2, b) {
      assert s2.returned[|s.returned|..] == s1.returned[|s.returned|..] + HeldBuffers(refs);
      if b in HeldBuffers(refs) {
        HeldBuffersOwned(refs, b);
        var i :| 0 <= i < |refs| && Owns(refs[i], b);
        assert HeldAt(s1, key, i, b);
      }
    }
  }

  lemma {:induction false} SweepFrees(cfg: Config, s: State, order: seq<Stamp>, timeoutMs: u32)
    requires ContextsShaped(s) && Unique(s)
    ensures Freed(s, ExpireAll(cfg, s, order, timeoutMs))
    decreases |order|
  {
    hide Complete, Freed;
    if order == [] {
      NothingFreed(s);
    } else {
      var front, last := order[..|order| - 1], order[|order| - 1];
      SweepFrees(cfg, s, front, timeoutMs);
      var before := ExpireAll(cfg, s, front, timeoutMs);
      if last.key in before.contexts {
        var expireMs := Some((last.now + timeoutMs) % TWO64);
        CompleteReturns(cfg, last.mem, before, last.key, expireMs);
        DestroyFrees(s, before, Complete(cfg, last.mem, before, last.key, expireMs), last.key);
      }
    }
  }

  lemma NothingFreed(s: State)
    requires Unique(s)
    ensures Freed(s, s)
  {
  }

  lemma CompleteReturns(cfg: Config, mem: Memory, s: State, key: ReassemblyKey, expireMs: Option<u64>)
    requires key in s.contexts && s.contexts[key].Shape()
    ensures var s' := Complete(cfg, mem, s, key, expireMs);
      s'.contexts == s.contexts - {key} && s'.returned == s.returned + HeldBuffers(s.contexts[key].refs)
  {
    hide MakeFrame, HeldBuffers, FindFrozen;
  }

  /** Refilling what a sweep has handed back leaves the buffers of the waiting contexts alone. */
  lemma RefillsAreAllowed(cfg: Config, s: State, mem: Memory, order: seq<Stamp>, timeoutMs: u32)
    requires ContextsShaped(s) && Unique(s) && SweepRefills(cfg, s, mem, order, timeoutMs)
    ensures SweepAllowed(cfg, s, mem, order, timeoutMs)
  {
    hide ExpireAll, Held, Unique;
    forall i | 0 <= i < |order| ensures Agree(ExpireAll(cfg, s, order[..i], timeoutMs), MemoryAt(mem, order, i), order[i].mem) {
      SweepFrees(cfg, s, order[..i], timeoutMs);
      assert RefillsAfter(cfg, s, order[..i], timeoutMs, MemoryAt(mem, order, i), order[i].mem);
    }
  }

  lemma SameOwners(s: State, s': State, acquired: multiset<nat>)
    requires Balanced(s, acquired) && s'.returned == s.returned
    requires forall k, i, b :: HeldAt(s', k, i, b) <==> HeldAt(s, k, i, b)
    ensures Balanced(s', acquired)
  {
  }

  function Taken(carrier: Carrier): multiset<nat> {
    if carrier.InBuffer? then multiset{carrier.buffer} else multiset{}
  }

  lemma GiveBackBalanced(s: State, carrier: Carrier, acquired: multiset<nat>)
    requires Balanced(s, acquired)
    ensures Balanced(GiveBack(s, carrier), acquired + Taken(carrier))
  {
    var s' := GiveBack(s, carrier);
    forall k, i, b ensures HeldAt(s', k, i, b) <==> HeldAt(s, k, i, b) {
    }
    forall b ensures HeldCount(s', b) == HeldCount(s, b) {
      assert Held(s', b) <==> Held(s, b);
    }
    if carrier.InBuffer? {
      assert multiset(s'.returned) == multiset(s.returned) + multiset{carrier.buffer};
    }
  }

  lemma CompleteBalanced(cfg: Config, mem: Memory, s: State, key: ReassemblyKey, expireMs: Option<u64>, acquired: multiset<nat>)
    requires key in s.contexts && s.contexts[key].Shape() && Balanced(s, acquired)
    ensures Balanced(Complete(cfg, mem, s, key, expireMs), acquired)
  {
    hide MakeFrame, HeldBuffers, FindFrozen, Balanced;
    var f := MakeFrame(cfg, mem, key, s.contexts[key]);
    var emitted := s.(frames := s.frames + [f], stats := CountFrame(s.stats, f, expireMs.Some?));
    var frozen := if expireMs.Some? then AddFrozen(emitted, key, expireMs.value) else emitted;
    assert frozen.contexts == s.contexts && frozen.returned == s.returned;
    SameOwners(s, frozen, acquired);
    DestroyBalanced(frozen, key, acquired);
  }

  /** A context taking a reference into an empty slot takes its buffer over. */
  lemma StoreBalanced(s: State, key: ReassemblyKey, c: Context, i: nat, r: FragmentRef, acquired: multiset<nat>)
    requires key in s.contexts && Balanced(s, acquired) && i < |s.contexts[key].refs|
    requires !s.contexts[key].refs[i].Pooled? && c.refs == s.contexts[key].refs[i := r]
    requires r.Pooled? ==> !Held(s, r.buffer)
    ensures Balanced(s.(contexts := s.contexts[key := c]), acquired + if r.Pooled? then multiset{r.buffer} else multiset{})
  {
    var s' := s.(contexts := s.contexts[key := c]);
    forall k, j, b ensures HeldAt(s', k, j, b) <==> HeldAt(s, k, j, b) || (k == key && j == i && Owns(r, b)) {
    }
    assert forall k, j :: r.Pooled? ==> !HeldAt(s, k, j, r.buffer);
    forall b ensures HeldCount(s', b) == HeldCount(s, b) + if Owns(r, b) then 1 else 0 {
      if Owns(r, b) {
        assert HeldAt(s', key, i, b);
      } else {
        assert Held(s', b) <==> Held(s, b);
      }
    }
  }

  lemma SnapshotRefs(c: Context, f: Fragment)
    ensures WithSnapshot(c, f).refs == c.refs && WithSnapshot(c, f).received == c.received
  {
  }

  lemma AddBalanced(cfg: Config, mem: Memory, s: State, f: Fragment, r: FragmentRef, carrier: Carrier, acquired: multiset<nat>)
    requires f.key in s.contexts && Coherent(s.contexts[f.key]) && Balanced(s, acquired)
    requires r.Pooled? ==> carrier.InBuffer? && carrier.buffer == r.buffer
    requires carrier.InBuffer? ==> !Held(s, carrier.buffer)
    ensures Balanced(AddToContext(cfg, mem, s, f, r, carrier), acquired + Taken(carrier))
  {
    hide Complete, Balanced, WithSnapshot, Held;
    var was := s.contexts[f.key];
    var c := WithSnapshot(was, f);
    SnapshotRefs(was, f);
    SnapshotShape(was, f);
    var noted := s.(contexts := s.contexts[f.key := c]);
    if Judge(cfg, c, f) != Store {
      var refused := AddToContext(cfg, mem, s, f, r, Copied);
      assert refused.contexts == noted.contexts && refused.returned == s.returned;
      SameOwners(s, refused, acquired);
      GiveBackBalanced(refused, carrier, acquired);
    } else {
      var c' := StoreFragment(c, f, r);
      var stored := s.(contexts := s.contexts[f.key := c']);
      var acquired' := acquired + if r.Pooled? then multiset{r.buffer} else multiset{};
      StoreBalanced(s, f.key, c', f.header.fragIndex, r, acquired);
      var done := if c'.Complete() then Complete(cfg, mem, stored, f.key, None) else stored;
      if c'.Complete() {
        CompleteBalanced(cfg, mem, stored, f.key, None, acquired');
      }
      if !r.Pooled? {
        assert acquired' == acquired;
        GiveBackBalanced(done, carrier, acquired);
      }
    }
  }

  lemma ProcessBalanced(cfg: Config, mem: Memory, s: State, p: ParsedPacket, carrier: Carrier, now: u64, acquired: multiset<nat>)
    requires p.Valid() && ContextsShaped(s) && cfg.Valid() && Waiting(s) && Balanced(s, acquired)
    requires carrier.InBuffer? ==> !Held(s, carrier.buffer)
    ensures Balanced(Process(cfg, mem, s, p, carrier, now), acquired + Taken(carrier))
  {
    hide ParseFragment, AddToContext, ScanFrozen, Balanced, Coherent, Taken;
    match ParseFragment(cfg, p)
    case None =>
      var counted := s.(stats := s.stats.(received := s.stats.received + 1));
      SameOwners(s, counted, acquired);
      GiveBackBalanced(counted, carrier, acquired);
    case Some(f) =>
      var (ring, frozen) := ScanFrozen(s.frozen, f.key, now, 0);
      var scanned := s.(stats := s.stats.(received := s.stats.received + 1), frozen := ring);
      var readied := GetOrCreate(cfg, scanned, f, now);
      ReadiedOwners(cfg, scanned, f, now);
      NewContextCoherent(f.header.totalFrags, f.header.tailFragPayloadBytes, f.header.dataTimestamp, now);
      if frozen {
        var late := scanned.(stats := scanned.stats.(late := s.stats.late + 1));
        SameOwners(s, late, acquired);
        GiveBackBalanced(late, carrier, acquired);
      } else {
        SameOwners(s, readied, acquired);
        if f.key in readied.contexts {
          SameHeld(s, readied);
          AddBalanced(cfg, mem, readied, f, MakeRef(p.payload.value, carrier, f), carrier, acquired);
        } else {
          GiveBackBalanced(readied, carrier, acquired);
        }
      }
  }

  lemma ReadiedOwners(cfg: Config, s: State, f: Fragment, now: u64)
    ensures var s' := GetOrCreate(cfg, s, f, now);
      s'.returned == s.returned && forall k, i, b :: HeldAt(s', k, i, b) <==> HeldAt(s, k, i, b)
  {
  }

  lemma SameHeld(s: State, s': State)
    requires forall k, i, b :: HeldAt(s', k, i, b) <==> HeldAt(s, k, i, b)
    ensures forall b :: Held(s', b) <==> Held(s, b)
  {
  }

  lemma {:induction false} ExpireAllBalanced(cfg: Config, s: State, order: seq<Stamp>, timeoutMs: u32, acquired: multiset<nat>)
    requires ContextsShaped(s) && Balanced(s, acquired)
    ensures Balanced(ExpireAll(cfg, s, order, timeoutMs), acquired)
    decreases |order|
  {
    hide Complete, Balanced;
    if order != [] {
      var front, last := order[..|order| - 1], order[|order| - 1];
      ExpireAllBalanced(cfg, s, front, timeoutMs, acquired);
      var before := ExpireAll(cfg, s, front, timeoutMs);
      if last.key in before.contexts {
        CompleteBalanced(cfg, last.mem, before, last.key, Some((last.now + timeoutMs) % TWO64), acquired);
      }
    }
  }

  /** Every buffer handed over with a packet during the run. */
  function Acquired(events: seq<Event>): multiset<nat> {
    if events == [] then multiset{}
    else Acquired(events[..|events| - 1]) + match events[|events| - 1]
      case Arrive(_, carrier, _, _) => Taken(carrier)
      case _ => multiset{}
  }

  lemma StepBalanced(cfg: Config, w: World, e: Event, acquired: multiset<nat>)
    requires cfg.Valid() && ContextsShaped(w.s) && Allowed(cfg, w, e) && Sound(cfg, w.s) && Balanced(w.s, acquired)
    ensures Balanced(Step(cfg, w.s, e), acquired + if e.Arrive? then Taken(e.carrier) else multiset{})
  {
    hide Balanced, Process, ExpireAll, Sound, SweepAllowed, Taken;
    match e
    case Arrive(p, carrier, now, mem) =>
      SoundWaits(cfg, w.s);
      ProcessBalanced(cfg, mem, w.s, p, carrier, now, acquired);
    case Sweep(_, order, timeoutMs) =>
      ExpireAllBalanced(cfg, w.s, order, timeoutMs, acquired);
      assert acquired + multiset{} == acquired;
    case FlushAll(order, timeoutMs) =>
      ExpireAllBalanced(cfg, w.s, order, timeoutMs, acquired);
      assert acquired + multiset{} == acquired;
  }

  /** In every state of every run each buffer handed over has come back as often as it was handed
      over, save for the buffers a context still owns, which are owned once; when nothing is waiting
      any more, everything has come back. */
  lemma {:induction false} EveryBufferComesBackOnce(cfg: Config, events: seq<Event>, worlds: seq<World>)
    requires cfg.Valid() && WorldRun(cfg, events, worlds)
    ensures Sound(cfg, worlds[|events|].s)
    ensures Balanced(worlds[|events|].s, Acquired(events))
    ensures worlds[|events|].s.contexts == map[] ==> multiset(worlds[|events|].s.returned) == Acquired(events)
  {
    var n := |events| - 1;
    var last := worlds[|events|].s;
    if events == [] {
      assert forall b :: !Held(last, b);
    } else {
      hide Balanced, Step, Sound, Allowed;
      EveryBufferComesBackOnce(cfg, events[..n], worlds[..n + 1]);
      AllowedArrival(cfg, worlds[n], events[n]);
      StepSound(cfg, worlds[n].s, events[n]);
      StepBalanced(cfg, worlds[n], events[n], Acquired(events[..n]));
    }
    NothingHeld(last, Acquired(events));
  }

  lemma AllowedArrival(cfg: Config, w: World, e: Event)
    requires ContextsShaped(w.s) && Allowed(cfg, w, e)
    ensures e.Arrive? ==> e.packet.Valid()
  {
  }

  lemma SoundWaits(cfg: Config, s: State)
    requires Sound(cfg, s)
    ensures Waiting(s)
  {
  }

  lemma NothingHeld(s: State, acquired: multiset<nat>)
    requires Balanced(s, acquired)
    ensures s.contexts == map[] ==> multiset(s.returned) == acquired
  {
  }
}
