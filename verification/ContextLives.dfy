/** When a context is opened and when a timeout scan closes it, what it can hold, and what becomes of each packet, in
    terms of the packets that came before. */
module ContextLives {
  import opened Machine
  import opened Protocol
  import opened ReassemblyModel
  import opened Assembly
  import opened ReassemblyRuns
  import opened FrozenKeys

  // ----- who opened a context -----

  ghost function After(cfg: Config, events: seq<Event>): (s: State)
    requires cfg.Valid() && PacketsValid(events)
    ensures ContextsShaped(s)
  {
    RunFrom(cfg, Initial(cfg), events)
  }

  /** The arrival that opened the context which `key` has after the run. */
  ghost function OpenedBy(cfg: Config, events: seq<Event>, key: ReassemblyKey): Option<Event>
    requires cfg.Valid() && PacketsValid(events)
  {
    if events == [] || key !in After(cfg, events).contexts then None
    else
      var front := events[..|events| - 1];
      if key in After(cfg, front).contexts then OpenedBy(cfg, front, key) else Some(events[|events| - 1])
  }

  /** The context is the one that the arrival opened. */
  ghost predicate Began(cfg: Config, c: Context, e: Event) {
    && e.Arrive? && e.packet.Valid() && c.firstFragTime == e.now
    && var f := ParseFragment(cfg, e.packet);
       && f.Some? && c.totalFrags == f.value.header.totalFrags
       && c.tailBytes == f.value.header.tailFragPayloadBytes && c.dataTimestamp == f.value.header.dataTimestamp
  }

  /** What never changes in a context. */
  predicate SameOrigin(c: Context, d: Context) {
    c.firstFragTime == d.firstFragTime && c.totalFrags == d.totalFrags && c.tailBytes == d.tailBytes && c.dataTimestamp == d.dataTimestamp
  }

  ghost predicate Keeps(m: map<ReassemblyKey, Context>, m': map<ReassemblyKey, Context>) {
    forall k :: k in m' ==> k in m && SameOrigin(m[k], m'[k])
  }

  lemma AddKeeps(cfg: Config, mem: Memory, s: State, f: Fragment, r: FragmentRef, carrier: Carrier)
    requires f.key in s.contexts && s.contexts[f.key].Shape()
    ensures Keeps(s.contexts, AddToContext(cfg, mem, s, f, r, carrier).contexts)
  {
    hide AddToContext, Complete;
    AddCases(cfg, mem, s, f, r, carrier);
    var c := WithSnapshot(s.contexts[f.key], f);
    if Judge(cfg, c, f) == Store && StoreFragment(c, f, r).Complete() {
      CompleteEffect(cfg, mem, s.(contexts := s.contexts[f.key := StoreFragment(c, f, r)]), f.key, None);
    }
  }

  lemma ReadiedBegan(cfg: Config, s: State, p: ParsedPacket, carrier: Carrier, now: u64, mem: Memory, k: ReassemblyKey)
    requires p.Valid() && ParseFragment(cfg, p).Some? && k in GetOrCreate(cfg, s, ParseFragment(cfg, p).value, now).contexts
    ensures var c := GetOrCreate(cfg, s, ParseFragment(cfg, p).value, now).contexts[k];
      if k in s.contexts then c == s.contexts[k] else Began(cfg, c, Arrive(p, carrier, now, mem))
  {
    hide ParseFragment;
  }

  lemma BeganCarries(cfg: Config, c: Context, d: Context, e: Event)
    requires Began(cfg, c, e) && SameOrigin(c, d)
    ensures Began(cfg, d, e)
  {
  }

  lemma ProcessKeepsOrigins(cfg: Config, mem: Memory, s: State, p: ParsedPacket, carrier: Carrier, now: u64, k: ReassemblyKey)
    requires p.Valid() && ContextsShaped(s) && cfg.Valid() && k in Process(cfg, mem, s, p, carrier, now).contexts
    ensures var c := Process(cfg, mem, s, p, carrier, now).contexts[k];
      if k in s.contexts then SameOrigin(s.contexts[k], c) else Began(cfg, c, Arrive(p, carrier, now, mem))
  {
    hide ParseFragment, AddToContext, ScanFrozen, MakeRef, GetOrCreate, Began;
    match ParseFragment(cfg, p)
    case None =>
    case Some(f) =>
      var (ring, frozen) := ScanFrozen(s.frozen, f.key, now, 0);
      var scanned := s.(stats := s.stats.(received := s.stats.received + 1), frozen := ring);
      var readied := GetOrCreate(cfg, scanned, f, now);
      ReadiedShape(cfg, scanned, f, now);
      if !frozen {
        if f.key in readied.contexts {
          AddKeeps(cfg, mem, readied, f, MakeRef(p.payload.value, carrier, f), carrier);
        }
        ReadiedBegan(cfg, scanned, p, carrier, now, mem, k);
        if k !in s.contexts {
          BeganCarries(cfg, readied.contexts[k], Process(cfg, mem, s, p, carrier, now).contexts[k], Arrive(p, carrier, now, mem));
        }
      }
  }

  lemma StepKeepsOrigins(cfg: Config, s: State, e: Event, k: ReassemblyKey)
    requires ContextsShaped(s) && cfg.Valid() && (e.Arrive? ==> e.packet.Valid()) && k in Step(cfg, s, e).contexts
    ensures var c := Step(cfg, s, e).contexts[k]; if k in s.contexts then SameOrigin(s.contexts[k], c) else Began(cfg, c, e)
  {
    hide Process, ExpireAll, Began;
    match e
    case Arrive(p, carrier, now, mem) => ProcessKeepsOrigins(cfg, mem, s, p, carrier, now, k);
    case Sweep(_, order, timeoutMs) => ExpireAllRemoves(cfg, s, order, timeoutMs);
    case FlushAll(order, timeoutMs) => ExpireAllRemoves(cfg, s, order, timeoutMs);
  }

  /** In every reachable state an open context dates from the arrival that opened it: it has its time, its fragment
      count, its announced tail and its timestamp. */
  lemma {:induction false} ContextsDateFromTheirOpening(cfg: Config, events: seq<Event>, key: ReassemblyKey)
    requires cfg.Valid() && PacketsValid(events)
    ensures key in After(cfg, events).contexts <==> OpenedBy(cfg, events, key).Some?
    ensures key in After(cfg, events).contexts ==> Began(cfg, After(cfg, events).contexts[key], OpenedBy(cfg, events, key).value)
  {
    if events != [] {
      hide Step, Began;
      var front, e := events[..|events| - 1], events[|events| - 1];
      ContextsDateFromTheirOpening(cfg, front, key);
      if key in After(cfg, events).contexts {
        StepKeepsOrigins(cfg, After(cfg, front), e, key);
        if key in After(cfg, front).contexts {
          BeganCarries(cfg, After(cfg, front).contexts[key], After(cfg, events).contexts[key], OpenedBy(cfg, front, key).value);
        }
      }
    }
  }

  // ----- when a sweep closes it -----

  /** A timeout scan closes exactly the contexts opened at least the timeout ago, and leaves the others as they are. */
  lemma SweepClosesExactlyTheOverdue(cfg: Config, events: seq<Event>, now: u64, order: seq<Stamp>, timeoutMs: u32)
    requires cfg.Valid() && PacketsValid(events) && EventFits(After(cfg, events), Sweep(now, order, timeoutMs))
    ensures var s, s' := After(cfg, events), Step(cfg, After(cfg, events), Sweep(now, order, timeoutMs));
      && s'.contexts.Keys <= s.contexts.Keys
      && forall k :: k in s.contexts ==>
           && OpenedBy(cfg, events, k).Some? && OpenedBy(cfg, events, k).value.Arrive?
           && (k !in s'.contexts <==> Overdue(OpenedBy(cfg, events, k).value.now, now, timeoutMs))
           && (k in s'.contexts ==> s'.contexts[k] == s.contexts[k])
  {
    hide Step, RunFrom, EventFits, Overdue, OpenedBy, ParseFragment;
    var s := After(cfg, events);
    SweepsAreExact(cfg, s, Sweep(now, order, timeoutMs));
    forall k | k in s.contexts
      ensures OpenedBy(cfg, events, k).Some? && OpenedBy(cfg, events, k).value.Arrive?
      ensures s.contexts[k].firstFragTime == OpenedBy(cfg, events, k).value.now
    {
      ContextsDateFromTheirOpening(cfg, events, k);
    }
  }

  /** Setting the clock back closes every context opened after the new time, however young it is. */
  lemma ClockSetBackClosesTheYoung(cfg: Config, events: seq<Event>, now: u64, order: seq<Stamp>, timeoutMs: u32, key: ReassemblyKey)
    requires cfg.Valid() && PacketsValid(events) && EventFits(After(cfg, events), Sweep(now, order, timeoutMs))
    requires key in After(cfg, events).contexts && timeoutMs <= now
    ensures OpenedBy(cfg, events, key).Some? && OpenedBy(cfg, events, key).value.Arrive?
    ensures now < OpenedBy(cfg, events, key).value.now ==> key !in Step(cfg, After(cfg, events), Sweep(now, order, timeoutMs)).contexts
  {
    hide RunFrom, EventFits, OpenedBy;
    SweepClosesExactlyTheOverdue(cfg, events, now, order, timeoutMs);
  }

  // ----- what a context can hold -----

  ghost predicate WithinLimit(cfg: Config, s: State) {
    forall k :: k in s.contexts ==> Sum(s.contexts[k].sizes) <= cfg.maxReasmBytes
  }

  lemma CompleteWithinLimit(cfg: Config, mem: Memory, s: State, key: ReassemblyKey, expireMs: Option<u64>)
    requires WithinLimit(cfg, s) && key in s.contexts && s.contexts[key].Shape()
    ensures WithinLimit(cfg, Complete(cfg, mem, s, key, expireMs))
  {
    hide Complete;
    CompleteEffect(cfg, mem, s, key, expireMs);
  }

  lemma StoredWithinLimit(cfg: Config, c: Context, f: Fragment, r: FragmentRef)
    requires Coherent(c) && Judge(cfg, c, f) == Store
    ensures Sum(StoreFragment(c, f, r).sizes) <= cfg.maxReasmBytes
  {
    SumSet(c.sizes, f.header.fragIndex, f.size);
  }

  lemma AddWithinLimit(cfg: Config, mem: Memory, s: State, f: Fragment, r: FragmentRef, carrier: Carrier)
    requires f.key in s.contexts && Coherent(s.contexts[f.key]) && WithinLimit(cfg, s) && s.contexts[f.key].Shape()
    ensures WithinLimit(cfg, AddToContext(cfg, mem, s, f, r, carrier))
  {
    hide AddToContext, Complete, StoreFragment, Coherent, Sum;
    AddCases(cfg, mem, s, f, r, carrier);
    SnapshotCoherent(s.contexts[f.key], f);
    var c := WithSnapshot(s.contexts[f.key], f);
    assert c.sizes == s.contexts[f.key].sizes;
    if Judge(cfg, c, f) == Store {
      StoredWithinLimit(cfg, c, f, r);
      StoreShaped(cfg, c, f, r);
      var stored := s.(contexts := s.contexts[f.key := StoreFragment(c, f, r)]);
      assert WithinLimit(cfg, stored);
      if StoreFragment(c, f, r).Complete() {
        CompleteWithinLimit(cfg, mem, stored, f.key, None);
      }
    }
  }

  lemma FreshHoldsNothing(totalFrags: u16, tailBytes: u16, ts: u64, now: u64)
    ensures Sum(NewContext(totalFrags, tailBytes, ts, now).sizes) == 0
  {
    SumZero(seq(totalFrags, _ => 0));
  }

  lemma ReadiedWithinLimit(cfg: Config, s: State, f: Fragment, now: u64)
    requires WithinLimit(cfg, s)
    ensures WithinLimit(cfg, GetOrCreate(cfg, s, f, now))
  {
    hide NewContext, Sum;
    FreshHoldsNothing(f.header.totalFrags, f.header.tailFragPayloadBytes, f.header.dataTimestamp, now);
  }

  lemma ProcessWithinLimit(cfg: Config, mem: Memory, s: State, p: ParsedPacket, carrier: Carrier, now: u64)
    requires p.Valid() && ContextsShaped(s) && cfg.Valid() && Sound(cfg, s) && WithinLimit(cfg, s)
    ensures WithinLimit(cfg, Process(cfg, mem, s, p, carrier, now))
  {
    hide ParseFragment, AddToContext, ScanFrozen, MakeRef, GetOrCreate, Sum, Coherent;
    match ParseFragment(cfg, p)
    case None =>
    case Some(f) =>
      var scanned := s.(stats := s.stats.(received := s.stats.received + 1), frozen := ScanFrozen(s.frozen, f.key, now, 0).0);
      var readied := GetOrCreate(cfg, scanned, f, now);
      SoundCarries(cfg, s, scanned);
      ReadiedSound(cfg, scanned, f, now);
      ReadiedWithinLimit(cfg, scanned, f, now);
      if f.key in readied.contexts {
        AddWithinLimit(cfg, mem, readied, f, MakeRef(p.payload.value, carrier, f), carrier);
      }
  }

  /** In every reachable state no context holds more bytes than the limit. */
  lemma {:induction false} EveryContextIsWithinTheLimit(cfg: Config, events: seq<Event>)
    requires cfg.Valid() && PacketsValid(events)
    ensures WithinLimit(cfg, After(cfg, events))
  {
    if events != [] {
      hide WithinLimit, Process, ExpireAll, Sound;
      var front, e := events[..|events| - 1], events[|events| - 1];
      EveryContextIsWithinTheLimit(cfg, front);
      EveryRunIsSound(cfg, front);
      var s := After(cfg, front);
      match e
      case Arrive(p, carrier, now, mem) => ProcessWithinLimit(cfg, mem, s, p, carrier, now);
      case Sweep(_, order, timeoutMs) => RemovedWithinLimit(cfg, s, order, timeoutMs);
      case FlushAll(order, timeoutMs) => RemovedWithinLimit(cfg, s, order, timeoutMs);
    } else {
      assert After(cfg, events).contexts == map[];
    }
  }

  lemma RemovedWithinLimit(cfg: Config, s: State, order: seq<Stamp>, timeoutMs: u32)
    requires ContextsShaped(s) && WithinLimit(cfg, s)
    ensures WithinLimit(cfg, ExpireAll(cfg, s, order, timeoutMs))
  {
    hide ExpireAll;
    ExpireAllRemoves(cfg, s, order, timeoutMs);
  }

  // ----- what becomes of a packet -----

  /** What has been collected under a key: which pieces, how many bytes, and what its first packet announced. */
  datatype Collection = Collection(pieces: set<nat>, bytes: nat, total: nat, tail: nat)

  ghost function Collected(c: Context): Collection
    requires c.Shape()
  {
    Collection((set i | 0 <= i < MAX_FRAGMENTS && c.received[i]), Sum(c.sizes), c.totalFrags, c.tailBytes)
  }

  /** What the packet finds under its key: with no context, nothing but what it announces itself. */
  ghost function Found(s: State, f: Fragment): Collection
    requires ContextsShaped(s)
  {
    if f.key in s.contexts then Collected(s.contexts[f.key])
    else Collection({}, 0, f.header.totalFrags, f.header.tailFragPayloadBytes)
  }

  /** The key is not frozen, and it has a context or there is room for one. */
  ghost predicate Admitted(cfg: Config, s: State, f: Fragment, now: u64) {
    !IsFrozen(s.frozen, f.key, now) && (f.key in s.contexts || |s.contexts| < cfg.maxContexts)
  }

  /** A new piece of the frame as it was announced. */
  predicate IsNew(was: Collection, f: Fragment) {
    f.header.fragIndex < was.total && f.header.fragIndex !in was.pieces
  }

  /** A new piece that fits the limit and has the length it should have: the announced one for a tail, some for any other. */
  predicate IsKept(cfg: Config, was: Collection, f: Fragment) {
    && IsNew(was, f) && was.bytes + f.size <= cfg.maxReasmBytes
    && if f.header.fragIndex + 1 == f.header.totalFrags then f.size == was.tail else f.size > 0
  }

  function Gains(was: Collection, f: Fragment): Collection {
    was.(pieces := was.pieces + {f.header.fragIndex}, bytes := was.bytes + f.size)
  }

  predicate HasAll(w: Collection) {
    forall i :: 0 <= i < w.total ==> i in w.pieces
  }

  /** Which counters the packet moves. */
  ghost predicate Counted(cfg: Config, s: State, s': State, f: Fragment, now: u64)
    requires ContextsShaped(s)
  {
    var was, frozen := Found(s, f), IsFrozen(s.frozen, f.key, now);
    && s'.stats.late == s.stats.late + (if frozen then 1 else 0)
    && s'.stats.overflow == s.stats.overflow + (if !frozen && !Admitted(cfg, s, f, now) then 1 else 0)
    && s'.stats.created == s.stats.created + (if Admitted(cfg, s, f, now) && f.key !in s.contexts then 1 else 0)
    && s'.stats.duplicate == s.stats.duplicate + (if Admitted(cfg, s, f, now) && f.header.fragIndex in was.pieces then 1 else 0)
    && s'.stats.bytesOverflow == s.stats.bytesOverflow +
         (if Admitted(cfg, s, f, now) && IsNew(was, f) && was.bytes + f.size > cfg.maxReasmBytes then 1 else 0)
  }

  /** What is left under a key, which goes out as a frame when it is the whole; other keys are untouched. */
  ghost predicate Leaves(s: State, s': State, key: ReassemblyKey, holds: Collection) {
    && s'.contexts - {key} == s.contexts - {key}
    && if HasAll(holds) then key !in s'.contexts && |s'.frames| == |s.frames| + 1 && s'.frames[|s.frames|].key == key
       else key in s'.contexts && s'.contexts[key].Shape() && Collected(s'.contexts[key]) == holds && s'.frames == s.frames
  }

  /** A packet that is admitted adds its piece to what was found if it is to be kept; any other changes nothing. */
  ghost predicate Kept(cfg: Config, s: State, s': State, f: Fragment, now: u64)
    requires ContextsShaped(s)
  {
    if Admitted(cfg, s, f, now) then Leaves(s, s', f.key, if IsKept(cfg, Found(s, f), f) then Gains(Found(s, f), f) else Found(s, f))
    else s'.contexts == s.contexts && s'.frames == s.frames
  }

  lemma JudgedInWords(cfg: Config, c: Context, f: Fragment)
    requires Coherent(c)
    ensures Judge(cfg, c, f) == Repeated <==> f.header.fragIndex in Collected(c).pieces
    ensures Judge(cfg, c, f) == TooLong <==> IsNew(Collected(c), f) && Collected(c).bytes + f.size > cfg.maxReasmBytes
    ensures Judge(cfg, c, f) == Store <==> IsKept(cfg, Collected(c), f)
  {
    hide Sum, Count;
  }

  lemma StoredInWords(cfg: Config, c: Context, f: Fragment, r: FragmentRef)
    requires Coherent(c) && Judge(cfg, c, f) == Store
    ensures StoreFragment(c, f, r).Shape() && Collected(StoreFragment(c, f, r)) == Gains(Collected(c), f)
  {
    var i := f.header.fragIndex;
    SumSet(c.sizes, i, f.size);
    var c' := StoreFragment(c, f, r);
    assert forall j :: 0 <= j < MAX_FRAGMENTS ==> c'.received[j] == (c.received[j] || j == i);
    assert Collected(c').pieces == Collected(c).pieces + {i};
  }

  lemma CompleteInWords(c: Context)
    requires Coherent(c)
    ensures c.Complete() <==> HasAll(Collected(c))
  {
    hide Sum, Count;
    CompleteIffAllReceived(c);
    assert forall i :: 0 <= i < c.totalFrags ==> (c.received[i] <==> i in Collected(c).pieces);
  }

  lemma NothingFoundYet(f: Fragment, now: u64)
    requires 0 < f.header.totalFrags <= MAX_FRAGMENTS
    ensures var c := NewContext(f.header.totalFrags, f.header.tailFragPayloadBytes, f.header.dataTimestamp, now);
      c.Shape() && Collected(c) == Collection({}, 0, f.header.totalFrags, f.header.tailFragPayloadBytes)
  {
    FreshHoldsNothing(f.header.totalFrags, f.header.tailFragPayloadBytes, f.header.dataTimestamp, now);
  }

  lemma SnapshotCollects(c: Context, f: Fragment)
    requires Coherent(c)
    ensures Coherent(WithSnapshot(c, f)) && WithSnapshot(c, f).Shape() && Collected(WithSnapshot(c, f)) == Collected(c)
    ensures WithSnapshot(c, f).Complete() == c.Complete()
  {
    hide Sum, Count;
  }

  lemma RefusedLeaves(cfg: Config, mem: Memory, s: State, f: Fragment, r: FragmentRef, carrier: Carrier)
    requires f.key in s.contexts && Coherent(s.contexts[f.key]) && s.contexts[f.key].Shape() && !s.contexts[f.key].Complete()
    requires Judge(cfg, WithSnapshot(s.contexts[f.key], f), f) != Store
    ensures Leaves(s, AddToContext(cfg, mem, s, f, r, carrier), f.key, Collected(s.contexts[f.key]))
  {
    hide AddToContext, Coherent, Collected, Judge, WithSnapshot, HasAll, Context.Complete;
    var c := s.contexts[f.key];
    AddCases(cfg, mem, s, f, r, carrier);
    SnapshotCollects(c, f);
    CompleteInWords(c);
    assert s.contexts[f.key := WithSnapshot(c, f)] - {f.key} == s.contexts - {f.key};
  }

  lemma StoredLeaves(cfg: Config, mem: Memory, s: State, f: Fragment, r: FragmentRef, carrier: Carrier)
    requires f.key in s.contexts && Coherent(s.contexts[f.key]) && s.contexts[f.key].Shape() && RefSize(r) == f.size
    requires Judge(cfg, WithSnapshot(s.contexts[f.key], f), f) == Store
    ensures Leaves(s, AddToContext(cfg, mem, s, f, r, carrier), f.key, Gains(Collected(s.contexts[f.key]), f))
  {
    hide AddToContext, Complete, Coherent, Collected, WithSnapshot, HasAll, Context.Complete, StoreFragment, Gains, MakeFrame;
    AddCases(cfg, mem, s, f, r, carrier);
    SnapshotCollects(s.contexts[f.key], f);
    var c := WithSnapshot(s.contexts[f.key], f);
    StoreCoherent(cfg, c, f, r);
    StoredInWords(cfg, c, f, r);
    var c' := StoreFragment(c, f, r);
    CompleteInWords(c');
    var stored := s.(contexts := s.contexts[f.key := c']);
    assert stored.contexts - {f.key} == s.contexts - {f.key};
    if c'.Complete() {
      CompleteEffect(cfg, mem, stored, f.key, None);
      MadeKey(cfg, mem, f.key, c');
    }
  }

  /** The counters that storing a fragment moves. */
  lemma AddCounts(cfg: Config, mem: Memory, s: State, f: Fragment, r: FragmentRef, carrier: Carrier)
    requires f.key in s.contexts && Coherent(s.contexts[f.key]) && s.contexts[f.key].Shape()
    ensures var s', was := AddToContext(cfg, mem, s, f, r, carrier), Collected(s.contexts[f.key]);
      && s'.stats.late == s.stats.late && s'.stats.overflow == s.stats.overflow && s'.stats.created == s.stats.created
      && s'.stats.duplicate == s.stats.duplicate + (if f.header.fragIndex in was.pieces then 1 else 0)
      && s'.stats.bytesOverflow == s.stats.bytesOverflow + (if IsNew(was, f) && was.bytes + f.size > cfg.maxReasmBytes then 1 else 0)
  {
    hide Coherent, Collected, Judge, WithSnapshot, Context.Complete, StoreFragment, MakeFrame, HeldBuffers, IsKept, IsNew;
    SnapshotCollects(s.contexts[f.key], f);
    var c := WithSnapshot(s.contexts[f.key], f);
    JudgedInWords(cfg, c, f);
    if Judge(cfg, c, f) == Store {
      StoreShaped(cfg, c, f, r);
    }
  }

  /** Opening a context finds what the packet announces, and counts. */
  lemma ReadiedFinds(cfg: Config, s: State, f: Fragment, now: u64)
    requires ContextsShaped(s) && 0 < f.header.totalFrags <= MAX_FRAGMENTS
    ensures var s' := GetOrCreate(cfg, s, f, now); var room := f.key in s.contexts || |s.contexts| < cfg.maxContexts;
      && (f.key in s'.contexts <==> room)
      && (room ==> s'.contexts[f.key].Shape() && Collected(s'.contexts[f.key]) == Found(s, f))
      && (!room ==> s'.contexts == s.contexts)
      && s'.contexts - {f.key} == s.contexts - {f.key} && s'.frames == s.frames && s'.frozen == s.frozen
      && s'.stats == s.stats.(overflow := s.stats.overflow + (if room then 0 else 1),
                              created := s.stats.created + (if room && f.key !in s.contexts then 1 else 0))
  {
    hide NewContext, Collected;
    NothingFoundYet(f, now);
  }

  lemma LeavesCarries(s: State, t: State, s': State, key: ReassemblyKey, holds: Collection)
    requires Leaves(t, s', key, holds) && t.contexts - {key} == s.contexts - {key} && t.frames == s.frames
    ensures Leaves(s, s', key, holds)
  {
  }

  lemma AddLeaves(cfg: Config, mem: Memory, s: State, f: Fragment, r: FragmentRef, carrier: Carrier)
    requires f.key in s.contexts && Coherent(s.contexts[f.key]) && s.contexts[f.key].Shape() && !s.contexts[f.key].Complete()
    requires RefSize(r) == f.size
    ensures var was := Collected(s.contexts[f.key]);
      Leaves(s, AddToContext(cfg, mem, s, f, r, carrier), f.key, if IsKept(cfg, was, f) then Gains(was, f) else was)
  {
    hide Leaves, AddToContext, IsKept, Gains, Collected, Coherent, Judge, Context.Complete, WithSnapshot;
    SnapshotCollects(s.contexts[f.key], f);
    var c := WithSnapshot(s.contexts[f.key], f);
    JudgedInWords(cfg, c, f);
    if Judge(cfg, c, f) == Store {
      StoredLeaves(cfg, mem, s, f, r, carrier);
    } else {
      RefusedLeaves(cfg, mem, s, f, r, carrier);
    }
  }

  lemma SameFound(s: State, s': State, f: Fragment)
    requires ContextsShaped(s) && ContextsShaped(s') && s'.contexts == s.contexts
    ensures Found(s, f) == Found(s', f)
  {
  }

  lemma ProcessJudged(cfg: Config, mem: Memory, s: State, p: ParsedPacket, carrier: Carrier, now: u64, f: Fragment)
    requires p.Valid() && ContextsShaped(s) && cfg.Valid() && Sound(cfg, s) && ParseFragment(cfg, p) == Some(f)
    ensures var s' := Process(cfg, mem, s, p, carrier, now); Counted(cfg, s, s', f, now) && Kept(cfg, s, s', f, now)
  {
    hide ParseFragment, AddToContext, ScanFrozen, MakeRef, GetOrCreate, Collected, Found, IsFrozen, IsKept, IsNew, Gains, HasAll,
         Coherent, Context.Complete, Leaves, ContextsShaped;
    var s' := Process(cfg, mem, s, p, carrier, now);
    FrozenIffScanned(s.frozen, f.key, now);
    var (ring, frozen) := ScanFrozen(s.frozen, f.key, now, 0);
    var scanned := s.(stats := s.stats.(received := s.stats.received + 1), frozen := ring);
    var readied := GetOrCreate(cfg, scanned, f, now);
    ShapedCarries(s, scanned);
    SameFound(s, scanned, f);
    ReadiedFinds(cfg, scanned, f, now);
    SoundCarries(cfg, s, scanned);
    ReadiedSound(cfg, scanned, f, now);
    if !frozen && f.key in readied.contexts {
      var r := MakeRef(p.payload.value, carrier, f);
      RefSizeOf(p.payload.value, carrier, f);
      AddCounts(cfg, mem, readied, f, r, carrier);
      AddLeaves(cfg, mem, readied, f, r, carrier);
      LeavesCarries(s, readied, s', f.key, if IsKept(cfg, Found(s, f), f) then Gains(Found(s, f), f) else Found(s, f));
    }
  }

  lemma ShapedCarries(s: State, s': State)
    requires ContextsShaped(s) && s'.contexts == s.contexts
    ensures ContextsShaped(s')
  {
  }

  /** In every reachable state: which counters a packet moves and whether its piece is kept is decided by whether its key
      is frozen, whether there is a context or room for one, the pieces and bytes collected so far, and what the first
      packet of the frame announced; and the piece that makes the frame whole sends it out. */
  lemma PacketsAreJudgedByWhatCameBefore(cfg: Config, events: seq<Event>, p: ParsedPacket, carrier: Carrier, now: u64, mem: Memory)
    requires cfg.Valid() && PacketsValid(events) && p.Valid() && ParseFragment(cfg, p).Some?
    ensures var s, f := After(cfg, events), ParseFragment(cfg, p).value; var s' := Process(cfg, mem, s, p, carrier, now);
      Counted(cfg, s, s', f, now) && Kept(cfg, s, s', f, now)
  {
    hide Process, RunFrom, Counted, Kept, ParseFragment;
    EveryRunIsSound(cfg, events);
    ProcessJudged(cfg, mem, After(cfg, events), p, carrier, now, ParseFragment(cfg, p).value);
  }

  // ----- how long a swept key stays out -----

  lemma {:induction false} ExpireAllSplit(cfg: Config, s: State, a: seq<Stamp>, b: seq<Stamp>, timeoutMs: u32)
    requires ContextsShaped(s)
    ensures ExpireAll(cfg, s, a + b, timeoutMs) == ExpireAll(cfg, ExpireAll(cfg, s, a, timeoutMs), b, timeoutMs)
    decreases |b|
  {
    hide Complete;
    if b == [] {
      assert a + b == a;
    } else {
      var n := |b| - 1;
      ExpireAllSplit(cfg, s, a, b[..n], timeoutMs);
      assert (a + b)[..|a + b| - 1] == a + b[..n];
    }
  }

  lemma CompleteKeepsRingSize(cfg: Config, mem: Memory, s: State, key: ReassemblyKey, expireMs: Option<u64>)
    requires key in s.contexts && s.contexts[key].Shape()
    ensures |Complete(cfg, mem, s, key, expireMs).frozen| == |s.frozen|
  {
    hide MakeFrame, HeldBuffers;
  }

  lemma {:induction false} ExpireAllKeepsRingSize(cfg: Config, s: State, order: seq<Stamp>, timeoutMs: u32)
    requires ContextsShaped(s)
    ensures |ExpireAll(cfg, s, order, timeoutMs).frozen| == |s.frozen|
    decreases |order|
  {
    hide Complete;
    if order != [] {
      var front, last := order[..|order| - 1], order[|order| - 1];
      ExpireAllKeepsRingSize(cfg, s, front, timeoutMs);
      var before := ExpireAll(cfg, s, front, timeoutMs);
      if last.key in before.contexts {
        CompleteKeepsRingSize(cfg, last.mem, before, last.key, Some((last.now + timeoutMs) % TWO64));
      }
    }
  }

  /** The ring has two entries for each context there can be, and at least one. */
  lemma {:induction false} RingSizeIsFixed(cfg: Config, events: seq<Event>)
    requires cfg.Valid() && PacketsValid(events)
    ensures |After(cfg, events).frozen| == if cfg.maxContexts == 0 then 1 else 2 * cfg.maxContexts
  {
    if events != [] {
      hide Process, ExpireAll;
      var front, e := events[..|events| - 1], events[|events| - 1];
      RingSizeIsFixed(cfg, front);
      var s := After(cfg, front);
      match e
      case Arrive(p, carrier, now, mem) => ProcessFrame(cfg, mem, s, p, carrier, now);
      case Sweep(_, order, timeoutMs) => ExpireAllKeepsRingSize(cfg, s, order, timeoutMs);
      case FlushAll(order, timeoutMs) => ExpireAllKeepsRingSize(cfg, s, order, timeoutMs);
    }
  }

  lemma FrozenUntil(s: State, p: nat, key: ReassemblyKey, expireMs: u64)
    requires Separated(s) && FrozenAt(s, p, key, expireMs)
    ensures key !in s.contexts
    ensures forall n: u64 :: IsFrozen(s.frozen, key, n) <==> n < expireMs
  {
    assert Live(s.frozen[p], key);
  }

  /** Closing a context as timed out puts its key into the ring, with as much room behind it as the ring has. */
  lemma CompletedIsFrozen(cfg: Config, mem: Memory, s: State, key: ReassemblyKey, expireMs: u64)
    requires Separated(s) && key in s.contexts && s.contexts[key].Shape()
    ensures var s' := Complete(cfg, mem, s, key, Some(expireMs));
      && s'.frozenNext < |s'.frozen| == |s.frozen|
      && FrozenAt(s', s.frozenNext, key, expireMs) && Room(s', s.frozenNext) == |s.frozen| - 1
  {
    hide MakeFrame, HeldBuffers;
    AddFrozenSpec(s, key, expireMs);
    assert forall i :: 0 <= i < |s.frozen| ==> !Live(s.frozen[i], key);
    assert FindFrozen(s.frozen, key, 0) == |s.frozen|;
  }

  /** A key closed as timed out by the sweep or flush `e` stays out, and is exactly frozen until the timeout after the
      clock reading taken for it, in any further run whose packets come before that and which, with the rest of the
      sweep, freezes fewer keys than the ring has entries. */
  lemma SweptKeyIsFrozenExactlyUntil(cfg: Config, events: seq<Event>, e: Event, i: nat, more: seq<Event>)
    requires cfg.Valid() && PacketsValid(events) && PacketsValid(more) && !e.Arrive? && EventFits(After(cfg, events), e) && i < |e.order|
    requires Before(more, (e.order[i].now + e.timeoutMs) % TWO64)
    requires |e.order| - 1 - i + Freezes(more) < if cfg.maxContexts == 0 then 1 else 2 * cfg.maxContexts
    ensures var key, expiry := e.order[i].key, (e.order[i].now + e.timeoutMs) % TWO64;
      var s := Step(cfg, After(cfg, events), e);
      && ContextsShaped(s)
      && var s' := RunFrom(cfg, s, more);
         && key !in s'.contexts && |s.frames| <= |s'.frames| && NoFrameOf(s'.frames, key, |s.frames|)
         && forall n: u64 :: IsFrozen(s'.frozen, key, n) <==> n < expiry
  {
    hide Complete, RunFrom, IsFrozen, FrozenAt, Room, Separated, ExpireAll, EventFits, Before, NoFrameOf;
    var s, order, t := After(cfg, events), e.order, e.timeoutMs;
    var key, expiry := order[i].key, (order[i].now + t) % TWO64;
    RingSizeIsFixed(cfg, events);
    ContextsAndFrozenKeysAreDisjoint(cfg, events);
    var before := ExpireAll(cfg, s, order[..i], t);
    StillOpen(cfg, s, e, i);
    ExpireAllSeparated(cfg, s, order[..i], t);
    ExpireAllKeepsRingSize(cfg, s, order[..i], t);
    var closed := Complete(cfg, order[i].mem, before, key, Some(expiry));
    var p := before.frozenNext;
    CompletedIsFrozen(cfg, order[i].mem, before, key, expiry);
    CompleteSeparated(cfg, order[i].mem, before, key, Some(expiry));
    ExpireTail(cfg, s, order, i, t);
    var swept := ExpireAll(cfg, closed, order[i + 1..], t);
    ExpireAllKeepsFrozen(cfg, closed, order[i + 1..], t, p, key, expiry, |closed.frames|);
    ExpireAllSeparated(cfg, closed, order[i + 1..], t);
    RunKeepsFrozen(cfg, swept, more, p, key, expiry, |swept.frames|);
    FrozenUntil(RunFrom(cfg, swept, more), p, key, expiry);
  }

  lemma StillOpen(cfg: Config, s: State, e: Event, i: nat)
    requires ContextsShaped(s) && !e.Arrive? && EventFits(s, e) && i < |e.order|
    ensures e.order[i].key in ExpireAll(cfg, s, e.order[..i], e.timeoutMs).contexts
  {
    hide ExpireAll;
    ExpireAllRemoves(cfg, s, e.order[..i], e.timeoutMs);
  }

  lemma ExpireTail(cfg: Config, s: State, order: seq<Stamp>, i: nat, timeoutMs: u32)
    requires ContextsShaped(s) && i < |order|
    requires order[i].key in ExpireAll(cfg, s, order[..i], timeoutMs).contexts
    ensures var closed := Complete(cfg, order[i].mem, ExpireAll(cfg, s, order[..i], timeoutMs), order[i].key,
                                   Some((order[i].now + timeoutMs) % TWO64));
      && ContextsShaped(closed)
      && ExpireAll(cfg, s, order, timeoutMs) == ExpireAll(cfg, closed, order[i + 1..], timeoutMs)
  {
    hide Complete;
    var head := order[..i + 1];
    assert head[..i] == order[..i] && order == head + order[i + 1..];
    ExpireAllSplit(cfg, s, head, order[i + 1..], timeoutMs);
  }
}
