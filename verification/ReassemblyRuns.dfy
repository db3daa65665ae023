/** What every run of the reassembler keeps, and what every frame it emits is. */
module ReassemblyRuns {
  import opened Machine
  import opened Protocol
  import opened ReassemblyModel
  import opened Assembly

  /** Between calls every context is coherent and still waits for a fragment. */
  ghost predicate Waiting(s: State) {
    forall k :: k in s.contexts ==> Coherent(s.contexts[k]) && !s.contexts[k].Complete()
  }

  /** The table respects its bound, and every context ever opened is open or was closed by emitting one frame. */
  predicate Ledger(cfg: Config, s: State) {
    && |s.contexts| <= cfg.maxContexts
    && s.stats.created == s.stats.destroyed + |s.contexts|
    && |s.frames| == s.stats.destroyed == s.stats.completed + s.stats.incomplete
  }

  ghost predicate Sound(cfg: Config, s: State) {
    Waiting(s) && Ledger(cfg, s)
  }

  lemma RemovedContext(m: map<ReassemblyKey, Context>, k: ReassemblyKey)
    requires k in m
    ensures |m - {k}| == |m| - 1
  {
  }

  lemma ReplacedContext(m: map<ReassemblyKey, Context>, k: ReassemblyKey, c: Context)
    ensures |m[k := c]| == if k in m then |m| else |m| + 1
  {
  }

  /** `Waiting` but for the one context that has just become complete. */
  ghost predicate WaitingBut(s: State, key: ReassemblyKey) {
    forall k :: k in s.contexts ==> Coherent(s.contexts[k]) && (k != key ==> !s.contexts[k].Complete())
  }

  lemma FreezingOnlyTouchesTheRing(s: State, key: ReassemblyKey, expireMs: u64)
    ensures var s' := AddFrozen(s, key, expireMs); s' == s.(frozen := s'.frozen, frozenNext := s'.frozenNext)
  {
  }

  /** What closing a context changes, the frozen ring and the returned buffers aside. */
  lemma CompleteEffect(cfg: Config, mem: Memory, s: State, key: ReassemblyKey, expireMs: Option<u64>)
    requires key in s.contexts && s.contexts[key].Shape()
    ensures var s' := Complete(cfg, mem, s, key, expireMs);
      && s'.frames == s.frames + [MakeFrame(cfg, mem, key, s.contexts[key])]
      && s'.contexts == s.contexts - {key}
      && |s'.contexts| == |s.contexts| - 1
      && s'.stats.created == s.stats.created && s'.stats.destroyed == s.stats.destroyed + 1
      && s'.stats.completed + s'.stats.incomplete == s.stats.completed + s.stats.incomplete + 1
  {
    hide MakeFrame, HeldBuffers, AddFrozen;
    RemovedContext(s.contexts, key);
    var f := MakeFrame(cfg, mem, key, s.contexts[key]);
    var emitted := s.(frames := s.frames + [f], stats := CountFrame(s.stats, f, expireMs.Some?));
    if expireMs.Some? {
      FreezingOnlyTouchesTheRing(emitted, key, expireMs.value);
    }
  }

  lemma CompleteSound(cfg: Config, mem: Memory, s: State, key: ReassemblyKey, expireMs: Option<u64>)
    requires WaitingBut(s, key) && Ledger(cfg, s) && key in s.contexts && ContextsShaped(s)
    ensures Sound(cfg, Complete(cfg, mem, s, key, expireMs))
  {
    hide Complete, Coherent, MakeFrame;
    CompleteEffect(cfg, mem, s, key, expireMs);
  }

  /** What storing a fragment comes to, the returned buffers aside. */
  lemma AddCases(cfg: Config, mem: Memory, s: State, f: Fragment, r: FragmentRef, carrier: Carrier)
    requires f.key in s.contexts && s.contexts[f.key].Shape()
    ensures
      var s' := AddToContext(cfg, mem, s, f, r, carrier);
      var c := WithSnapshot(s.contexts[f.key], f);
      if Judge(cfg, c, f) != Store then
        && s'.contexts == s.contexts[f.key := c] && s'.frames == s.frames
        && s'.stats == s.stats.(duplicate := s'.stats.duplicate, bytesOverflow := s'.stats.bytesOverflow)
      else
        var c' := StoreFragment(c, f, r);
        var stored := s.(contexts := s.contexts[f.key := c']);
        var done := if c'.Complete() then Complete(cfg, mem, stored, f.key, None) else stored;
        s' == done.(returned := s'.returned)
  {
  }

  lemma SnapshotCoherent(c: Context, f: Fragment)
    requires Coherent(c)
    ensures Coherent(WithSnapshot(c, f)) && WithSnapshot(c, f).Shape() && WithSnapshot(c, f).Complete() == c.Complete()
  {
  }

  lemma RefusedSound(cfg: Config, mem: Memory, s: State, f: Fragment, r: FragmentRef, carrier: Carrier)
    requires Sound(cfg, s) && ContextsShaped(s) && f.key in s.contexts
    requires Judge(cfg, WithSnapshot(s.contexts[f.key], f), f) != Store
    ensures Sound(cfg, AddToContext(cfg, mem, s, f, r, carrier))
  {
    hide Coherent, Complete, AddToContext, WithSnapshot, Judge;
    AddCases(cfg, mem, s, f, r, carrier);
    SnapshotCoherent(s.contexts[f.key], f);
    ReplacedContext(s.contexts, f.key, WithSnapshot(s.contexts[f.key], f));
  }

  lemma StoredSound(cfg: Config, mem: Memory, s: State, f: Fragment, r: FragmentRef, carrier: Carrier)
    requires Sound(cfg, s) && ContextsShaped(s) && f.key in s.contexts && RefSize(r) == f.size
    requires Judge(cfg, WithSnapshot(s.contexts[f.key], f), f) == Store
    ensures Sound(cfg, AddToContext(cfg, mem, s, f, r, carrier))
  {
    hide Coherent, Complete, StoreFragment, AddToContext, WithSnapshot;
    var c := WithSnapshot(s.contexts[f.key], f);
    AddCases(cfg, mem, s, f, r, carrier);
    SnapshotCoherent(s.contexts[f.key], f);
    StoreCoherent(cfg, c, f, r);
    var c' := StoreFragment(c, f, r);
    CoherentShape(c');
    ReplacedContext(s.contexts, f.key, c');
    var stored := s.(contexts := s.contexts[f.key := c']);
    assert WaitingBut(stored, f.key) && Ledger(cfg, stored);
    if c'.Complete() {
      CompleteSound(cfg, mem, stored, f.key, None);
    }
  }

  lemma AddSound(cfg: Config, mem: Memory, s: State, f: Fragment, r: FragmentRef, carrier: Carrier)
    requires Sound(cfg, s) && ContextsShaped(s) && f.key in s.contexts && RefSize(r) == f.size
    ensures Sound(cfg, AddToContext(cfg, mem, s, f, r, carrier))
  {
    hide AddToContext, Sound;
    SnapshotShape(s.contexts[f.key], f);
    if Judge(cfg, WithSnapshot(s.contexts[f.key], f), f) == Store {
      StoredSound(cfg, mem, s, f, r, carrier);
    } else {
      RefusedSound(cfg, mem, s, f, r, carrier);
    }
  }

  lemma SnapshotShape(c: Context, f: Fragment)
    requires c.Shape()
    ensures WithSnapshot(c, f).Shape()
  {
  }

  lemma StoreShaped(cfg: Config, c: Context, f: Fragment, r: FragmentRef)
    requires c.Shape() && Judge(cfg, c, f) == Store
    ensures StoreFragment(c, f, r).Shape()
  {
  }

  lemma ReadiedShape(cfg: Config, s: State, f: Fragment, now: u64)
    requires ContextsShaped(s) && 0 < f.header.totalFrags <= MAX_FRAGMENTS
    ensures ContextsShaped(GetOrCreate(cfg, s, f, now))
    ensures f.key in GetOrCreate(cfg, s, f, now).contexts ==> WithSnapshot(GetOrCreate(cfg, s, f, now).contexts[f.key], f).Shape()
  {
  }

  lemma MadeKey(cfg: Config, mem: Memory, key: ReassemblyKey, c: Context)
    requires c.Shape()
    ensures MakeFrame(cfg, mem, key, c).key == key
  {
  }

  /** Opening a context looks at the open contexts only. */
  lemma SameReadied(cfg: Config, s: State, s': State, f: Fragment, now: u64)
    requires s'.contexts == s.contexts && s'.frames == s.frames
    ensures GetOrCreate(cfg, s', f, now).contexts == GetOrCreate(cfg, s, f, now).contexts
    ensures GetOrCreate(cfg, s', f, now).frames == s.frames
  {
  }

  lemma CoherentShape(c: Context)
    requires Coherent(c)
    ensures c.Shape()
  {
  }

  lemma ReadiedSound(cfg: Config, s: State, f: Fragment, now: u64)
    requires Sound(cfg, s) && ContextsShaped(s) && 0 < f.header.totalFrags <= MAX_FRAGMENTS
    ensures Sound(cfg, GetOrCreate(cfg, s, f, now)) && ContextsShaped(GetOrCreate(cfg, s, f, now))
  {
    hide Coherent, NewContext;
    var c := NewContext(f.header.totalFrags, f.header.tailFragPayloadBytes, f.header.dataTimestamp, now);
    NewContextCoherent(f.header.totalFrags, f.header.tailFragPayloadBytes, f.header.dataTimestamp, now);
    CoherentShape(c);
    FreshIncomplete(f.header.totalFrags, f.header.tailFragPayloadBytes, f.header.dataTimestamp, now);
    ReplacedContext(s.contexts, f.key, c);
  }

  /** Only the open contexts and the counters of contexts and frames matter. */
  lemma SoundCarries(cfg: Config, s: State, s': State)
    requires Sound(cfg, s) && s'.contexts == s.contexts && s'.frames == s.frames
    requires s'.stats.created == s.stats.created && s'.stats.destroyed == s.stats.destroyed
    requires s'.stats.completed == s.stats.completed && s'.stats.incomplete == s.stats.incomplete
    ensures Sound(cfg, s')
  {
  }

  lemma ProcessSound(cfg: Config, mem: Memory, s: State, p: ParsedPacket, carrier: Carrier, now: u64)
    requires p.Valid() && ContextsShaped(s) && cfg.Valid() && Sound(cfg, s)
    ensures Sound(cfg, Process(cfg, mem, s, p, carrier, now))
  {
    hide ParseFragment, AddToContext, ScanFrozen, MakeRef, Sound, GetOrCreate;
    var after := Process(cfg, mem, s, p, carrier, now);
    match ParseFragment(cfg, p)
    case None => SoundCarries(cfg, s, after);
    case Some(f) =>
      var (ring, frozen) := ScanFrozen(s.frozen, f.key, now, 0);
      var scanned := s.(stats := s.stats.(received := s.stats.received + 1), frozen := ring);
      var readied := GetOrCreate(cfg, scanned, f, now);
      SoundCarries(cfg, s, scanned);
      ReadiedSound(cfg, scanned, f, now);
      if frozen {
        SoundCarries(cfg, s, after);
      } else if f.key !in readied.contexts {
        SoundCarries(cfg, readied, after);
      } else {
        RefSizeOf(p.payload.value, carrier, f);
        AddSound(cfg, mem, readied, f, MakeRef(p.payload.value, carrier, f), carrier);
      }
  }

  lemma FreshIncomplete(totalFrags: u16, tailBytes: u16, ts: u64, now: u64)
    requires totalFrags > 0
    ensures !NewContext(totalFrags, tailBytes, ts, now).Complete()
  {
  }

  lemma RefSizeOf(payload: Bytes, carrier: Carrier, f: Fragment)
    requires f.start + f.size <= |payload|
    ensures RefSize(MakeRef(payload, carrier, f)) == f.size
  {
  }

  lemma {:induction false} ExpireAllSound(cfg: Config, s: State, order: seq<Stamp>, timeoutMs: u32)
    requires ContextsShaped(s) && Sound(cfg, s)
    ensures Sound(cfg, ExpireAll(cfg, s, order, timeoutMs))
    decreases |order|
  {
    hide Coherent, Complete;
    if order != [] {
      var front, last := order[..|order| - 1], order[|order| - 1];
      ExpireAllSound(cfg, s, front, timeoutMs);
      var before := ExpireAll(cfg, s, front, timeoutMs);
      if last.key in before.contexts {
        CompleteSound(cfg, last.mem, before, last.key, Some((last.now + timeoutMs) % TWO64));
      }
    }
  }

  lemma StepSound(cfg: Config, s: State, e: Event)
    requires ContextsShaped(s) && cfg.Valid() && (e.Arrive? ==> e.packet.Valid()) && Sound(cfg, s)
    ensures Sound(cfg, Step(cfg, s, e))
  {
    match e
    case Arrive(p, carrier, now, mem) => ProcessSound(cfg, mem, s, p, carrier, now);
    case Sweep(_, order, timeoutMs) => ExpireAllSound(cfg, s, order, timeoutMs);
    case FlushAll(order, timeoutMs) => ExpireAllSound(cfg, s, order, timeoutMs);
  }

  lemma {:induction false} EveryRunIsSound(cfg: Config, events: seq<Event>)
    requires cfg.Valid() && PacketsValid(events)
    ensures Sound(cfg, RunFrom(cfg, Initial(cfg), events))
  {
    if events != [] {
      var front := events[..|events| - 1];
      EveryRunIsSound(cfg, front);
      StepSound(cfg, RunFrom(cfg, Initial(cfg), front), events[|events| - 1]);
    }
  }

  // ----- sweeps and flushes reach everything they should -----

  ghost function KeysOf(order: seq<Stamp>): set<ReassemblyKey> {
    set i | 0 <= i < |order| :: order[i].key
  }

  lemma KeysOfLast(order: seq<Stamp>)
    requires order != []
    ensures KeysOf(order) == KeysOf(order[..|order| - 1]) + {order[|order| - 1].key}
  {
  }

  lemma {:induction false} ExpireAllRemoves(cfg: Config, s: State, order: seq<Stamp>, timeoutMs: u32)
    requires ContextsShaped(s)
    ensures ExpireAll(cfg, s, order, timeoutMs).contexts == s.contexts - KeysOf(order)
    decreases |order|
  {
    if order == [] {
      NoKeys();
    } else {
      hide ExpireAll, KeysOf, ContextsShaped;
      var n := |order| - 1;
      ExpireAllRemoves(cfg, s, order[..n], timeoutMs);
      KeysOfLast(order);
      RemoveMore(s.contexts, KeysOf(order[..n]), order[n].key);
      ExpireLast(cfg, s, order, timeoutMs);
    }
  }

  lemma ExpireLast(cfg: Config, s: State, order: seq<Stamp>, timeoutMs: u32)
    requires ContextsShaped(s) && order != []
    ensures ExpireAll(cfg, s, order, timeoutMs).contexts
         == ExpireAll(cfg, s, order[..|order| - 1], timeoutMs).contexts - {order[|order| - 1].key}
  {
    hide Complete;
    CloseIfOpen(cfg, order[|order| - 1].mem, ExpireAll(cfg, s, order[..|order| - 1], timeoutMs), order[|order| - 1].key,
                (order[|order| - 1].now + timeoutMs) % TWO64);
  }

  lemma CloseIfOpen(cfg: Config, mem: Memory, s: State, key: ReassemblyKey, expireMs: u64)
    requires ContextsShaped(s)
    ensures key in s.contexts ==> Complete(cfg, mem, s, key, Some(expireMs)).contexts == s.contexts - {key}
    ensures key !in s.contexts ==> s.contexts == s.contexts - {key}
  {
  }

  lemma RemoveMore(m: map<ReassemblyKey, Context>, gone: set<ReassemblyKey>, k: ReassemblyKey)
    ensures m - (gone + {k}) == (m - gone) - {k}
    ensures k !in m - gone ==> m - (gone + {k}) == m - gone
  {
  }

  lemma NoKeys()
    ensures KeysOf([]) == {}
  {
  }

  lemma DueAreRemoved(cfg: Config, s: State, e: Event)
    requires ContextsShaped(s) && cfg.Valid() && EventFits(s, e) && !e.Arrive?
    ensures e.Sweep? ==> forall k :: k in Step(cfg, s, e).contexts <==> k in s.contexts && !s.contexts[k].TimedOut(e.now, e.timeoutMs)
    ensures e.Sweep? ==> forall k :: k in Step(cfg, s, e).contexts ==> Step(cfg, s, e).contexts[k] == s.contexts[k]
    ensures e.FlushAll? ==> Step(cfg, s, e).contexts == map[]
  {
    ExpireAllRemoves(cfg, s, e.order, e.timeoutMs);
    var expired := KeysOf(e.order);
    var due := if e.Sweep? then TimedOutKeys(s, e.now, e.timeoutMs) else s.contexts.Keys;
    forall k ensures k in expired <==> k in due {
      if k in due {
        var i :| 0 <= i < |e.order| && e.order[i].key == k;
      }
    }
  }

  /** At least `timeoutMs` have gone by since `opening`. A clock behind it counts as 2^64 ms ahead. */
  predicate Overdue(opening: u64, now: u64, timeoutMs: u32) {
    if now >= opening then now - opening >= timeoutMs else now + TWO64 - opening >= timeoutMs
  }

  lemma AgeInWords(c: Context, now: u64, timeoutMs: u32)
    ensures c.TimedOut(now, timeoutMs) <==> Overdue(c.firstFragTime, now, timeoutMs)
  {
  }

  /** A sweep closes exactly the contexts whose age reaches the timeout and leaves every other one as it is; after a flush
      none is left. */
  lemma SweepsAreExact(cfg: Config, s: State, e: Event)
    requires ContextsShaped(s) && cfg.Valid() && EventFits(s, e) && !e.Arrive?
    ensures var s' := Step(cfg, s, e);
      && s'.contexts.Keys <= s.contexts.Keys
      && (e.Sweep? ==> forall k :: k in s.contexts ==>
            && (k !in s'.contexts <==> Overdue(s.contexts[k].firstFragTime, e.now, e.timeoutMs))
            && (k in s'.contexts ==> s'.contexts[k] == s.contexts[k]))
      && (e.FlushAll? ==> s'.contexts == map[])
  {
    hide Step, EventFits, Overdue, Context.TimedOut;
    DueAreRemoved(cfg, s, e);
    if e.Sweep? {
      forall k | k in s.contexts ensures s.contexts[k].TimedOut(e.now, e.timeoutMs) <==> Overdue(s.contexts[k].firstFragTime, e.now, e.timeoutMs) {
        AgeInWords(s.contexts[k], e.now, e.timeoutMs);
      }
    }
  }
}
