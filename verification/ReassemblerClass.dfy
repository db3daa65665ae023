/** The reassembler as an object whose methods update its tables in place, proved against `ReassemblyModel`. */
module ReassemblerClass {
  import opened Machine
  import opened Protocol
  import opened ReassemblyModel
  import opened ZeroCopy
  import ReassemblyRuns

  /** The pool's buffers: their contents, and those handed back so far. Other threads fill a buffer again as soon as it
      has been handed back. */
  class PoolMemory {
    var bytes: Memory
    var returned: seq<nat>

    constructor (bytes: Memory)
      ensures this.bytes == bytes && returned == []
    {
      this.bytes := bytes;
      returned := [];
    }

    /** Hand a buffer back; its contents are anything from here on. */
    method Return(buffer: nat)
      modifies this
      ensures returned == old(returned) + [buffer] && Refilled(old(bytes), bytes, [buffer])
    {
      returned := returned + [buffer];
      Refill([buffer]);
    }

    /** Hand back every buffer that the references own. */
    method ReturnAll(refs: seq<FragmentRef>)
      modifies this
      ensures returned == old(returned) + HeldBuffers(refs) && Refilled(old(bytes), bytes, HeldBuffers(refs))
    {
      for i := 0 to |refs|
        invariant returned == old(returned) + HeldBuffers(refs[..i])
        invariant Refilled(old(bytes), bytes, HeldBuffers(refs[..i]))
      {
        assert refs[..i + 1][..i] == refs[..i];
        if refs[i].Pooled? {
          ghost var mem := bytes;
          Return(refs[i].buffer);
          RefilledAlso(old(bytes), mem, bytes, HeldBuffers(refs[..i]), [refs[i].buffer]);
        }
      }
      assert refs[..|refs|] == refs;
    }

    /** Other threads write some of the free buffers. */
    method Refill(free: seq<nat>)
      modifies this`bytes
      ensures Refilled(old(bytes), bytes, free)
    {
      var written: Memory := *;
      bytes := bytes + (map b | b in written && b in free :: written[b]);
    }
  }

  /** Write `bytes` at `at`. */
  method CopyInto(data: array<u8>, at: nat, bytes: Bytes)
    requires at + |bytes| <= data.Length
    modifies data
    ensures data[..at] == old(data[..at])
    ensures data[..at + |bytes|] == old(data[..at]) + bytes
  {
    forall i | 0 <= i < |bytes| {
      data[at + i] := bytes[i];
    }
    assert data[..at + |bytes|] == data[..at] + data[at..at + |bytes|];
    assert data[at..at + |bytes|] == bytes;
  }

  lemma {:induction false} AssembledGrows(cfg: Config, mem: Memory, key: ReassemblyKey, c: Context, m: nat, n: nat)
    requires c.Shape() && m <= n <= c.totalFrags
    ensures |Assembled(cfg, mem, key, c, m)| <= |Assembled(cfg, mem, key, c, n)|
  {
    if m < n {
      AssembledGrows(cfg, mem, key, c, m, n - 1);
    }
  }

  /** The method form of `infer_missing_fragment_size`. */
  method InferMissingFragmentSize(cfg: Config, key: ReassemblyKey, c: Context, fragIndex: nat) returns (size: nat)
    requires c.Shape()
    ensures size == InferSize(cfg, key, c, fragIndex)
  {
    if fragIndex + 1 == c.totalFrags {
      return c.tailBytes;
    }
    for i := 0 to c.totalFrags
      invariant FirstKnownSize(c, 0) == FirstKnownSize(c, i)
    {
      if i + 1 == c.totalFrags {
        continue;
      }
      if i < |c.sizes| && c.sizes[i] > 0 {
        return c.sizes[i];
      }
    }
    var complexSize := if key.dataType == 0x02 then 8 else 4;
    size := cfg.sampleCountFixed * complexSize * Popcount(key.channelMask);
  }

  /** The first pass of `complete_reassembly`. */
  method MeasureFrame(cfg: Config, mem: Memory, key: ReassemblyKey, c: Context) returns (assembledSize: nat)
    requires c.Shape()
    ensures assembledSize == |Assembled(cfg, mem, key, c, c.totalFrags)|
  {
    hide InferSize;
    assembledSize := 0;
    for i := 0 to c.totalFrags
      invariant assembledSize == |Assembled(cfg, mem, key, c, i)|
    {
      if c.received[i] && HasData(c.refs[i]) {
        assembledSize := assembledSize + RefSize(c.refs[i]);
      } else {
        var size := InferMissingFragmentSize(cfg, key, c, i);
        assembledSize := assembledSize + size;
      }
    }
  }

  /** The second pass: the writes fill a buffer of the measured size exactly. */
  method FillFrame(cfg: Config, mem: Memory, key: ReassemblyKey, c: Context, data: array<u8>) returns (missing: seq<nat>)
    requires c.Shape() && data.Length == |Assembled(cfg, mem, key, c, c.totalFrags)|
    modifies data
    ensures data[..] == Assembled(cfg, mem, key, c, c.totalFrags)
    ensures missing == Missing(c, c.totalFrags)
  {
    hide InferSize, RefBytes, Zeros;
    var writePos := 0;
    missing := [];
    for i := 0 to c.totalFrags
      invariant writePos == |Assembled(cfg, mem, key, c, i)| <= data.Length
      invariant data[..writePos] == Assembled(cfg, mem, key, c, i)
      invariant missing == Missing(c, i)
    {
      AssembledGrows(cfg, mem, key, c, i + 1, c.totalFrags);
      var chunk: Bytes;
      if c.received[i] && HasData(c.refs[i]) {
        chunk := RefBytes(mem, c.refs[i]);
      } else {
        var size := InferMissingFragmentSize(cfg, key, c, i);
        chunk := Zeros(size);
        missing := missing + [i];
      }
      assert chunk == Chunk(cfg, mem, key, c, i);
      CopyInto(data, writePos, chunk);
      writePos := writePos + |chunk|;
    }
    assert data[..] == data[..writePos];
  }

  method AssembleFrame(cfg: Config, mem: Memory, key: ReassemblyKey, c: Context) returns (f: Frame)
    requires c.Shape()
    ensures f == MakeFrame(cfg, mem, key, c)
  {
    var assembledSize := MeasureFrame(cfg, mem, key, c);
    var data := new u8[assembledSize](_ => 0);
    var missing := FillFrame(cfg, mem, key, c, data);
    f := Frame(key, data[..], c.dataTimestamp, c.snapshot, missing == [], missing);
  }

  /** The system clock: any reading. */
  method CurrentTimeMs() returns (now: u64) {
    now := *;
  }

  /** Buffers are handed back, and only those are refilled. */
  ghost predicate PoolStep(mem: Memory, returned: seq<nat>, mem': Memory, returned': seq<nat>) {
    && |returned| <= |returned'| && returned'[..|returned|] == returned
    && Refilled(mem, mem', returned'[|returned|..])
  }

  lemma NoPoolStep(mem: Memory, returned: seq<nat>)
    ensures PoolStep(mem, returned, mem, returned)
  {
  }

  lemma PoolStepTwice(m1: Memory, r1: seq<nat>, m2: Memory, r2: seq<nat>, m3: Memory, r3: seq<nat>)
    requires PoolStep(m1, r1, m2, r2) && PoolStep(m2, r2, m3, r3)
    ensures PoolStep(m1, r1, m3, r3)
  {
    assert r3[..|r1|] == r2[..|r1|];
    assert r3[|r1|..] == r2[|r1|..] + r3[|r2|..];
  }

  /** Of the carrier, storing a fragment only says whether it goes back. */
  lemma CarrierOnlyGoesBack(cfg: Config, mem: Memory, s: State, f: Fragment, r: FragmentRef, carrier: Carrier)
    requires f.key in s.contexts && s.contexts[f.key].Shape() && WithSnapshot(s.contexts[f.key], f).Shape()
    ensures var copied := AddToContext(cfg, mem, s, f, r, Copied);
      AddToContext(cfg, mem, s, f, r, carrier)
      == if Judge(cfg, WithSnapshot(s.contexts[f.key], f), f) == Store && r.Pooled? then copied else GiveBack(copied, carrier)
  {
    hide Complete, StoreFragment;
  }

  class Reassembler {
    const config: Config
    const frozenKeysRing: array<FrozenEntry>
    const pool: PoolMemory
    var contexts: map<ReassemblyKey, Context>
    var frozenNextInsert: nat
    var timeoutMs: u32
    var stats: Statistics
    var frames: seq<Frame>

    ghost function View(): State
      reads this, frozenKeysRing, pool
    {
      State(contexts, frozenKeysRing[..], frozenNextInsert, stats, frames, pool.returned)
    }

    ghost predicate Valid()
      reads this, frozenKeysRing, pool
    {
      && config.Valid()
      && frozenNextInsert < frozenKeysRing.Length == config.FrozenCapacity()
      && ContextsShaped(View())
    }

    constructor (config: Config, timeoutMs: u32, pool: PoolMemory)
      requires config.Valid() && pool.returned == []
      ensures Valid() && fresh(frozenKeysRing) && this.pool == pool && this.config == config
      ensures View() == Initial(config) && this.timeoutMs == timeoutMs
    {
      this.config := config;
      this.pool := pool;
      this.timeoutMs := timeoutMs;
      frozenKeysRing := new FrozenEntry[config.FrozenCapacity()](_ => FrozenEntry(NO_KEY, 0, false));
      contexts, frozenNextInsert, frames := map[], 0, [];
      stats := Statistics(0, 0, 0, 0, 0, 0, 0, 0, 0, 0);
    }

    method IsKeyFrozen(key: ReassemblyKey, now: u64) returns (found: bool)
      modifies frozenKeysRing
      ensures (frozenKeysRing[..], found) == ScanFrozen(old(frozenKeysRing[..]), key, now, 0)
    {
      for i := 0 to frozenKeysRing.Length
        invariant ScanFrozen(frozenKeysRing[..], key, now, i) == ScanFrozen(old(frozenKeysRing[..]), key, now, 0)
      {
        var entry := frozenKeysRing[i];
        if !entry.valid {
          continue;
        }
        if entry.expireMs <= now {
          ghost var before := frozenKeysRing[..];
          frozenKeysRing[i] := entry.(valid := false);
          assert frozenKeysRing[..] == before[i := entry.(valid := false)];
          continue;
        }
        if entry.key == key {
          return true;
        }
      }
      return false;
    }

    method AddFrozenKey(key: ReassemblyKey, expireMs: u64)
      requires Valid()
      modifies this`frozenNextInsert, frozenKeysRing
      ensures Valid() && View() == AddFrozen(old(View()), key, expireMs)
    {
      for i := 0 to frozenKeysRing.Length
        invariant FindFrozen(frozenKeysRing[..], key, 0) == FindFrozen(frozenKeysRing[..], key, i)
        invariant frozenKeysRing[..] == old(frozenKeysRing[..])
      {
        if frozenKeysRing[i].valid && frozenKeysRing[i].key == key {
          frozenKeysRing[i] := frozenKeysRing[i].(expireMs := expireMs);
          assert frozenKeysRing[..] == old(frozenKeysRing[..])[i := old(frozenKeysRing[..])[i].(expireMs := expireMs)];
          return;
        }
      }
      RingIndex(frozenNextInsert, 1, frozenKeysRing.Length);
      frozenKeysRing[frozenNextInsert] := FrozenEntry(key, expireMs, true);
      frozenNextInsert := (frozenNextInsert + 1) % frozenKeysRing.Length;
    }

    /** What a call may do to the pool: hand buffers back, which are then refilled. */
    twostate predicate PoolKept()
      reads pool
    {
      PoolStep(old(pool.bytes), old(pool.returned), pool.bytes, pool.returned)
    }

    method DestroyContext(key: ReassemblyKey)
      requires Valid() && key in contexts
      modifies this`contexts, this`stats, pool
      ensures Valid() && PoolKept() && View() == Destroy(old(View()), key)
    {
      hide HeldBuffers;
      pool.ReturnAll(contexts[key].refs);
      contexts := contexts - {key};
      stats := stats.(destroyed := stats.destroyed + 1);
    }

    /** Emit the frame of `key`; `now` is the clock reading taken if it timed out. */
    method CompleteReassembly(key: ReassemblyKey, isTimeout: bool, now: u64)
      requires Valid() && key in contexts
      modifies this, frozenKeysRing, pool
      ensures Valid() && timeoutMs == old(timeoutMs)
      ensures PoolKept()
      ensures View() == Complete(config, old(pool.bytes), old(View()), key, if isTimeout then Some((now + timeoutMs) % TWO64) else None)
    {
      var frame := AssembleFrame(config, pool.bytes, key, contexts[key]);
      if |frame.missing| == 0 && !isTimeout {
        stats := stats.(completed := stats.completed + 1);
      } else {
        stats := stats.(incomplete := stats.incomplete + 1, missing := stats.missing + |frame.missing|);
      }
      frames := frames + [frame];
      if isTimeout {
        AddFrozenKey(key, (now + timeoutMs) % TWO64);
      }
      DestroyContext(key);
    }

    method GetOrCreateContext(f: Fragment, now: u64) returns (found: bool)
      requires Valid() && 0 < f.header.totalFrags <= MAX_FRAGMENTS
      modifies this`contexts, this`stats
      ensures Valid() && View() == GetOrCreate(config, old(View()), f, now)
      ensures found == (f.key in contexts)
    {
      if f.key in contexts {
        return true;
      }
      if |contexts| >= config.maxContexts {
        stats := stats.(overflow := stats.overflow + 1);
        return false;
      }
      contexts := contexts[f.key := NewContext(f.header.totalFrags, f.header.tailFragPayloadBytes, f.header.dataTimestamp, now)];
      stats := stats.(created := stats.created + 1);
      return true;
    }

    /** The checks and updates shared by `add_fragment` and `add_fragment_zero_copy`. */
    method AddFragment(f: Fragment, r: FragmentRef) returns (stored: bool)
      requires Valid() && f.key in contexts
      modifies this`contexts, this`stats
      ensures Valid() && contexts.Keys == old(contexts).Keys
      ensures var c := old(contexts)[f.key];
        match Judge(config, c, f)
        case Reject => !stored && View() == old(View())
        case Repeated => !stored && View() == old(View()).(stats := old(stats).(duplicate := old(stats).duplicate + 1))
        case TooLong => !stored && View() == old(View()).(stats := old(stats).(bytesOverflow := old(stats).bytesOverflow + 1))
        case Store => stored && View() == old(View()).(contexts := old(contexts)[f.key := StoreFragment(c, f, r)])
      ensures var c, i := old(contexts)[f.key], f.header.fragIndex;
        var isNew := i < c.totalFrags && !c.received[i];
        && stats.duplicate == old(stats).duplicate + (if i < c.totalFrags && c.received[i] then 1 else 0)
        && stats.bytesOverflow == old(stats).bytesOverflow + (if isNew && c.receivedBytes + f.size > config.maxReasmBytes then 1 else 0)
        && (stored <==> && isNew && c.receivedBytes + f.size <= config.maxReasmBytes
                        && if i == f.header.totalFrags - 1 then f.size == c.tailBytes else f.size > 0)
    {
      var c, i := contexts[f.key], f.header.fragIndex;
      if i >= c.totalFrags || i >= MAX_FRAGMENTS {
        return false;
      }
      if c.received[i] {
        stats := stats.(duplicate := stats.duplicate + 1);
        return false;
      }
      if c.receivedBytes + f.size > config.maxReasmBytes {
        stats := stats.(bytesOverflow := stats.bytesOverflow + 1);
        return false;
      }
      if f.header.IsTailFragment() && f.size != c.tailBytes {
        return false;
      }
      if !f.header.IsTailFragment() && f.size == 0 {
        return false;
      }
      contexts := contexts[f.key := c.(
        refs := c.refs[i := r], sizes := c.sizes[i := f.size], received := c.received[i := true],
        receivedCount := c.receivedCount + 1, receivedBytes := c.receivedBytes + f.size)];
      return true;
    }

    /** A buffer that no context took is released when the call returns. */
    method ReleaseUntaken(carrier: Carrier)
      requires Valid()
      modifies pool
      ensures Valid() && PoolKept() && View() == GiveBack(old(View()), carrier)
    {
      if carrier.InBuffer? {
        pool.Return(carrier.buffer);
      }
    }

    /** Store a fragment in the context of its key and emit the frame it completes. */
    method StorePiece(f: Fragment, r: FragmentRef) returns (stored: bool)
      requires Valid() && f.key in contexts
      modifies this, frozenKeysRing, pool
      ensures Valid() && timeoutMs == old(timeoutMs) && PoolKept()
      ensures View() == AddToContext(config, old(pool.bytes), old(View()), f, r, Copied)
      ensures WithSnapshot(old(contexts)[f.key], f).Shape()
      ensures stored <==> Judge(config, WithSnapshot(old(contexts)[f.key], f), f) == Store
    {
      hide Complete, StoreFragment, PoolStep;
      NoPoolStep(pool.bytes, pool.returned);
      if f.snapshot.Some? {
        contexts := contexts[f.key := contexts[f.key].(snapshot := f.snapshot)];
      }
      ghost var c := contexts[f.key];
      assert c == WithSnapshot(old(contexts)[f.key], f);
      assert View() == old(View()).(contexts := old(contexts)[f.key := c]);
      stored := AddFragment(f, r);
      if !stored {
        return;
      }
      assert old(contexts)[f.key := c][f.key := StoreFragment(c, f, r)] == old(contexts)[f.key := StoreFragment(c, f, r)];
      if contexts[f.key].Complete() {
        CompleteReassembly(f.key, false, 0);
      }
    }

    /** Store a fragment; the buffer of a fragment that was not stored by reference goes back. */
    method Deliver(f: Fragment, r: FragmentRef, carrier: Carrier)
      requires Valid() && f.key in contexts
      modifies this, frozenKeysRing, pool
      ensures Valid() && timeoutMs == old(timeoutMs) && PoolKept()
      ensures View() == AddToContext(config, old(pool.bytes), old(View()), f, r, carrier)
    {
      hide AddToContext, PoolStep, Judge;
      var stored := StorePiece(f, r);
      CarrierOnlyGoesBack(config, old(pool.bytes), old(View()), f, r, carrier);
      ghost var mem, returned := pool.bytes, pool.returned;
      if !stored || !r.Pooled? {
        ReleaseUntaken(carrier);
        PoolStepTwice(old(pool.bytes), old(pool.returned), mem, returned, pool.bytes, pool.returned);
      }
    }

    method Receive(packet: ParsedPacket, carrier: Carrier, now: u64)
      requires Valid() && packet.Valid()
      modifies this, frozenKeysRing, pool
      ensures Valid() && timeoutMs == old(timeoutMs)
      ensures PoolKept()
      ensures View() == Process(config, old(pool.bytes), old(View()), packet, carrier, now)
    {
      hide ScanFrozen, AddToContext, GetOrCreate, MakeRef;
      stats := stats.(received := stats.received + 1);
      var parsed := ParseFragment(config, packet);
      if parsed.None? {
        ReleaseUntaken(carrier);
        return;
      }
      var f := parsed.value;
      var frozen := IsKeyFrozen(f.key, now);
      if frozen {
        stats := stats.(late := stats.late + 1);
        ReleaseUntaken(carrier);
        return;
      }
      var found := GetOrCreateContext(f, now);
      if !found {
        ReleaseUntaken(carrier);
        return;
      }
      Deliver(f, MakeRef(packet.payload.value, carrier, f), carrier);
    }

    /** The copying entry point. */
    method ProcessPacket(packet: ParsedPacket, now: u64)
      requires Valid() && packet.Valid()
      modifies this, frozenKeysRing, pool
      ensures Valid() && timeoutMs == old(timeoutMs)
      ensures PoolKept()
      ensures View() == Process(config, old(pool.bytes), old(View()), packet, Copied, now)
    {
      Receive(packet, Copied, now);
    }

    /** The zero-copy entry point: the payload lies in `buffer`, `offset` bytes in, and ownership of
        the buffer comes with the call. */
    method ProcessPacketZeroCopy(packet: ParsedPacket, buffer: nat, offset: nat, now: u64)
      requires Valid() && packet.Valid()
      modifies this, frozenKeysRing, pool
      ensures Valid() && timeoutMs == old(timeoutMs)
      ensures PoolKept()
      ensures View() == Process(config, old(pool.bytes), old(View()), packet, InBuffer(buffer, offset), now)
    {
      Receive(packet, InBuffer(buffer, offset), now);
    }

    /** One turn of the loop over the listed keys; `start` buffers had been handed back when the call began, and other
        threads refill those handed back since. */
    method ExpireKey(key: ReassemblyKey, start: nat) returns (stamp: Stamp)
      requires Valid() && start <= |pool.returned|
      modifies this, frozenKeysRing, pool
      ensures Valid() && timeoutMs == old(timeoutMs) && stamp.key == key
      ensures start <= |pool.returned|
      ensures Refilled(old(pool.bytes), stamp.mem, old(pool.returned)[start..])
      ensures Refilled(stamp.mem, pool.bytes, pool.returned[start..])
      ensures View() == if key in old(contexts) then Complete(config, stamp.mem, old(View()), key, Some((stamp.now + timeoutMs) % TWO64))
                        else old(View())
    {
      hide Complete;
      pool.Refill(pool.returned[start..]);
      var now := CurrentTimeMs();
      stamp := Stamp(key, now, pool.bytes);
      ghost var before := pool.returned;
      if key in contexts {
        CompleteReassembly(key, true, now);
        assert pool.returned[start..] == before[start..] + pool.returned[|before|..];
      }
    }

    /** Complete the listed contexts as timed out. */
    method ExpireKeys(keys: seq<ReassemblyKey>) returns (order: seq<Stamp>)
      requires Valid()
      modifies this, frozenKeysRing, pool
      ensures Valid() && timeoutMs == old(timeoutMs)
      ensures |order| == |keys| && forall i :: 0 <= i < |keys| ==> order[i].key == keys[i]
      ensures View() == ExpireAll(config, old(View()), order, timeoutMs)
      ensures SweepRefills(config, old(View()), old(pool.bytes), order, timeoutMs)
    {
      hide Complete, Refilled, ExpireAll, SweepRefills;
      order := [];
      var start := |pool.returned|;
      SweepStarts(config, View(), pool.bytes, timeoutMs);
      RefilledNot(pool.bytes, pool.returned[start..]);
      for n := 0 to |keys|
        invariant Valid() && timeoutMs == old(timeoutMs)
        invariant |order| == n && forall i :: 0 <= i < n ==> order[i].key == keys[i]
        invariant View() == ExpireAll(config, old(View()), order, timeoutMs)
        invariant start == |old(pool.returned)| <= |pool.returned|
        invariant SweepRefills(config, old(View()), old(pool.bytes), order, timeoutMs)
        invariant Refilled(MemoryAt(old(pool.bytes), order, n), pool.bytes, pool.returned[start..])
      {
        ghost var mem, free := pool.bytes, pool.returned[start..];
        var stamp := ExpireKey(keys[n], start);
        RefilledTwice(MemoryAt(old(pool.bytes), order, n), mem, stamp.mem, free, free);
        SweepGrows(config, old(View()), old(pool.bytes), order, stamp, timeoutMs);
        ExpireOneMore(config, old(View()), order, stamp, timeoutMs);
        order := order + [stamp];
      }
    }

    /** The keys of a set, each once, in whatever order the table is walked. */
    static method ListKeys(keys: set<ReassemblyKey>) returns (list: seq<ReassemblyKey>)
      ensures forall k :: k in list <==> k in keys
      ensures forall i, j :: 0 <= i < j < |list| ==> list[i] != list[j]
    {
      list := [];
      var todo := keys;
      while todo != {}
        invariant todo <= keys
        invariant forall k :: k in list <==> k in keys && k !in todo
        invariant forall i, j :: 0 <= i < j < |list| ==> list[i] != list[j]
        decreases |todo|
      {
        var k :| k in todo;
        todo := todo - {k};
        list := list + [k];
      }
    }

    method CheckTimeouts(now: u64) returns (order: seq<Stamp>)
      requires Valid()
      modifies this, frozenKeysRing, pool
      ensures Valid() && timeoutMs == old(timeoutMs)
      ensures EventFits(old(View()), Sweep(now, order, timeoutMs))
      ensures View() == Step(config, old(View()), Sweep(now, order, timeoutMs))
      ensures SweepRefills(config, old(View()), old(pool.bytes), order, timeoutMs)
      ensures contexts.Keys <= old(contexts).Keys
      ensures forall k :: k in old(contexts) ==>
        && (k !in contexts <==> ReassemblyRuns.Overdue(old(contexts)[k].firstFragTime, now, timeoutMs))
        && (k in contexts ==> contexts[k] == old(contexts)[k])
    {
      hide ExpireAll, SweepRefills, ReassemblyRuns.Overdue, Context.TimedOut;
      var due := set k | k in contexts && contexts[k].TimedOut(now, timeoutMs);
      var keys := ListKeys(due);
      order := ExpireKeys(keys);
      ListedAll(keys, due, order);
      ReassemblyRuns.SweepsAreExact(config, old(View()), Sweep(now, order, timeoutMs));
    }

    method FlushContexts() returns (order: seq<Stamp>)
      requires Valid()
      modifies this, frozenKeysRing, pool
      ensures Valid() && timeoutMs == old(timeoutMs)
      ensures EventFits(old(View()), FlushAll(order, timeoutMs))
      ensures View() == Step(config, old(View()), FlushAll(order, timeoutMs))
      ensures SweepRefills(config, old(View()), old(pool.bytes), order, timeoutMs)
    {
      var keys := ListKeys(contexts.Keys);
      order := ExpireKeys(keys);
      ListedAll(keys, old(contexts).Keys, order);
    }
  }

  lemma ListedAll(list: seq<ReassemblyKey>, keys: set<ReassemblyKey>, order: seq<Stamp>)
    requires forall k :: k in list <==> k in keys
    requires forall i, j :: 0 <= i < j < |list| ==> list[i] != list[j]
    requires |order| == |list| && forall i :: 0 <= i < |list| ==> order[i].key == list[i]
    ensures Enumerates(order, keys)
  {
  }
}
