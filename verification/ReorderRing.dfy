/** The reorderer as implemented: a ring of slots, a rotating base index and an occupancy bitmap of
    64-bit words. Every operation is proved equal to the one on the plain map of `ReorderModel`. */
module ReorderRing {
  import opened Machine
  import opened Protocol
  import opened ReorderModel
  import ReorderRuns

  datatype StoredPacket = StoredPacket(sequence: u32, header: CommonHeader, payload: Bytes, occupied: bool)

  const EMPTY_SLOT := StoredPacket(0, ZERO_HEADER, [], false)

  /** The ring position `d` places after `base`. */
  function RingSlot(base: nat, d: nat, size: nat): nat
    requires base < size && d <= size
  {
    if base + d < size then base + d else base + d - size
  }

  // ----- the bitmap -----

  predicate InBitmap(words: seq<nat>, i: nat) {
    i / 64 < |words|
  }

  predicate BitAt(words: seq<nat>, i: nat)
    requires InBitmap(words, i)
  {
    Bit(words[i / 64], i % 64)
  }

  /** `words'` is `words` with bit `i` set to `value` and every other bit as it was. */
  ghost predicate OneBitChanged(words: seq<nat>, words': seq<nat>, i: nat, value: bool) {
    && |words'| == |words|
    && forall j: nat :: InBitmap(words, j) ==> (BitAt(words', j) <==> if j == i then value else BitAt(words, j))
  }

  lemma SetOneBit(words: seq<nat>, i: nat)
    requires InBitmap(words, i)
    ensures OneBitChanged(words, words[i / 64 := BitOr(words[i / 64], Pow2(i % 64))], i, true)
  {
    var words' := words[i / 64 := BitOr(words[i / 64], Pow2(i % 64))];
    forall j: nat | InBitmap(words, j) ensures BitAt(words', j) <==> j == i || BitAt(words, j) {
      BitOfOr(words[i / 64], Pow2(i % 64), j % 64);
      BitOfPow2(i % 64, j % 64);
    }
  }

  lemma ClearOneBit(words: seq<nat>, i: nat)
    requires InBitmap(words, i)
    ensures OneBitChanged(words, words[i / 64 := BitAndNot(words[i / 64], Pow2(i % 64))], i, false)
  {
    var words' := words[i / 64 := BitAndNot(words[i / 64], Pow2(i % 64))];
    forall j: nat | InBitmap(words, j) ensures BitAt(words', j) <==> j != i && BitAt(words, j) {
      BitOfAndNot(words[i / 64], Pow2(i % 64), j % 64);
      BitOfPow2(i % 64, j % 64);
    }
  }

  // ----- what the ring stands for -----

  /** A bit is set exactly for an occupied slot; the bits behind the last slot are clear. */
  ghost predicate BitsMatch(slots: seq<StoredPacket>, words: seq<nat>) {
    && (forall i: nat :: i < |slots| ==> InBitmap(words, i))
    && forall i: nat :: InBitmap(words, i) ==> (BitAt(words, i) <==> i < |slots| && slots[i].occupied)
  }

  ghost predicate Holds(slots: seq<StoredPacket>, i: nat, k: u32, p: Packet) {
    i < |slots| && slots[i].occupied && slots[i].sequence == k && slots[i].header == p.header && slots[i].payload == p.payload
  }

  /** The packet numbered `next + d` sits `d` places after the base. */
  ghost predicate PendingStored(slots: seq<StoredPacket>, base: nat, next: u32, pending: map<u32, Packet>) {
    base < |slots| && forall k :: k in pending ==>
      var d := Sub32(k, next);
      d < TWO31 && d < |slots| && Holds(slots, RingSlot(base, d, |slots|), k, pending[k])
  }

  /** Nothing else is stored. */
  ghost predicate StoredPending(slots: seq<StoredPacket>, base: nat, next: u32, pending: map<u32, Packet>) {
    base < |slots| && forall i :: 0 <= i < |slots| && slots[i].occupied ==>
      var k := slots[i].sequence;
      k in pending && Sub32(k, next) < |slots| && i == RingSlot(base, Sub32(k, next), |slots|)
  }

  ghost predicate Tied(slots: seq<StoredPacket>, words: seq<nat>, base: nat, next: u32, pending: map<u32, Packet>) {
    && BitsMatch(slots, words)
    && PendingStored(slots, base, next, pending)
    && StoredPending(slots, base, next, pending)
  }

  lemma TiedAdvance(slots: seq<StoredPacket>, words: seq<nat>, base: nat, next: u32, pending: map<u32, Packet>)
    requires Tied(slots, words, base, next, pending) && next !in pending
    ensures Tied(slots, words, RingSlot(base, 1, |slots|), Add32(next, 1), pending)
  {
    var base', next' := RingSlot(base, 1, |slots|), Add32(next, 1);
    forall k | k in pending
      ensures Sub32(k, next') == Sub32(k, next) - 1
      ensures Sub32(k, next) < |slots| && RingSlot(base', Sub32(k, next'), |slots|) == RingSlot(base, Sub32(k, next), |slots|)
    {
      SubNext32(k, next);
    }
  }

  /** Where the head of the window is buffered, it is buffered at the base. */
  lemma HeadAtBase(slots: seq<StoredPacket>, words: seq<nat>, base: nat, next: u32, pending: map<u32, Packet>)
    requires Tied(slots, words, base, next, pending)
    ensures InBitmap(words, base) && (BitAt(words, base) <==> next in pending)
    ensures next in pending ==> Holds(slots, base, next, pending[next])
  {
    SubInjective32(slots[base].sequence, next, next);
    if next in pending {
      assert Sub32(next, next) == 0 && RingSlot(base, 0, |slots|) == base;
    }
  }

  lemma TiedInBitmap(slots: seq<StoredPacket>, words: seq<nat>, base: nat, next: u32, pending: map<u32, Packet>, i: nat)
    requires Tied(slots, words, base, next, pending) && i < |slots|
    ensures InBitmap(words, i)
  {
  }

  /** Taking one packet out of its slot and clearing the slot's bit. */
  lemma TiedClear(slots: seq<StoredPacket>, words: seq<nat>, words': seq<nat>, base: nat, next: u32, pending: map<u32, Packet>, k: u32, slot: StoredPacket)
    requires Tied(slots, words, base, next, pending) && k in pending && !slot.occupied
    requires Sub32(k, next) < |slots| ==> OneBitChanged(words, words', RingSlot(base, Sub32(k, next), |slots|), false)
    ensures Sub32(k, next) < |slots|
    ensures Tied(slots[RingSlot(base, Sub32(k, next), |slots|) := slot], words', base, next, pending - {k})
  {
    var i := RingSlot(base, Sub32(k, next), |slots|);
    BitsFollow(slots, words, words', i, slot);
    forall k' | k' in pending && k' != k ensures RingSlot(base, Sub32(k', next), |slots|) != i {
      SubInjective32(k, k', next);
    }
  }

  lemma ClearBitmap(slots: seq<StoredPacket>, words: seq<nat>)
    requires |words| == (|slots| + 63) / 64
    requires (forall i :: 0 <= i < |slots| ==> !slots[i].occupied) && forall w :: 0 <= w < |words| ==> words[w] == 0
    ensures BitsMatch(slots, words)
  {
    forall i: nat | InBitmap(words, i) ensures !BitAt(words, i) {
      BitOfZero(i % 64);
    }
  }

  /** Writing a slot and its bit together keeps the two in step. */
  lemma BitsFollow(slots: seq<StoredPacket>, words: seq<nat>, words': seq<nat>, i: nat, slot: StoredPacket)
    requires BitsMatch(slots, words) && i < |slots| && OneBitChanged(words, words', i, slot.occupied)
    ensures BitsMatch(slots[i := slot], words')
  {
    hide BitAt;
    assert forall j: nat :: InBitmap(words', j) <==> InBitmap(words, j);
    forall j: nat | InBitmap(words', j) ensures BitAt(words', j) <==> j < |slots| && slots[i := slot][j].occupied {
      assert InBitmap(words, j);
    }
  }

  /** An empty ring stands for an empty buffer wherever the window starts. */
  lemma TiedEmpty(slots: seq<StoredPacket>, words: seq<nat>, base: nat, next: u32, next': u32)
    requires Tied(slots, words, base, next, map[])
    ensures Tied(slots, words, base, next', map[])
  {
  }

  lemma TiedStore(slots: seq<StoredPacket>, words: seq<nat>, words': seq<nat>, base: nat, next: u32, pending: map<u32, Packet>, k: u32, p: Packet)
    requires Tied(slots, words, base, next, pending) && k !in pending
    requires Sub32(k, next) < |slots| && Sub32(k, next) < TWO31
    requires OneBitChanged(words, words', RingSlot(base, Sub32(k, next), |slots|), true)
    ensures var i := RingSlot(base, Sub32(k, next), |slots|);
      Tied(slots[i := StoredPacket(k, p.header, p.payload, true)], words', base, next, pending[k := p])
  {
    hide Holds;
    var i := RingSlot(base, Sub32(k, next), |slots|);
    var slot := StoredPacket(k, p.header, p.payload, true);
    var slots' := slots[i := slot];
    BitsFollow(slots, words, words', i, slot);
    forall k' | k' in pending
      ensures Sub32(k', next) < |slots| && Holds(slots', RingSlot(base, Sub32(k', next), |slots|), k', pending[k'])
    {
      SubInjective32(k, k', next);
      HoldsBeside(slots, i, slot, RingSlot(base, Sub32(k', next), |slots|), k', pending[k']);
    }
    HoldsWritten(slots, i, k, p);
  }

  lemma HoldsBeside(slots: seq<StoredPacket>, i: nat, slot: StoredPacket, j: nat, k: u32, p: Packet)
    requires i < |slots| && i != j && Holds(slots, j, k, p)
    ensures Holds(slots[i := slot], j, k, p)
  {
  }

  lemma HoldsWritten(slots: seq<StoredPacket>, i: nat, k: u32, p: Packet)
    requires i < |slots|
    ensures Holds(slots[i := StoredPacket(k, p.header, p.payload, true)], i, k, p)
  {
  }

  /** A number inside the window is already buffered exactly when the bit of its slot is set. */
  lemma OccupiedIffPending(slots: seq<StoredPacket>, words: seq<nat>, base: nat, next: u32, pending: map<u32, Packet>, k: u32)
    requires Tied(slots, words, base, next, pending)
    requires Sub32(k, next) < |slots| && Sub32(k, next) < TWO31
    ensures var i := RingSlot(base, Sub32(k, next), |slots|);
      i < |slots| && InBitmap(words, i) && (BitAt(words, i) <==> k in pending) && (k in pending ==> slots[i].occupied && slots[i].sequence == k)
  {
    var i := RingSlot(base, Sub32(k, next), |slots|);
    if slots[i].occupied {
      var k' := slots[i].sequence;
      assert Sub32(k', next) == Sub32(k, next);
      SubInjective32(k, k', next);
    }
  }

  /** A set of 32-bit numbers that leaves one out has fewer than 2^32 members. */
  lemma PendingFits32(keys: set<u32>, absent: u32)
    requires absent !in keys
    ensures |keys| < TWO32
  {
    var all: set<int> := keys + {absent};
    assert |all| == |keys| + 1;
    RangeBound(all, 0, TWO32);
  }

  lemma {:induction false} RangeBound(s: set<int>, lo: int, hi: int)
    requires lo <= hi && forall x :: x in s ==> lo <= x < hi
    ensures |s| <= hi - lo
    decreases hi - lo
  {
    if lo == hi {
      assert s == {};
    } else {
      RangeBound(s - {hi - 1}, lo, hi - 1);
    }
  }

  // ----- the number of set bits -----

  /** The set bits among the first `n`. */
  function SetBits(words: seq<nat>, n: nat): nat
    requires n <= 64 * |words|
  {
    if n == 0 then 0 else SetBits(words, n - 1) + if BitAt(words, n - 1) then 1 else 0
  }

  /** The numbers held in the first `n` slots. */
  ghost function NumbersIn(slots: seq<StoredPacket>, n: nat): (r: set<u32>)
    ensures forall k :: k in r <==> exists i :: 0 <= i < n && i < |slots| && slots[i].occupied && slots[i].sequence == k
  {
    if n == 0 then {}
    else NumbersIn(slots, n - 1) + if n - 1 < |slots| && slots[n - 1].occupied then {slots[n - 1].sequence} else {}
  }

  /** No number is held twice. */
  ghost predicate HeldOnce(slots: seq<StoredPacket>) {
    forall i, j :: 0 <= i < j < |slots| && slots[i].occupied && slots[j].occupied ==> slots[i].sequence != slots[j].sequence
  }

  lemma {:induction false} BitsAreNumbers(slots: seq<StoredPacket>, words: seq<nat>, n: nat)
    requires BitsMatch(slots, words) && HeldOnce(slots) && n <= 64 * |words|
    ensures SetBits(words, n) == HeldIn(slots, n)
  {
    hide BitAt, SetBits, HeldIn, BitsMatch, HeldOnce;
    if n == 0 {
      NoBits(slots, words);
    } else {
      BitsAreNumbers(slots, words, n - 1);
      SetBitsNext(words, n);
      CountNumber(slots, n);
      BitIsOccupied(slots, words, n - 1);
    }
  }

  /** How many of the first `n` slots are occupied. */
  ghost function HeldIn(slots: seq<StoredPacket>, n: nat): nat {
    |NumbersIn(slots, n)|
  }

  lemma NoBits(slots: seq<StoredPacket>, words: seq<nat>)
    ensures SetBits(words, 0) == 0 && HeldIn(slots, 0) == 0
  {
  }

  lemma CountNumber(slots: seq<StoredPacket>, n: nat)
    requires n > 0 && HeldOnce(slots)
    ensures HeldIn(slots, n) == HeldIn(slots, n - 1) + if n - 1 < |slots| && slots[n - 1].occupied then 1 else 0
  {
    hide NumbersIn, HeldOnce;
    NumbersNext(slots, n);
  }

  lemma BitIsOccupied(slots: seq<StoredPacket>, words: seq<nat>, i: nat)
    requires BitsMatch(slots, words) && i < 64 * |words|
    ensures BitAt(words, i) <==> i < |slots| && slots[i].occupied
  {
    hide BitAt;
    assert InBitmap(words, i);
  }

  lemma SetBitsNext(words: seq<nat>, n: nat)
    requires 0 < n <= 64 * |words|
    ensures SetBits(words, n) == SetBits(words, n - 1) + if BitAt(words, n - 1) then 1 else 0
  {
    hide BitAt;
  }

  /** An occupied slot adds a number that the slots before it do not hold. */
  lemma NumbersNext(slots: seq<StoredPacket>, n: nat)
    requires n > 0 && HeldOnce(slots)
    ensures |NumbersIn(slots, n)| == |NumbersIn(slots, n - 1)| + if n - 1 < |slots| && slots[n - 1].occupied then 1 else 0
  {
    assert n - 1 < |slots| && slots[n - 1].occupied ==> slots[n - 1].sequence !in NumbersIn(slots, n - 1);
  }

  /** The bitmap has exactly as many set bits, padding included, as packets are buffered. */
  lemma SetBitsArePending(slots: seq<StoredPacket>, words: seq<nat>, base: nat, next: u32, pending: map<u32, Packet>)
    requires Tied(slots, words, base, next, pending)
    ensures SetBits(words, 64 * |words|) == |pending|
  {
    hide SetBits, BitAt;
    UniqueSlots(slots, words, base, next, pending);
    BitsAreNumbers(slots, words, 64 * |words|);
    assert InBitmap(words, |slots| - 1);
    forall k ensures k in NumbersIn(slots, 64 * |words|) <==> k in pending.Keys {
      if k in pending {
        var i := RingSlot(base, Sub32(k, next), |slots|);
        assert Holds(slots, i, k, pending[k]);
      }
    }
    assert NumbersIn(slots, 64 * |words|) == pending.Keys;
    assert |pending.Keys| == |pending|;
  }

  // ----- the class -----

  class Reorderer {
    const config: Config
    const ringSlots: array<StoredPacket>
    const occupancyBitmap: array<nat>
    var initialized: bool
    var nextExpected: u32
    var bufferedPackets: u32
    var baseIndex: nat
    var stats: Statistics
    var lastAdvance: int
    var log: seq<OrderedPacket>
    ghost var pending: map<u32, Packet>

    ghost function View(): State
      reads this
    {
      State(initialized, nextExpected, pending, stats, lastAdvance, log)
    }

    ghost predicate Consistent()
      reads this, ringSlots, occupancyBitmap
    {
      && baseIndex < ringSlots.Length == config.window
      && Tied(ringSlots[..], occupancyBitmap[..], baseIndex, nextExpected, pending)
      && stats.buffered == |pending|
    }

    /** Between calls the slot at the base is free and the 32-bit counter is exact. */
    ghost predicate Valid()
      reads this, ringSlots, occupancyBitmap
    {
      && Consistent() && nextExpected !in pending && bufferedPackets == stats.buffered
      && (!initialized ==> pending == map[])
    }

    constructor (windowSize: nat, zeroFill: bool, start: int)
      ensures Valid() && fresh(ringSlots) && fresh(occupancyBitmap)
      ensures config == Config(if windowSize == 0 then 1 else windowSize, zeroFill)
      ensures View() == Initial(start)
    {
      var window := if windowSize < 1 then 1 else windowSize;
      config := Config(window, zeroFill);
      ringSlots := new StoredPacket[window](_ => EMPTY_SLOT);
      occupancyBitmap := new nat[(window + 63) / 64](_ => 0);
      initialized, nextExpected, bufferedPackets, baseIndex := false, 0, 0, 0;
      stats := Statistics(0, 0, 0, 0, 0, 0);
      lastAdvance, log, pending := start, [], map[];
      new;
      ClearBitmap(ringSlots[..], occupancyBitmap[..]);
    }

    method BitTest(i: nat) returns (r: bool)
      requires InBitmap(occupancyBitmap[..], i)
      ensures r <==> Bit(occupancyBitmap[i / 64], i % 64)
    {
      var word, bit := i / 64, i % 64;
      AndPow2(occupancyBitmap[word], bit);
      r := BitAnd(occupancyBitmap[word], Pow2(bit)) != 0;
    }

    method BitSet(i: nat)
      requires InBitmap(occupancyBitmap[..], i)
      modifies occupancyBitmap
      ensures OneBitChanged(old(occupancyBitmap[..]), occupancyBitmap[..], i, true)
    {
      var word, bit := i / 64, i % 64;
      SetOneBit(occupancyBitmap[..], i);
      occupancyBitmap[word] := BitOr(occupancyBitmap[word], Pow2(bit));
    }

    method BitClear(i: nat)
      requires InBitmap(occupancyBitmap[..], i)
      modifies occupancyBitmap
      ensures OneBitChanged(old(occupancyBitmap[..]), occupancyBitmap[..], i, false)
    {
      var word, bit := i / 64, i % 64;
      ClearOneBit(occupancyBitmap[..], i);
      occupancyBitmap[word] := BitAndNot(occupancyBitmap[word], Pow2(bit));
    }

    /** Step the window over the number at its head, which holds no packet. */
    method AdvanceBase(now: int)
      requires Consistent() && nextExpected !in pending
      modifies this
      ensures Consistent()
      ensures View() == Advance(old(View()), now)
    {
      hide Tied;
      TiedAdvance(ringSlots[..], occupancyBitmap[..], baseIndex, nextExpected, pending);
      RingIndex(baseIndex, 1, ringSlots.Length);
      stats := stats.(advanced := stats.advanced + 1);
      nextExpected := Add32(nextExpected, 1);
      baseIndex := (baseIndex + 1) % ringSlots.Length;
      lastAdvance := now;
    }

    /** Take the packet out of the slot at the base. */
    method ClearHead()
      requires Consistent() && nextExpected in pending
      modifies this`stats, this`pending, ringSlots, occupancyBitmap
      ensures Consistent()
      ensures pending == old(pending) - {nextExpected}
      ensures stats == old(stats).(buffered := if old(stats).buffered > 0 then old(stats).buffered - 1 else 0)
    {
      hide Tied;
      var head := baseIndex;
      var slot := ringSlots[head].(sequence := 0, payload := [], occupied := false);
      ghost var slots, words := ringSlots[..], occupancyBitmap[..];
      TiedInBitmap(slots, words, baseIndex, nextExpected, pending, head);
      assert Sub32(nextExpected, nextExpected) == 0;
      RemovedKey(pending, nextExpected);
      ringSlots[head] := slot;
      BitClear(head);
      TiedClear(slots, words, occupancyBitmap[..], baseIndex, nextExpected, pending, nextExpected, slot);
      if stats.buffered > 0 {
        stats := stats.(buffered := stats.buffered - 1);
      }
      pending := pending - {nextExpected};
    }

    /** Deliver the packet at the base and step over it. */
    method DeliverHead(now: int)
      requires Consistent() && initialized && nextExpected in pending
      modifies this, ringSlots, occupancyBitmap
      ensures Consistent() && initialized && View() == EmitHead(old(View()), now)
    {
      hide Tied;
      HeadAtBase(ringSlots[..], occupancyBitmap[..], baseIndex, nextExpected, pending);
      var slot := ringSlots[baseIndex];
      RemovedKey(pending, nextExpected);
      log := log + [OrderedPacket(slot.header, slot.payload, COMMON_HEADER_SIZE + |slot.payload|,
                                  false, slot.header.extFlags % 2 == 1, nextExpected)];
      ClearHead();
      stats := stats.(inOrder := stats.inOrder + 1);
      AdvanceBase(now);
    }

    method AdvanceWindow(now: int)
      requires Consistent() && initialized
      modifies this, ringSlots, occupancyBitmap
      ensures Consistent() && nextExpected !in pending && initialized
      ensures View() == Drain(old(View()), now)
    {
      hide Tied;
      while true
        invariant Consistent() && initialized
        invariant Drain(View(), now) == Drain(old(View()), now)
        decreases |pending|
      {
        HeadAtBase(ringSlots[..], occupancyBitmap[..], baseIndex, nextExpected, pending);
        var occupied := BitTest(baseIndex);
        if !occupied {
          break;
        }
        var slot := ringSlots[baseIndex];
        if !slot.occupied || slot.sequence != nextExpected {
          assert false;
          break;
        }
        RemovedKey(pending, nextExpected);
        DeliverHead(now);
      }
    }

    /** Copy the truncated 32-bit buffer counter back, as every operation does on its way out. */
    method SyncBuffered()
      requires Consistent() && nextExpected !in pending && initialized
      modifies this`bufferedPackets, this`stats
      ensures Valid() && View() == old(View())
    {
      hide Tied;
      PendingFits32(pending.Keys, nextExpected);
      assert |pending.Keys| == |pending|;
      bufferedPackets := stats.buffered % TWO32;
      stats := stats.(buffered := bufferedPackets);
    }

    method CountDuplicate()
      requires Valid()
      modifies this`stats
      ensures Valid() && View() == Duplicate(old(View()))
    {
      hide Tied;
      stats := stats.(duplicate := stats.duplicate + 1);
    }

    /** Put a packet that is ahead of the window's head into its slot. */
    method Store(header: CommonHeader, payload: Bytes, i: nat)
      requires Valid() && initialized && header.sequenceNumber !in pending
      requires Sub32(header.sequenceNumber, nextExpected) < TWO31
      requires 0 < Sub32(header.sequenceNumber, nextExpected) < ringSlots.Length
      requires i == RingSlot(baseIndex, Sub32(header.sequenceNumber, nextExpected), ringSlots.Length)
      modifies this, ringSlots, occupancyBitmap
      ensures Valid()
      ensures View() == old(View()).(
                pending := old(pending)[header.sequenceNumber := Packet(header, payload)],
                stats := old(stats).(outOfOrder := old(stats).outOfOrder + 1, buffered := old(stats).buffered + 1))
    {
      hide Tied;
      var sequence := header.sequenceNumber;
      ghost var slots, words := ringSlots[..], occupancyBitmap[..];
      OccupiedIffPending(slots, words, baseIndex, nextExpected, pending, sequence);
      ringSlots[i] := StoredPacket(sequence, header, payload, true);
      BitSet(i);
      TiedStore(slots, words, occupancyBitmap[..], baseIndex, nextExpected, pending, sequence, Packet(header, payload));
      pending := pending[sequence := Packet(header, payload)];
      stats := stats.(outOfOrder := stats.outOfOrder + 1, buffered := stats.buffered + 1);
      SyncBuffered();
    }

    method InsertOwned(header: CommonHeader, payload: Bytes, now: int)
      requires Valid()
      modifies this, ringSlots, occupancyBitmap
      ensures Valid() && initialized
      ensures View() == Insert(config, old(View()), Packet(header, payload), now)
    {
      hide Tied;
      var sequence := header.sequenceNumber;
      if !initialized {
        TiedEmpty(ringSlots[..], occupancyBitmap[..], baseIndex, nextExpected, sequence);
        initialized := true;
        nextExpected := sequence;
      }
      ghost var started := View();
      assert started == Start(old(View()), sequence);
      var expected := nextExpected;
      if sequence == expected {
        log := log + [OrderedPacket(header, payload, COMMON_HEADER_SIZE + |payload|,
                                    false, header.extFlags % 2 == 1, sequence)];
        stats := stats.(inOrder := stats.inOrder + 1);
        AdvanceBase(now);
        assert View() == Emit(started, Packet(header, payload), now);
        AdvanceWindow(now);
        SyncBuffered();
        return;
      }
      var delta := Sub32(sequence, expected);
      if !IsSequenceNewer(sequence, expected) || delta >= ringSlots.Length % TWO32 {
        CountDuplicate();
        return;
      }
      var slotIndex := (baseIndex + delta) % ringSlots.Length;
      RingIndex(baseIndex, delta, ringSlots.Length);
      OccupiedIffPending(ringSlots[..], occupancyBitmap[..], baseIndex, nextExpected, pending, sequence);
      var occupied := BitTest(slotIndex);
      if occupied {
        CountDuplicate();
        return;
      }
      Store(header, payload, slotIndex);
    }

    /** The copying entry point: the payload is read through a pointer that may be null. */
    method InsertCopy(packet: ParsedPacket, now: int)
      requires Valid() && packet.Valid()
      modifies this, ringSlots, occupancyBitmap
      ensures Valid() && initialized
      ensures View() == Insert(config, old(View()), Packet(packet.header, if packet.payload.Some? then packet.payload.value else []), now)
    {
      var payload: Bytes := [];
      if packet.header.payloadLen > 0 && packet.payload.Some? {
        payload := packet.payload.value;
      }
      InsertOwned(packet.header, payload, now);
    }

    method CheckTimeout(now: int, timeoutMs: u32)
      requires Valid()
      modifies this, ringSlots, occupancyBitmap
      ensures Valid()
      ensures View() == Timeout(config, old(View()), now, timeoutMs)
      ensures stats.advanced > old(stats.advanced) <==>
        old(initialized) && if timeoutMs > 0 then now - old(lastAdvance) >= timeoutMs * 1_000_000 else now - old(lastAdvance) > -1_000_000
    {
      hide Tied;
      ReorderRuns.TickMoves(config, View(), now, timeoutMs);
      ReorderRuns.WholeMilliseconds(now, lastAdvance, timeoutMs);
      if !initialized || ElapsedMs(now, lastAdvance) < timeoutMs {
        return;
      }
      if config.zeroFill {
        log := log + [ZeroFilled(nextExpected)];
        stats := stats.(zeroFilled := stats.zeroFilled + 1);
      }
      assert View() == FillGap(config, old(View()));
      AdvanceBase(now);
      AdvanceWindow(now);
      SyncBuffered();
    }

    /** List the occupied slots with their numbers, in ring order. */
    method CollectPending() returns (entries: seq<Entry>)
      requires Valid()
      ensures Distinct(entries) && Lists(entries, ringSlots[..], pending)
    {
      ghost var slots, words := ringSlots[..], occupancyBitmap[..];
      UniqueSlots(slots, words, baseIndex, nextExpected, pending);
      hide Tied, Distinct, BitsMatch, HeldOnce, CollectedFrom, Lists;
      entries := [];
      NoneCollected(slots);
      for i := 0 to ringSlots.Length
        invariant CollectedFrom(slots, entries, i) && Distinct(entries)
      {
        BitOfSlot(slots, words, i);
        var occupied := BitTest(i);
        CollectedNext(slots, entries, i);
        if occupied && ringSlots[i].occupied {
          entries := entries + [Entry(ringSlots[i].sequence, i)];
        }
      }
      CollectedAll(slots, words, baseIndex, nextExpected, pending, entries);
    }

    /** Deliver and clear one listed slot. */
    method EmitEntry(e: Entry)
      requires Consistent1()
      requires e.sequence in pending && Holds(ringSlots[..], e.slot, e.sequence, pending[e.sequence])
      modifies this`log, this`stats, this`pending, ringSlots, occupancyBitmap
      ensures Consistent1() && pending == old(pending) - {e.sequence}
      ensures forall j :: 0 <= j < ringSlots.Length && j != e.slot ==> ringSlots[j] == old(ringSlots[j])
      ensures log == old(log) + [Delivered(old(pending)[e.sequence], e.sequence)]
      ensures stats == old(stats).(inOrder := old(stats).inOrder + 1)
    {
      var slot := ringSlots[e.slot];
      var cleared := slot.(sequence := 0, payload := [], occupied := false);
      ghost var slots, words := ringSlots[..], occupancyBitmap[..];
      SlotOf(slots, words, baseIndex, nextExpected, pending, e.slot);
      TiedInBitmap(slots, words, baseIndex, nextExpected, pending, e.slot);
      hide Tied, OneBitChanged;
      log := log + [OrderedPacket(slot.header, slot.payload, COMMON_HEADER_SIZE + |slot.payload|,
                                  false, slot.header.extFlags % 2 == 1, slot.sequence)];
      ringSlots[e.slot] := cleared;
      BitClear(e.slot);
      TiedClear(slots, words, occupancyBitmap[..], baseIndex, nextExpected, pending, e.sequence, cleared);
      stats := stats.(inOrder := stats.inOrder + 1);
      pending := pending - {e.sequence};
    }

    /** Everything `Consistent` says but the buffer counter, which `FlushAll` resets at its end. */
    ghost predicate Consistent1()
      reads this, ringSlots, occupancyBitmap
    {
      && baseIndex < ringSlots.Length == config.window
      && Tied(ringSlots[..], occupancyBitmap[..], baseIndex, nextExpected, pending)
    }

    /** Deliver and clear the listed slots, in the order of the list. */
    method EmitAll(entries: seq<Entry>)
      requires Consistent1()
      requires Sorted(entries) && Lists(entries, ringSlots[..], pending)
      modifies this`log, this`stats, this`pending, ringSlots, occupancyBitmap
      ensures Consistent1() && pending == map[]
      ensures forall k :: k in Sequences(entries) ==> k in old(pending)
      ensures log == old(log) + Deliveries(old(pending), Sequences(entries))
      ensures stats == old(stats).(inOrder := old(stats).inOrder + |entries|)
    {
      hide Tied, Lists, Ascending, Holds, Sorted, Deliveries, Sequences, Remaining, Delivered;
      ghost var all, order := pending, Sequences(entries);
      ghost var out := EmitPlan(all, entries, ringSlots[..]);
      for n := 0 to |entries|
        invariant Consistent1()
        invariant pending == Remaining(all, order, n)
        invariant log == old(log) + out[..n]
        invariant stats == old(stats).(inOrder := old(stats).inOrder + n)
        invariant forall m :: n <= m < |entries| ==> Holds(ringSlots[..], entries[m].slot, order[m], all[order[m]])
      {
        RemainingStep(all, order, n);
        ghost var before := ringSlots[..];
        EmitEntry(entries[n]);
        forall m | n < m < |entries| ensures Holds(ringSlots[..], entries[m].slot, order[m], all[order[m]]) {
          assert order[n] < order[m];
          HoldsElsewhere(before, ringSlots[..], entries[n].slot, order[n], all[order[n]], entries[m].slot, order[m], all[order[m]]);
        }
        TakeOneMore(out, n);
      }
      RemainingNone(all, order);
    }

    method FlushAll() returns (count: nat)
      requires Valid()
      modifies this, ringSlots, occupancyBitmap
      ensures Valid()
      ensures View() == Flush(old(View()))
      ensures count == |old(pending)|
    {
      hide Tied, Lists, Sorted, Distinct, Ascending, Deliveries, Sequences, Holds;
      var collected := CollectPending();
      var entries := SortBySequence(collected);
      ListsReordered(collected, entries, ringSlots[..], pending);
      FlushOrder(pending, entries, ringSlots[..]);
      EmitAll(entries);
      stats := stats.(buffered := 0);
      bufferedPackets := 0;
      count := |entries|;
    }
  }

  lemma TakeOneMore<T>(s: seq<T>, n: nat)
    requires n < |s|
    ensures s[..n + 1] == s[..n] + [s[n]]
  {
  }

  ghost function Remaining(all: map<u32, Packet>, order: seq<u32>, n: nat): map<u32, Packet>
    requires n <= |order|
  {
    all - (set k | k in order[..n])
  }

  lemma RemainingStep(all: map<u32, Packet>, order: seq<u32>, n: nat)
    requires n < |order| && IsAscending(order) && order[n] in all
    ensures Remaining(all, order, n + 1) == Remaining(all, order, n) - {order[n]}
    ensures order[n] in Remaining(all, order, n) && Remaining(all, order, n)[order[n]] == all[order[n]]
  {
  }

  lemma RemainingNone(all: map<u32, Packet>, order: seq<u32>)
    requires forall k :: k in all ==> k in order
    ensures Remaining(all, order, |order|) == map[]
  {
  }

  /** The entries name every pending packet and the slot it is in, and nothing else. */
  ghost predicate Lists(entries: seq<Entry>, slots: seq<StoredPacket>, pending: map<u32, Packet>) {
    && (forall e :: e in entries ==> e.sequence in pending && Holds(slots, e.slot, e.sequence, pending[e.sequence]))
    && (forall k :: k in pending ==> exists e :: e in entries && e.sequence == k)
  }

  lemma HoldsElsewhere(slots: seq<StoredPacket>, slots': seq<StoredPacket>, i: nat, k: u32, p: Packet, i': nat, k': u32, p': Packet)
    requires Holds(slots, i, k, p) && Holds(slots, i', k', p') && k != k'
    requires |slots'| == |slots| && forall j :: 0 <= j < |slots| && j != i ==> slots'[j] == slots[j]
    ensures Holds(slots', i', k', p')
  {
  }

  lemma ListsReordered(entries: seq<Entry>, entries': seq<Entry>, slots: seq<StoredPacket>, pending: map<u32, Packet>)
    requires Lists(entries, slots, pending)
    requires forall e :: e in entries <==> e in entries'
    ensures Lists(entries', slots, pending)
  {
  }

  /** What the loop of a flush relies on: the listed packets, by position in the list. */
  lemma EmitPlan(all: map<u32, Packet>, entries: seq<Entry>, slots: seq<StoredPacket>) returns (out: seq<OrderedPacket>)
    requires Sorted(entries) && Lists(entries, slots, all)
    ensures var order := Sequences(entries);
      && (forall k :: k in order <==> k in all)
      && IsAscending(order)
      && out == Deliveries(all, order)
      && (forall n :: 0 <= n < |order| ==>
            && order[n] in all && out[n] == Delivered(all[order[n]], order[n]) && order[n] == entries[n].sequence
            && Holds(slots, entries[n].slot, order[n], all[order[n]]))
      && Remaining(all, order, 0) == all
  {
    hide Ascending, Holds, IsAscending, Lists, Sorted;
    var order := Sequences(entries);
    SequencesAscend(entries);
    ListedNumbers(all, entries, slots);
    EachListed(entries, slots, all);
    out := Deliveries(all, order);
  }

  lemma EachListed(entries: seq<Entry>, slots: seq<StoredPacket>, pending: map<u32, Packet>)
    requires Lists(entries, slots, pending)
    ensures forall m :: 0 <= m < |entries| ==>
      Sequences(entries)[m] in pending && Holds(slots, entries[m].slot, Sequences(entries)[m], pending[Sequences(entries)[m]])
  {
  }

  lemma UniqueSlots(slots: seq<StoredPacket>, words: seq<nat>, base: nat, next: u32, pending: map<u32, Packet>)
    requires Tied(slots, words, base, next, pending)
    ensures BitsMatch(slots, words) && HeldOnce(slots)
  {
  }

  /** The entries are the occupied ones of the first `n` slots. */
  ghost predicate CollectedFrom(slots: seq<StoredPacket>, entries: seq<Entry>, n: nat) {
    && n <= |slots|
    && (forall e :: e in entries ==> e.slot < n && slots[e.slot].occupied && slots[e.slot].sequence == e.sequence)
    && forall j :: 0 <= j < n && slots[j].occupied ==> Entry(slots[j].sequence, j) in entries
  }

  lemma NoneCollected(slots: seq<StoredPacket>)
    ensures CollectedFrom(slots, [], 0) && Distinct([])
  {
  }

  lemma BitOfSlot(slots: seq<StoredPacket>, words: seq<nat>, i: nat)
    requires BitsMatch(slots, words) && i < |slots|
    ensures InBitmap(words, i) && (Bit(words[i / 64], i % 64) <==> slots[i].occupied)
  {
    assert InBitmap(words, i);
    assert BitAt(words, i) <==> slots[i].occupied;
  }

  lemma CollectedNext(slots: seq<StoredPacket>, entries: seq<Entry>, i: nat)
    requires i < |slots| && CollectedFrom(slots, entries, i) && Distinct(entries) && HeldOnce(slots)
    ensures !slots[i].occupied ==> CollectedFrom(slots, entries, i + 1)
    ensures slots[i].occupied ==>
      var more := entries + [Entry(slots[i].sequence, i)]; CollectedFrom(slots, more, i + 1) && Distinct(more)
  {
    if slots[i].occupied {
      forall a | 0 <= a < |entries| ensures entries[a].sequence != slots[i].sequence {
        assert entries[a] in entries;
      }
    }
  }

  lemma CollectedAll(slots: seq<StoredPacket>, words: seq<nat>, base: nat, next: u32, pending: map<u32, Packet>, entries: seq<Entry>)
    requires Tied(slots, words, base, next, pending) && CollectedFrom(slots, entries, |slots|)
    ensures Lists(entries, slots, pending)
  {
  }

  /** An occupied slot lies where the number it holds says. */
  lemma SlotOf(slots: seq<StoredPacket>, words: seq<nat>, base: nat, next: u32, pending: map<u32, Packet>, i: nat)
    requires Tied(slots, words, base, next, pending)
    requires i < |slots| && slots[i].occupied
    ensures Sub32(slots[i].sequence, next) < |slots| && i == RingSlot(base, Sub32(slots[i].sequence, next), |slots|)
  {
  }

  lemma FlushOrder(pending: map<u32, Packet>, entries: seq<Entry>, slots: seq<StoredPacket>)
    requires Sorted(entries) && Lists(entries, slots, pending)
    ensures Sequences(entries) == Ascending(pending.Keys) && IsAscending(Sequences(entries))
    ensures |entries| == |pending|
  {
    hide Ascending, Sequences, Lists, Sorted, IsAscending;
    AscendingMembers(pending.Keys);
    AscendingSorted(pending.Keys);
    SequencesAscend(entries);
    ListedNumbers(pending, entries, slots);
    AscendingUnique(Sequences(entries), Ascending(pending.Keys));
    assert |pending.Keys| == |pending|;
  }

  lemma SequencesAscend(entries: seq<Entry>)
    requires Sorted(entries)
    ensures IsAscending(Sequences(entries))
  {
  }

  lemma ListedNumbers(pending: map<u32, Packet>, entries: seq<Entry>, slots: seq<StoredPacket>)
    requires Lists(entries, slots, pending)
    ensures forall k :: k in Sequences(entries) <==> k in pending.Keys
  {
    hide Holds;
    var order := Sequences(entries);
    forall k ensures k in order <==> k in pending {
      if k in order {
        var i :| 0 <= i < |order| && order[i] == k;
        assert entries[i] in entries;
      }
      if k in pending {
        var e :| e in entries && e.sequence == k;
        var i :| 0 <= i < |entries| && entries[i] == e;
        assert order[i] == k;
      }
    }
  }

  datatype Entry = Entry(sequence: u32, slot: nat)

  ghost predicate Distinct(entries: seq<Entry>) {
    forall i, j :: 0 <= i < j < |entries| ==> entries[i].sequence != entries[j].sequence
  }

  function Sequences(entries: seq<Entry>): (r: seq<u32>)
    ensures |r| == |entries|
  {
    seq(|entries|, i requires 0 <= i < |entries| => entries[i].sequence)
  }

  ghost predicate Sorted(entries: seq<Entry>) {
    forall i, j :: 0 <= i < j < |entries| ==> entries[i].sequence < entries[j].sequence
  }

  /** Put one entry into its place in an ascending list. */
  method InsertSorted(sorted: seq<Entry>, e: Entry) returns (r: seq<Entry>)
    requires Sorted(sorted)
    requires forall e' :: e' in sorted ==> e'.sequence != e.sequence
    ensures Sorted(r)
    ensures forall x :: x in r <==> x in sorted || x == e
    ensures |r| == |sorted| + 1
  {
    var i := 0;
    while i < |sorted| && sorted[i].sequence < e.sequence
      invariant 0 <= i <= |sorted|
      invariant forall j :: 0 <= j < i ==> sorted[j].sequence < e.sequence
    {
      i := i + 1;
    }
    r := sorted[..i] + [e] + sorted[i..];
    Inserted(sorted, e, i);
  }

  lemma Inserted(sorted: seq<Entry>, e: Entry, i: nat)
    requires Sorted(sorted) && i <= |sorted|
    requires forall j :: 0 <= j < i ==> sorted[j].sequence < e.sequence
    requires i < |sorted| ==> e.sequence < sorted[i].sequence
    ensures Sorted(sorted[..i] + [e] + sorted[i..])
    ensures forall x :: x in sorted[..i] + [e] + sorted[i..] <==> x in sorted || x == e
  {
  }

  /** The library sort of `flush`, by raw sequence number. */
  method SortBySequence(entries: seq<Entry>) returns (r: seq<Entry>)
    requires Distinct(entries)
    ensures Sorted(r)
    ensures forall x :: x in r <==> x in entries
    ensures |r| == |entries|
  {
    r := [];
    for i := 0 to |entries|
      invariant Sorted(r)
      invariant forall x :: x in r <==> x in entries[..i]
      invariant |r| == i
    {
      r := InsertSorted(r, entries[i]);
      assert entries[..i + 1] == entries[..i] + [entries[i]];
    }
    assert entries[..|entries|] == entries;
  }
}
