/** The ring of `SPSCQueue` with each operation taken as one step: a masked ring of 2^k slots holding at most
    2^k - 1 elements, and its overwriting push. */
module SpscQueue {
  import opened Machine
  import opened SpscInterleaving

  // ----- the ring as a value -----

  /** Number of elements between the two indices. */
  function Count(head: nat, tail: nat, cap: nat): (n: nat)
    requires head < cap && tail < cap
    ensures n < cap && (n == 0 <==> head == tail)
  {
    if head <= tail then tail - head else tail + cap - head
  }

  /** Position `i` of a ring read from `head`. */
  function Around(head: nat, i: nat, cap: nat): (r: nat)
    requires head < cap && i < cap
    ensures r < cap
  {
    if head + i < cap then head + i else head + i - cap
  }

  /** The first `n` elements read from `head`. */
  function Live<T>(slots: seq<T>, head: nat, n: nat): (s: seq<T>)
    requires head < |slots| && n < |slots|
    ensures |s| == n
  {
    seq(n, i requires 0 <= i < n => slots[Around(head, i, |slots|)])
  }

  /** The most recent `n` of a sequence. */
  function Newest<T>(s: seq<T>, n: nat): (r: seq<T>)
    ensures |s| <= n ==> r == s
    ensures |s| >= n ==> |r| == n && s == s[..|s| - n] + r
  {
    if |s| <= n then s else s[|s| - n..]
  }

  lemma NextIndexWraps(i: nat, k: nat)
    requires i < Pow2(k)
    ensures NextIndex(i, k) == if i + 1 == Pow2(k) then 0 else i + 1
  {
    AndMaskIsMod(i + 1, k);
    if i + 1 == Pow2(k) {
      DivModUnique(i + 1, Pow2(k), 1, 0);
    } else {
      DivModUnique(i + 1, Pow2(k), 0, i + 1);
    }
  }

  /** `next == head` says that one slot is left. */
  lemma FullIffOneSlotLeft(head: nat, tail: nat, k: nat)
    requires head < Pow2(k) && tail < Pow2(k)
    ensures NextIndex(tail, k) == head <==> Count(head, tail, Pow2(k)) == Pow2(k) - 1
  {
    NextIndexWraps(tail, k);
  }

  lemma PushOnRing<T>(slots: seq<T>, head: nat, tail: nat, item: T, k: nat)
    requires |slots| == Pow2(k) && head < |slots| && tail < |slots| && NextIndex(tail, k) != head
    ensures NextIndex(tail, k) < |slots|
    ensures Count(head, NextIndex(tail, k), |slots|) == Count(head, tail, |slots|) + 1
    ensures Live(slots[tail := item], head, Count(head, tail, |slots|) + 1)
         == Live(slots, head, Count(head, tail, |slots|)) + [item]
  {
    NextIndexWraps(tail, k);
  }

  lemma PopOnRing<T>(slots: seq<T>, head: nat, tail: nat, k: nat)
    requires |slots| == Pow2(k) && head < |slots| && tail < |slots| && head != tail
    ensures NextIndex(head, k) < |slots|
    ensures Count(NextIndex(head, k), tail, |slots|) == Count(head, tail, |slots|) - 1
    ensures Live(slots, head, Count(head, tail, |slots|))
         == [slots[head]] + Live(slots, NextIndex(head, k), Count(head, tail, |slots|) - 1)
  {
    NextIndexWraps(head, k);
  }

  /** `(tail - head) & mask_` on 64-bit words, even when the difference wraps, is the number of elements. */
  lemma MaskedDifferenceIsCount(head: nat, tail: nat, k: nat)
    requires k <= 63 && head < Pow2(k) && tail < Pow2(k)
    ensures BitAnd((tail - head) % Pow2(64), Pow2(k) - 1) == Count(head, tail, Pow2(k))
  {
    hide Pow2, BitAnd, Count;
    Pow2Splits(k, 64 - k);
    AndMaskIsMod((tail - head) % Pow2(64), k);
    WrappedDifference(head, tail, Pow2(k), Pow2(64 - k), Pow2(64));
  }

  lemma WrappedDifference(head: nat, tail: nat, cap: nat, m: nat, word: nat)
    requires head < cap && tail < cap && m > 0 && word == cap * m
    ensures ((tail - head) % word) % cap == Count(head, tail, cap)
  {
    MulDistributes(cap, m, 1);
    MulAtLeast(cap, m);
    if head <= tail {
      DivModUnique(tail - head, word, 0, tail - head);
      DivModUnique(tail - head, cap, 0, tail - head);
    } else {
      DivModUnique(tail - head, word, -1, tail - head + word);
      DivModUnique(tail - head + word, cap, m - 1, tail + cap - head);
    }
  }

  lemma {:induction false} Pow2Splits(a: nat, b: nat)
    ensures Pow2(a + b) == Pow2(a) * Pow2(b)
  {
    if a > 0 {
      Pow2Splits(a - 1, b);
      assert Pow2(a) * Pow2(b) == 2 * (Pow2(a - 1) * Pow2(b));
    }
  }

  /** One turn of the dropping loop makes room exactly when there are at least two slots: with a single slot the
      ring looks full before and after the drop, for ever. */
  lemma DroppingMakesRoomIff(head: nat, tail: nat, k: nat)
    requires head < Pow2(k) && tail < Pow2(k) && NextIndex(tail, k) == head
    ensures NextIndex(tail, k) != NextIndex(head, k) <==> Pow2(k) >= 2
  {
    NextIndexWraps(tail, k);
    NextIndexWraps(head, k);
  }

  /** A full ring `was` without its oldest element. */
  ghost predicate DroppedOne<T>(was: seq<T>, now: seq<T>, k: nat) {
    |was| == Pow2(k) - 1 && |was| > 0 && now == was[1..]
  }

  // ----- the queue -----

  class Queue<T(0)> {
    const k: nat
    const buffer: array<T>
    var head: nat
    var tail: nat
    var dropCount: nat

    ghost predicate Valid()
      reads this
    {
      k <= 63 && buffer.Length == Pow2(k) && head < buffer.Length && tail < buffer.Length
    }

    ghost function Contents(): (s: seq<T>)
      requires Valid()
      reads this, buffer
      ensures |s| < buffer.Length
    {
      Live(buffer[..], head, Count(head, tail, buffer.Length))
    }

    constructor (k: nat)
      requires k <= 63
      ensures Valid() && fresh(buffer) && this.k == k && Contents() == [] && dropCount == 0
    {
      this.k := k;
      buffer := new T[Pow2(k)];
      head, tail, dropCount := 0, 0, 0;
    }

    method TryPush(item: T) returns (pushed: bool)
      requires Valid()
      modifies this`tail, buffer
      ensures Valid()
      ensures pushed <==> |old(Contents())| < Pow2(k) - 1
      ensures Contents() == if pushed then old(Contents()) + [item] else old(Contents())
    {
      var next := NextIndex(tail, k);
      FullIffOneSlotLeft(head, tail, k);
      if next == head {
        return false;
      }
      PushOnRing(buffer[..], head, tail, item, k);
      buffer[tail] := item;
      tail := next;
      return true;
    }

    /** Keeps exactly the newest 2^k - 1 elements, and says whether nothing had to go. */
    method DropOldestPush(item: T) returns (direct: bool)
      requires Valid() && k >= 1
      modifies this`head, this`tail, this`dropCount, buffer
      ensures Valid()
      ensures Contents() == Newest(old(Contents()) + [item], Pow2(k) - 1)
      ensures direct <==> |old(Contents())| < Pow2(k) - 1
      ensures dropCount == old(dropCount) + |old(Contents())| + 1 - |Contents()|
    {
      hide Live, Count, NextIndex, Pow2;
      var dropped := false;
      while true
        invariant Valid() && tail == old(tail) && buffer[..] == old(buffer[..])
        invariant !dropped ==> head == old(head) && dropCount == old(dropCount)
        invariant dropped ==> DroppedOne(old(Contents()), Contents(), k) && dropCount == old(dropCount) + 1
        decreases !dropped
      {
        var next := NextIndex(tail, k);
        FullIffOneSlotLeft(head, tail, k);
        if next != head {
          PushOnRing(buffer[..], head, tail, item, k);
          buffer[tail] := item;
          tail := next;
          return !dropped;
        }
        DroppingMakesRoomIff(head, tail, k);
        FullRingIsNotEmpty(head, tail, k);
        PopOnRing(buffer[..], head, tail, k);
        head := NextIndex(head, k);
        dropCount := dropCount + 1;
        dropped := true;
      }
    }

    method TryPop() returns (item: Option<T>)
      requires Valid()
      modifies this`head
      ensures Valid()
      ensures item.None? <==> old(Contents()) == []
      ensures item.None? ==> Contents() == []
      ensures item.Some? ==> old(Contents()) == [item.value] + Contents()
    {
      if head == tail {
        return None;
      }
      PopOnRing(buffer[..], head, tail, k);
      var taken := buffer[head];
      head := NextIndex(head, k);
      return Some(taken);
    }

    method Size() returns (n: nat)
      requires Valid()
      ensures n == |Contents()|
    {
      hide Pow2, BitAnd, Count;
      MaskedDifferenceIsCount(head, tail, k);
      n := BitAnd((tail - head) % Pow2(64), Pow2(k) - 1);
    }

    method Empty() returns (b: bool)
      requires Valid()
      ensures b <==> Contents() == []
    {
      b := head == tail;
    }

    method Full() returns (b: bool)
      requires Valid()
      ensures b <==> |Contents()| == Pow2(k) - 1
    {
      FullIffOneSlotLeft(head, tail, k);
      b := NextIndex(tail, k) == head;
    }
  }

  lemma FullRingIsNotEmpty(head: nat, tail: nat, k: nat)
    requires k >= 1 && head < Pow2(k) && tail < Pow2(k) && NextIndex(tail, k) == head
    ensures head != tail
  {
    NextIndexWraps(tail, k);
  }
}
