/** Fixed-width unsigned integers, 32-bit serial numbers and bitwise operators on naturals. */
module Machine {

  const TWO16: int := 0x1_0000
  const TWO31: int := 0x8000_0000
  const TWO32: int := 0x1_0000_0000
  const TWO64: int := 0x1_0000_0000_0000_0000

  type u8 = x: int | 0 <= x < 0x100
  type u16 = x: int | 0 <= x < TWO16
  type u32 = x: int | 0 <= x < TWO32
  type u64 = x: int | 0 <= x < TWO64

  datatype Option<+T> = None | Some(value: T)

  // ----- serial numbers (section 3.2 of RFC 1982) -----

  /** `a - b` in uint32_t arithmetic. */
  function Sub32(a: u32, b: u32): u32 {
    (a - b) % TWO32
  }

  /** `a + n` in uint32_t arithmetic. */
  function Add32(a: u32, n: nat): u32 {
    (a + n) % TWO32
  }

  predicate IsSequenceNewer(newer: u32, older: u32) {
    var delta := Sub32(newer, older);
    0 < delta < TWO31
  }

  /** The comparison orders every pair less than half the circle apart, in exactly one direction,
      and declares the two opposite points incomparable. */
  lemma SequenceNewerIsSerialOrder(a: u32, n: nat)
    requires n < TWO32
    ensures IsSequenceNewer(Add32(a, n), a) <==> 0 < n < TWO31
    ensures IsSequenceNewer(a, Add32(a, n)) <==> TWO31 < n
    ensures n == TWO31 ==> !IsSequenceNewer(a, Add32(a, n)) && !IsSequenceNewer(Add32(a, n), a)
  {
  }

  lemma SubAdd32(a: u32, n: nat)
    requires n < TWO32
    ensures Sub32(Add32(a, n), a) == n
  {
  }

  lemma SubInjective32(a: u32, b: u32, base: u32)
    ensures Sub32(a, base) == Sub32(b, base) ==> a == b
  {
  }

  lemma AddAdd32(a: u32, m: nat, n: nat)
    ensures Add32(Add32(a, m), n) == Add32(a, m + n)
  {
  }

  /** Moving the base of the window one forward brings every other number one nearer. */
  lemma SubNext32(k: u32, base: u32)
    requires k != base
    ensures Sub32(k, Add32(base, 1)) == Sub32(k, base) - 1
  {
  }

  // ----- clock readings -----

  const NS_PER_MS: int := 1_000_000

  /** Whole milliseconds between two readings in nanoseconds, truncated toward zero. */
  function ElapsedMs(now: int, since: int): int {
    if now >= since then (now - since) / NS_PER_MS else -((since - now) / NS_PER_MS)
  }

  // ----- bitwise operators, bit by bit -----

  function Pow2(k: nat): (r: nat)
    ensures r > 0
  {
    if k == 0 then 1 else 2 * Pow2(k - 1)
  }

  predicate Bit(x: nat, k: nat) {
    if k == 0 then x % 2 == 1 else Bit(x / 2, k - 1)
  }

  /** `x & y` */
  function BitAnd(x: nat, y: nat): nat {
    if x == 0 || y == 0 then 0
    else 2 * BitAnd(x / 2, y / 2) + (x % 2) * (y % 2)
  }

  /** `x | y` */
  function BitOr(x: nat, y: nat): nat {
    if x == 0 then y else if y == 0 then x
    else 2 * BitOr(x / 2, y / 2) + (if x % 2 == 1 || y % 2 == 1 then 1 else 0)
  }

  /** `x & ~y` */
  function BitAndNot(x: nat, y: nat): nat {
    if x == 0 then 0 else if y == 0 then x
    else 2 * BitAndNot(x / 2, y / 2) + (if x % 2 == 1 && y % 2 == 0 then 1 else 0)
  }

  lemma {:induction false} BitOfZero(k: nat)
    ensures !Bit(0, k)
  {
    if k > 0 {
      BitOfZero(k - 1);
    }
  }

  lemma {:induction false} BitOfPow2(k: nat, j: nat)
    ensures Bit(Pow2(k), j) <==> j == k
  {
    if k == 0 && j > 0 {
      BitOfZero(j - 1);
    } else if k > 0 && j > 0 {
      BitOfPow2(k - 1, j - 1);
    }
  }

  lemma {:induction false} BitOfOr(x: nat, y: nat, j: nat)
    ensures Bit(BitOr(x, y), j) <==> Bit(x, j) || Bit(y, j)
  {
    BitOfZero(j);
    if j > 0 && x != 0 && y != 0 {
      assert BitOr(x, y) / 2 == BitOr(x / 2, y / 2);
      BitOfOr(x / 2, y / 2, j - 1);
    }
  }

  lemma {:induction false} BitOfAndNot(x: nat, y: nat, j: nat)
    ensures Bit(BitAndNot(x, y), j) <==> Bit(x, j) && !Bit(y, j)
  {
    BitOfZero(j);
    if j > 0 && x != 0 && y != 0 {
      assert BitAndNot(x, y) / 2 == BitAndNot(x / 2, y / 2);
      BitOfAndNot(x / 2, y / 2, j - 1);
    }
  }

  /** Testing a word against a one-bit mask reads that bit. */
  lemma {:induction false} AndPow2(x: nat, k: nat)
    ensures BitAnd(x, Pow2(k)) == if Bit(x, k) then Pow2(k) else 0
  {
    BitOfZero(k);
    if k > 0 && x != 0 {
      assert Pow2(k) / 2 == Pow2(k - 1);
      AndPow2(x / 2, k - 1);
    } else if x != 0 {
      assert BitAnd(x / 2, 0) == 0;
    }
  }

  /** Masking with 2^k - 1 is the remainder modulo 2^k. */
  lemma {:induction false} AndMaskIsMod(x: nat, k: nat)
    ensures BitAnd(x, Pow2(k) - 1) == x % Pow2(k)
  {
    if k == 0 {
    } else if x == 0 {
      DivModUnique(0, Pow2(k), 0, 0);
    } else {
      var half := Pow2(k - 1);
      AndMaskIsMod(x / 2, k - 1);
      HalvedMod(x, half);
      AndOddMask(x, half);
    }
  }

  lemma AndOddMask(x: nat, half: nat)
    requires half > 0
    ensures BitAnd(x, 2 * half - 1) == 2 * BitAnd(x / 2, half - 1) + x % 2
  {
  }

  lemma HalvedMod(x: nat, half: nat)
    requires half > 0
    ensures x % (2 * half) == 2 * ((x / 2) % half) + x % 2
  {
    var h, b := x / 2, x % 2;
    var q, r := h / half, h % half;
    assert x == 2 * h + b;
    assert h == half * q + r;
    assert x == (2 * half) * q + (2 * r + b);
    DivModUnique(x, 2 * half, q, 2 * r + b);
  }

  lemma DivModUnique(x: int, m: int, q: int, r: int)
    requires 0 <= r < m && x == m * q + r
    ensures x / m == q && x % m == r
  {
    var q', r' := x / m, x % m;
    MulDistributes(m, q, q');
    MulAtLeast(m, q - q');
    MulAtLeast(m, q' - q);
    assert m * (q - q') == r' - r;
  }

  lemma MulDistributes(m: int, a: int, b: int)
    ensures m * (a - b) == m * a - m * b
    ensures m * (b - a) == m * b - m * a
  {
  }

  lemma MulAtLeast(m: int, k: int)
    requires m > 0
    ensures k >= 1 ==> m * k >= m
  {
  }

  /** One step round a ring of `m` slots. */
  lemma RingIndex(base: nat, d: nat, m: nat)
    requires base < m && d <= m
    ensures (base + d) % m == if base + d < m then base + d else base + d - m
  {
  }
}
