/** CRC32C as section 12.1 of RFC 3720 defines it: the remainder of a division of polynomials over GF(2). */
module CrcDivision {
  import opened Crc32c

  // ----- polynomials -----

  /** A polynomial over GF(2): the exponents whose coefficient is one. */
  type Polynomial = set<nat>

  function Plus(a: Polynomial, b: Polynomial): Polynomial {
    (a - b) + (b - a)
  }

  function TimesX(a: Polynomial): Polynomial {
    set i | i in a :: i + 1
  }

  function TimesXTo(a: Polynomial, n: nat): Polynomial {
    if n == 0 then a else TimesX(TimesXTo(a, n - 1))
  }

  /** The Castagnoli polynomial 0x11EDC6F41. */
  function Generator(): Polynomial {
    {32, 28, 27, 26, 25, 23, 22, 20, 19, 18, 14, 13, 11, 10, 9, 8, 6, 0}
  }

  /** The polynomial with these coefficients, that of the highest exponent first. */
  function OfBits(bits: seq<bool>): Polynomial {
    if bits == [] then {}
    else Plus(TimesX(OfBits(bits[..|bits| - 1])), if bits[|bits| - 1] then {0} else {})
  }

  /** The generator times the polynomial with these coefficients. */
  function Multiple(quotient: seq<bool>): Polynomial {
    if quotient == [] then {}
    else Plus(TimesX(Multiple(quotient[..|quotient| - 1])), if quotient[|quotient| - 1] then Generator() else {})
  }

  /** `r` is what is left of `p` after `n` steps of long division by the generator. */
  ghost predicate IsRemainder(p: Polynomial, n: nat, r: Polynomial) {
    && (forall k :: k in r ==> k < 32)
    && exists q: seq<bool> :: |q| == n && p == Plus(Multiple(q), r)
  }

  lemma TimesXPlus(a: Polynomial, b: Polynomial)
    ensures TimesX(Plus(a, b)) == Plus(TimesX(a), TimesX(b))
  {
    forall i ensures i in TimesX(Plus(a, b)) <==> i in Plus(TimesX(a), TimesX(b)) {
      InTimesX(a, i);
      InTimesX(b, i);
      InTimesX(Plus(a, b), i);
    }
  }

  lemma InTimesX(a: Polynomial, i: int)
    ensures i in TimesX(a) <==> i > 0 && i - 1 in a
  {
    if i > 0 && i - 1 in a {
      var j := i - 1;
      assert j in a && i == j + 1;
    }
  }

  lemma {:induction false} TimesXToPlus(a: Polynomial, b: Polynomial, n: nat)
    ensures TimesXTo(Plus(a, b), n) == Plus(TimesXTo(a, n), TimesXTo(b, n))
  {
    if n > 0 {
      TimesXToPlus(a, b, n - 1);
      TimesXPlus(TimesXTo(a, n - 1), TimesXTo(b, n - 1));
    }
  }

  lemma {:induction false} TimesXCommutes(a: Polynomial, n: nat)
    ensures TimesXTo(TimesX(a), n) == TimesX(TimesXTo(a, n))
  {
    if n > 0 {
      TimesXCommutes(a, n - 1);
    }
  }

  lemma {:induction false} MonomialTo(n: nat)
    ensures TimesXTo({0}, n) == {n} && TimesXTo({}, n) == {}
  {
    if n > 0 {
      MonomialTo(n - 1);
    }
  }

  // ----- the remainder is unique -----

  function Differs(a: seq<bool>, b: seq<bool>): (c: seq<bool>)
    requires |a| == |b|
    ensures |c| == |a|
  {
    seq(|a|, i requires 0 <= i < |a| => a[i] != b[i])
  }

  lemma {:induction false} MultiplePlus(a: seq<bool>, b: seq<bool>)
    requires |a| == |b|
    ensures Plus(Multiple(a), Multiple(b)) == Multiple(Differs(a, b))
  {
    if a != [] {
      var n := |a| - 1;
      MultiplePlus(a[..n], b[..n]);
      assert Differs(a, b)[..n] == Differs(a[..n], b[..n]);
      TimesXPlus(Multiple(a[..n]), Multiple(b[..n]));
    }
  }

  lemma DegreeOfGenerator()
    ensures 32 in Generator() && forall k :: k in Generator() ==> k <= 32
  {
  }

  /** A multiple of the generator is nothing or has a degree of at least 32. */
  lemma {:induction false} MultiplesAreLong(q: seq<bool>)
    ensures Multiple(q) == {} || exists k :: k in Multiple(q) && k >= 32
  {
    hide Generator, TimesX;
    DegreeOfGenerator();
    if q != [] {
      var front := Multiple(q[..|q| - 1]);
      MultiplesAreLong(q[..|q| - 1]);
      if k :| k in front && k >= 32 {
        InTimesX(front, k + 1);
        assert k + 1 in Multiple(q);
      } else {
        NothingTimesX();
        assert q[|q| - 1] ==> 32 in Multiple(q);
      }
    }
  }

  lemma NothingTimesX()
    ensures TimesX({}) == {}
  {
  }

  lemma RemainderIsUnique(p: Polynomial, n: nat, r: Polynomial, r': Polynomial)
    requires IsRemainder(p, n, r) && IsRemainder(p, n, r')
    ensures r == r'
  {
    var q: seq<bool> :| |q| == n && p == Plus(Multiple(q), r);
    var q': seq<bool> :| |q'| == n && p == Plus(Multiple(q'), r');
    MultiplePlus(q, q');
    MultiplesAreLong(Differs(q, q'));
    assert Plus(Multiple(q), Multiple(q')) == Plus(r, r');
    assert forall k :: k in Plus(r, r') ==> k < 32;
    assert Plus(r, r') == {};
  }

  // ----- the register as a polynomial -----

  predicate BitAt(w: Word, k: nat) {
    if k == 0 then Odd(w) else BitAt(Half(w), k - 1)
  }

  predicate Coefficient(crc: Word, k: nat) {
    k < 32 && BitAt(crc, 31 - k)
  }

  /** The register holds its polynomial reflected: the lowest bit is the coefficient of x^31. */
  function Register(crc: Word): Polynomial {
    set k: nat | k < 32 && Coefficient(crc, k)
  }

  lemma {:induction false} BitOfXor(a: Word, b: Word, k: nat)
    ensures BitAt(Xor(a, b), k) <==> BitAt(a, k) != BitAt(b, k)
    decreases k
  {
    hide Xor, Half, Odd;
    XorParts(a, b);
    if k > 0 {
      BitOfXor(Half(a), Half(b), k - 1);
    }
  }

  lemma XorParts(a: Word, b: Word)
    ensures Half(Xor(a, b)) == Xor(Half(a), Half(b))
    ensures Odd(Xor(a, b)) <==> Odd(a) != Odd(b)
  {
  }

  /** The bits from the `n`th on are those of the word shifted by `n`. */
  lemma {:induction false} BitDown(w: Word, n: nat, k: nat)
    ensures BitAt(w, n + k) == BitAt(ShiftRight(w, n), k)
    decreases n
  {
    hide Half, Odd;
    if n > 0 {
      BitDown(Half(w), n - 1, k);
    }
  }

  function ByteShift(w: Word): Word {
    w >> 8
  }

  lemma ByteDown(w: Word, k: nat)
    ensures BitAt(w, 8 + k) == BitAt(ByteShift(w), k)
  {
    hide BitAt, ShiftRight;
    BitDown(w, 8, k);
    ShiftRight8(w);
  }

  lemma FourBytes(w: Word)
    ensures ByteShift(ByteShift(ByteShift(ByteShift(w)))) == 0 && !Odd(0)
  {
  }

  lemma WordsHaveThirtyTwoBits(w: Word)
    ensures !BitAt(w, 32)
  {
    hide Half, ByteShift, Odd;
    ByteDown(w, 24);
    ByteDown(ByteShift(w), 16);
    ByteDown(ByteShift(ByteShift(w)), 8);
    ByteDown(ByteShift(ByteShift(ByteShift(w))), 0);
    FourBytes(w);
  }

  // ----- the constant of the code -----

  /** The low byte of `w` holds the coefficients from x^`top` down. */
  ghost predicate LowByteIs(w: Word, top: nat) {
    forall m: nat :: m < 8 <= top + 1 ==> (BitAt(w, m) <==> top - m in Generator())
  }

  lemma FirstByteOfPolynomial()
    ensures LowByteIs(0x82F63B78, 31)
  {
    assert !BitAt(0x82F63B78, 0) && !BitAt(0x82F63B78, 1) && !BitAt(0x82F63B78, 2) && BitAt(0x82F63B78, 3) && BitAt(0x82F63B78, 4) && BitAt(0x82F63B78, 5) && BitAt(0x82F63B78, 6) && !BitAt(0x82F63B78, 7);
  }

  lemma SecondByteOfPolynomial()
    ensures LowByteIs(0x82F63B, 23)
  {
    assert BitAt(0x82F63B, 0) && BitAt(0x82F63B, 1) && !BitAt(0x82F63B, 2) && BitAt(0x82F63B, 3) && BitAt(0x82F63B, 4) && BitAt(0x82F63B, 5) && !BitAt(0x82F63B, 6) && !BitAt(0x82F63B, 7);
  }

  lemma ThirdByteOfPolynomial()
    ensures LowByteIs(0x82F6, 15)
  {
    assert !BitAt(0x82F6, 0) && BitAt(0x82F6, 1) && BitAt(0x82F6, 2) && !BitAt(0x82F6, 3) && BitAt(0x82F6, 4) && BitAt(0x82F6, 5) && BitAt(0x82F6, 6) && BitAt(0x82F6, 7);
  }

  lemma FourthByteOfPolynomial()
    ensures LowByteIs(0x82, 7)
  {
    assert !BitAt(0x82, 0) && BitAt(0x82, 1) && !BitAt(0x82, 2) && !BitAt(0x82, 3) && !BitAt(0x82, 4) && !BitAt(0x82, 5) && !BitAt(0x82, 6) && BitAt(0x82, 7);
  }

  lemma PolynomialShifts()
    ensures ByteShift(POLY_REFLECTED) == 0x82F63B && ByteShift(0x82F63B) == 0x82F6 && ByteShift(0x82F6) == 0x82
  {
  }

  /** The constant of the code is the generator without its leading term, reflected. */
  lemma PolynomialIsTheGenerator(k: nat)
    requires k < 32
    ensures Coefficient(POLY_REFLECTED, k) <==> k in Generator()
  {
    hide Generator, BitAt, ByteShift;
    FirstByteOfPolynomial();
    SecondByteOfPolynomial();
    ThirdByteOfPolynomial();
    FourthByteOfPolynomial();
    PolynomialShifts();
    var j := 31 - k;
    if j >= 8 {
      ByteDown(POLY_REFLECTED, j - 8);
    }
    if j >= 16 {
      ByteDown(0x82F63B, j - 16);
    }
    if j >= 24 {
      ByteDown(0x82F6, j - 24);
    }
    assert k == 31 - j && k == 23 - (j - 8) && k == 15 - (j - 16) && k == 7 - (j - 24);
  }

  // ----- one bit is one step of long division -----

  lemma FedBit(crc: Word, bit: bool, k: nat)
    ensures BitAt(FeedBit(crc, bit), k) <==> (BitAt(crc, k + 1) != (Odd(crc) != bit && BitAt(POLY_REFLECTED, k)))
  {
    hide Xor, Half, Odd, FeedBit;
    FeedCases(crc, bit);
    BitOfXor(Half(crc), POLY_REFLECTED, k);
  }

  lemma InRegister(crc: Word, k: int)
    ensures k in Register(crc) <==> 0 <= k < 32 && BitAt(crc, 31 - k)
  {
  }

  /** Multiply by x, take the next bit in at x^32, and subtract the generator if x^32 is then there. */
  lemma BitIsDivisionStep(crc: Word, bit: bool)
    ensures var shifted := Plus(TimesX(Register(crc)), if bit then {32} else {});
      Plus(shifted, if Odd(crc) != bit then Generator() else {}) == Register(FeedBit(crc, bit))
  {
    hide Register, Generator, BitAt, FeedBit, TimesX, Odd;
    var shifted := Plus(TimesX(Register(crc)), if bit then {32} else {});
    var next := Plus(shifted, if Odd(crc) != bit then Generator() else {});
    forall k: nat ensures k in next <==> k in Register(FeedBit(crc, bit)) {
      InRegister(crc, k - 1);
      InTimesX(Register(crc), k);
      InRegister(FeedBit(crc, bit), k);
      DegreeOfGenerator();
      if k < 32 {
        PolynomialIsTheGenerator(k);
        FedBit(crc, bit, 31 - k);
        WordsHaveThirtyTwoBits(crc);
      } else {
        LowestBit(crc);
      }
    }
  }

  lemma LowestBit(crc: Word)
    ensures BitAt(crc, 0) <==> Odd(crc)
  {
  }

  // ----- the division -----

  /** The register after these bits, the first one fed first. */
  function FeedAll(crc: Word, bits: seq<bool>): Word {
    if bits == [] then crc else FeedBit(FeedAll(crc, bits[..|bits| - 1]), bits[|bits| - 1])
  }

  /** The bits up front, then 32 zeros, with the start of the register added to the first 32 of them. */
  function Dividend(crc: Word, bits: seq<bool>): Polynomial {
    Plus(TimesXTo(OfBits(bits), 32), TimesXTo(Register(crc), |bits|))
  }

  lemma DividendGrows(crc: Word, bits: seq<bool>, bit: bool)
    ensures Dividend(crc, bits + [bit]) == Plus(TimesX(Dividend(crc, bits)), if bit then {32} else {})
  {
    hide TimesX, Register;
    assert (bits + [bit])[..|bits|] == bits;
    var last: Polynomial := if bit then {0} else {};
    TimesXToPlus(TimesX(OfBits(bits)), last, 32);
    TimesXCommutes(OfBits(bits), 32);
    MonomialTo(32);
    TimesXPlus(TimesXTo(OfBits(bits), 32), TimesXTo(Register(crc), |bits|));
  }

  /** Whatever is subtracted from the rest is added to the multiple. */
  lemma Regroup(m: Polynomial, r: Polynomial, b: Polynomial, g: Polynomial)
    ensures Plus(Plus(m, r), b) == Plus(Plus(m, g), Plus(Plus(r, b), g))
  {
  }

  lemma DivisionStep(crc: Word, front: seq<bool>, bit: bool, q: seq<bool>)
    requires Dividend(crc, front) == Plus(Multiple(q), Register(FeedAll(crc, front)))
    ensures var before := FeedAll(crc, front);
      Dividend(crc, front + [bit]) == Plus(Multiple(q + [Odd(before) != bit]), Register(FeedBit(before, bit)))
  {
    hide TimesX, FeedBit, Generator, TimesXTo, Odd, Dividend, Register, Plus;
    var before := FeedAll(crc, front);
    var b: Polynomial := if bit then {32} else {};
    var g: Polynomial := if Odd(before) != bit then Generator() else {};
    assert (q + [Odd(before) != bit])[..|q|] == q;
    DividendGrows(crc, front, bit);
    BitIsDivisionStep(before, bit);
    TimesXPlus(Multiple(q), Register(before));
    Regroup(TimesX(Multiple(q)), TimesX(Register(before)), b, g);
  }

  lemma RegisterIsShort(crc: Word)
    ensures forall k :: k in Register(crc) ==> k < 32
  {
  }

  lemma {:induction false} RegisterIsRemainder(crc: Word, bits: seq<bool>)
    ensures IsRemainder(Dividend(crc, bits), |bits|, Register(FeedAll(crc, bits)))
  {
    hide FeedBit, Odd, Dividend, Register, Plus, Multiple;
    var n := |bits| - 1;
    RegisterIsShort(FeedAll(crc, bits));
    if bits == [] {
      NothingFed(crc);
    } else {
      var front, bit := bits[..n], bits[n];
      RegisterIsRemainder(crc, front);
      var q: seq<bool> :| |q| == n && Dividend(crc, front) == Plus(Multiple(q), Register(FeedAll(crc, front)));
      DivisionStep(crc, front, bit, q);
      assert bits == front + [bit];
    }
  }

  lemma NothingFed(crc: Word)
    ensures Dividend(crc, []) == Plus(Multiple([]), Register(crc))
  {
    MonomialTo(32);
  }

  // ----- the CRC of a message -----

  /** The eight bits of a byte, the lowest first, as they go over the wire. */
  function BitsOf(w: Word, n: nat): (bits: seq<bool>)
    ensures |bits| == n
    decreases n
  {
    if n == 0 then [] else [Odd(w)] + BitsOf(Half(w), n - 1)
  }

  function MessageBits(message: seq<Byte>): (bits: seq<bool>)
    ensures |bits| == 8 * |message|
  {
    if message == [] then [] else MessageBits(message[..|message| - 1]) + BitsOf(message[|message| - 1] as Word, 8)
  }

  lemma {:induction false} FeedAllConcat(crc: Word, a: seq<bool>, b: seq<bool>)
    ensures FeedAll(crc, a + b) == FeedAll(FeedAll(crc, a), b)
  {
    hide FeedBit;
    if b == [] {
      assert a + b == a;
    } else {
      FeedAllConcat(crc, a, b[..|b| - 1]);
      assert (a + b)[..|a + b| - 1] == a + b[..|b| - 1];
    }
  }

  lemma FeedOne(crc: Word, bit: bool)
    ensures FeedAll(crc, [bit]) == FeedBit(crc, bit)
  {
    assert [bit][..0] == [];
  }

  lemma {:induction false} BitsAreFed(crc: Word, w: Word, n: nat)
    ensures FeedBits(crc, w, n) == FeedAll(crc, BitsOf(w, n))
    decreases n
  {
    if n > 0 {
      hide FeedBit, FeedAll, Half;
      FeedOne(crc, Odd(w));
      FeedAllConcat(crc, [Odd(w)], BitsOf(Half(w), n - 1));
      BitsAreFed(FeedBit(crc, Odd(w)), Half(w), n - 1);
    }
  }

  lemma {:induction false} MessageIsFed(crc: Word, message: seq<Byte>)
    ensures Feed(crc, message) == FeedAll(crc, MessageBits(message))
  {
    if message != [] {
      hide FeedBits, BitsOf;
      var front, b := message[..|message| - 1], message[|message| - 1];
      MessageIsFed(crc, front);
      BitsAreFed(Feed(crc, front), b as Word, 8);
      FeedAllConcat(crc, MessageBits(front), BitsOf(b as Word, 8));
    }
  }

  /** The CRC of every message is the complement of the one remainder that is left when the message, followed by 32 zeros
      and with its first 32 bits complemented, is divided by the Castagnoli polynomial. */
  lemma CrcIsTheRemainder(message: seq<Byte>, r: Polynomial)
    ensures var bits := MessageBits(message);
      var dividend := Plus(TimesXTo(OfBits(bits), 32), TimesXTo(OfBits(seq(32, _ => true)), |bits|));
      IsRemainder(dividend, |bits|, r) <==> r == Register(Xor(Reference(message), 0xFFFF_FFFF))
  {
    hide Feed, FeedAll, Register, IsRemainder, OfBits, TimesXTo, Plus, MessageBits, Xor;
    var bits := MessageBits(message);
    AllOnes();
    RegisterIsRemainder(0xFFFF_FFFF, bits);
    MessageIsFed(0xFFFF_FFFF, message);
    TwiceComplemented(Feed(0xFFFF_FFFF, message), message);
    if IsRemainder(Dividend(0xFFFF_FFFF, bits), |bits|, r) {
      RemainderIsUnique(Dividend(0xFFFF_FFFF, bits), |bits|, r, Register(FeedAll(0xFFFF_FFFF, bits)));
    }
  }

  lemma TwiceComplemented(crc: Word, message: seq<Byte>)
    requires crc == Feed(0xFFFF_FFFF, message)
    ensures Xor(Reference(message), 0xFFFF_FFFF) == crc
  {
    hide Feed;
  }

  ghost predicate LowOnes(w: Word) {
    forall m: nat :: m < 8 ==> BitAt(w, m)
  }

  lemma FourOnes()
    ensures LowOnes(0xFFFFFFFF)
  {
    assert BitAt(0xFFFFFFFF, 0) && BitAt(0xFFFFFFFF, 1) && BitAt(0xFFFFFFFF, 2) && BitAt(0xFFFFFFFF, 3) && BitAt(0xFFFFFFFF, 4) && BitAt(0xFFFFFFFF, 5) && BitAt(0xFFFFFFFF, 6) && BitAt(0xFFFFFFFF, 7);
  }

  lemma ThreeOnes()
    ensures LowOnes(0xFFFFFF)
  {
    assert BitAt(0xFFFFFF, 0) && BitAt(0xFFFFFF, 1) && BitAt(0xFFFFFF, 2) && BitAt(0xFFFFFF, 3) && BitAt(0xFFFFFF, 4) && BitAt(0xFFFFFF, 5) && BitAt(0xFFFFFF, 6) && BitAt(0xFFFFFF, 7);
  }

  lemma TwoOnes()
    ensures LowOnes(0xFFFF)
  {
    assert BitAt(0xFFFF, 0) && BitAt(0xFFFF, 1) && BitAt(0xFFFF, 2) && BitAt(0xFFFF, 3) && BitAt(0xFFFF, 4) && BitAt(0xFFFF, 5) && BitAt(0xFFFF, 6) && BitAt(0xFFFF, 7);
  }

  lemma OneOnes()
    ensures LowOnes(0xFF)
  {
    assert BitAt(0xFF, 0) && BitAt(0xFF, 1) && BitAt(0xFF, 2) && BitAt(0xFF, 3) && BitAt(0xFF, 4) && BitAt(0xFF, 5) && BitAt(0xFF, 6) && BitAt(0xFF, 7);
  }

  lemma OnesShift()
    ensures ByteShift(0xFFFF_FFFF) == 0xFFFFFF && ByteShift(0xFFFFFF) == 0xFFFF && ByteShift(0xFFFF) == 0xFF
  {
  }

  lemma {:induction false} OnesAt(n: nat, k: int)
    ensures k in OfBits(seq(n, _ => true)) <==> 0 <= k < n
  {
    hide TimesX;
    if n > 0 {
      assert seq(n, _ => true)[..n - 1] == seq(n - 1, _ => true);
      OnesAt(n - 1, k - 1);
      InTimesX(OfBits(seq(n - 1, _ => true)), k);
    }
  }

  lemma AllOnes()
    ensures Register(0xFFFF_FFFF) == OfBits(seq(32, _ => true))
  {
    hide BitAt, ByteShift, OfBits;
    FourOnes();
    ThreeOnes();
    TwoOnes();
    OneOnes();
    OnesShift();
    forall k: nat ensures k in Register(0xFFFF_FFFF) <==> k in OfBits(seq(32, _ => true)) {
      OnesAt(32, k);
      var j := 31 - k;
      if j >= 8 {
        ByteDown(0xFFFF_FFFF, j - 8);
      }
      if j >= 16 {
        ByteDown(0xFFFFFF, j - 16);
      }
      if j >= 24 {
        ByteDown(0xFFFF, j - 24);
      }
    }
  }

  // ----- the check vector -----

  lemma OneMore(message: seq<Byte>, b: Byte)
    ensures Feed(0xFFFF_FFFF, message + [b]) == FeedByte(Feed(0xFFFF_FFFF, message), b)
  {
    hide FeedByte;
    assert (message + [b])[..|message|] == message;
  }

  lemma CheckBytes()
    ensures FeedByte(0xFFFFFFFF, 0x31) == 0x6F0A661C
    ensures FeedByte(0x6F0A661C, 0x32) == 0x8CAA3B9F
    ensures FeedByte(0x8CAA3B9F, 0x33) == 0xEF84D04D
    ensures FeedByte(0xEF84D04D, 0x34) == 0x09C50B11
    ensures FeedByte(0x09C50B11, 0x35) == 0xE72EDCCA
    ensures FeedByte(0xE72EDCCA, 0x36) == 0xBECA8E79
    ensures FeedByte(0xBECA8E79, 0x37) == 0xEDBD6815
    ensures FeedByte(0xEDBD6815, 0x38) == 0x9F787F65
    ensures FeedByte(0x9F787F65, 0x39) == 0x1CF96D7C
  {
  }

  /** The published check value: "123456789" has the CRC 0xE3069283. */
  lemma CheckVector()
    ensures Reference([0x31, 0x32, 0x33, 0x34, 0x35, 0x36, 0x37, 0x38, 0x39]) == 0xE306_9283
  {
    hide Feed, FeedByte;
    CheckBytes();
    FeedNone(0xFFFF_FFFF);
    var m0: seq<Byte> := [];
    var m1: seq<Byte> := m0 + [0x31];
    var m2: seq<Byte> := m1 + [0x32];
    var m3: seq<Byte> := m2 + [0x33];
    var m4: seq<Byte> := m3 + [0x34];
    var m5: seq<Byte> := m4 + [0x35];
    var m6: seq<Byte> := m5 + [0x36];
    var m7: seq<Byte> := m6 + [0x37];
    var m8: seq<Byte> := m7 + [0x38];
    var m9: seq<Byte> := m8 + [0x39];
    OneMore(m0, 0x31);
    OneMore(m1, 0x32);
    OneMore(m2, 0x33);
    OneMore(m3, 0x34);
    OneMore(m4, 0x35);
    OneMore(m5, 0x36);
    OneMore(m6, 0x37);
    OneMore(m7, 0x38);
    OneMore(m8, 0x39);
    assert m9 == [0x31, 0x32, 0x33, 0x34, 0x35, 0x36, 0x37, 0x38, 0x39];
  }
}
