/** CRC32C (section 12.1 of RFC 3720): the table-driven loop against the bit-at-a-time shift register. */
module Crc32c {
  import opened Machine

  type Byte = bv8
  type Word = bv32

  const INIT_XOR: Word := 0xFFFF_FFFF
  /** The Castagnoli polynomial, reflected. */
  const POLY_REFLECTED: Word := 0x82F6_3B78

  /** The machine operators that the proofs treat as opaque symbols. */
  function Xor(a: Word, b: Word): Word {
    a ^ b
  }

  function Half(a: Word): Word {
    a >> 1
  }

  predicate Odd(a: Word) {
    a & 1 == 1
  }

  // ----- the reference: a shift register fed one message bit at a time -----

  /** Feeds one bit: shift, and subtract the polynomial when the bit leaving differs from the bit arriving. */
  function FeedBit(crc: Word, bit: bool): Word {
    if (crc & 1 == 1) != bit then (crc >> 1) ^ POLY_REFLECTED else crc >> 1
  }

  /** Feeds the `n` low bits of a word, least significant first. */
  function FeedBits(crc: Word, bits: Word, n: nat): Word
    decreases n
  {
    if n == 0 then crc else FeedBits(FeedBit(crc, bits & 1 == 1), Half(bits), n - 1)
  }

  function FeedByte(crc: Word, b: Byte): Word {
    FeedBits(crc, b as Word, 8)
  }

  function Feed(crc: Word, message: seq<Byte>): Word {
    if message == [] then crc
    else FeedByte(Feed(crc, message[..|message| - 1]), message[|message| - 1])
  }

  function Reference(message: seq<Byte>): Word {
    Feed(INIT_XOR, message) ^ INIT_XOR
  }

  // ----- the bit step of the table -----

  /** The polynomial under a mask that is all ones for a set low bit, and zero otherwise. */
  function MaskedPoly(low: Word): Word {
    POLY_REFLECTED & (0 - low)
  }

  function LowBitOf(crc: Word): Word {
    crc & 1
  }

  /** One turn of the inner loop. */
  function BitStep(crc: Word): Word {
    Xor(Half(crc), MaskedPoly(LowBitOf(crc)))
  }

  function Steps(crc: Word, n: nat): Word {
    if n == 0 then crc else BitStep(Steps(crc, n - 1))
  }

  function UndoStep(crc: Word): Word {
    if crc & 0x8000_0000 != 0 then ((crc ^ POLY_REFLECTED) << 1) | 1 else crc << 1
  }

  lemma LowBitCases(a: Word)
    ensures LowBitOf(a) == if Odd(a) then 1 else 0
  {
  }

  lemma MaskCases()
    ensures MaskedPoly(1) == POLY_REFLECTED && MaskedPoly(0) == 0
  {
  }

  /** The masked form of the step is the conditional one. */
  lemma StepCases(a: Word)
    ensures BitStep(a) == if Odd(a) then Xor(Half(a), POLY_REFLECTED) else Half(a)
  {
    hide Odd, MaskedPoly, LowBitOf, Xor, Half;
    LowBitCases(a);
    MaskCases();
    XorZero(Half(a));
  }

  lemma OddXor(a: Word, b: Word)
    ensures Odd(Xor(a, b)) <==> Odd(a) != Odd(b)
  {
  }

  lemma HalfXor(a: Word, b: Word)
    ensures Half(Xor(a, b)) == Xor(Half(a), Half(b))
  {
  }

  lemma XorGroup(a: Word, b: Word, p: Word)
    ensures Xor(Xor(a, p), b) == Xor(Xor(a, b), p) && Xor(a, Xor(b, p)) == Xor(Xor(a, b), p) && Xor(Xor(a, p), Xor(b, p)) == Xor(a, b)
  {
  }

  lemma StepIsLinear(a: Word, b: Word)
    ensures BitStep(Xor(a, b)) == Xor(BitStep(a), BitStep(b))
  {
    hide BitStep, Xor, Half, Odd;
    StepCases(a);
    StepCases(b);
    StepCases(Xor(a, b));
    OddXor(a, b);
    HalfXor(a, b);
    XorGroup(Half(a), Half(b), POLY_REFLECTED);
  }

  lemma UndoOfEven(a: Word)
    requires !Odd(a)
    ensures UndoStep(Half(a)) == a
  {
  }

  lemma UndoOfOdd(a: Word)
    requires Odd(a)
    ensures UndoStep(Xor(Half(a), POLY_REFLECTED)) == a
  {
  }

  lemma RedoLow(a: Word)
    requires a & 0x8000_0000 == 0
    ensures (a << 1) & 1 == 0 && (a << 1) >> 1 == a
  {
  }

  lemma RedoHigh(a: Word)
    requires a & 0x8000_0000 != 0
    ensures (((a ^ 0x82F6_3B78) << 1) | 1) & 1 == 1
    ensures ((((a ^ 0x82F6_3B78) << 1) | 1) >> 1) ^ 0x82F6_3B78 == a
  {
  }

  /** The bit step is a bijection on 32-bit states. */
  lemma StepIsBijective(a: Word)
    ensures UndoStep(BitStep(a)) == a && BitStep(UndoStep(a)) == a
  {
    UndoIsLeftInverse(a);
    UndoIsRightInverse(a);
  }

  lemma UndoIsLeftInverse(a: Word)
    ensures UndoStep(BitStep(a)) == a
  {
    hide BitStep, Xor, Half, Odd, UndoStep;
    StepCases(a);
    if Odd(a) { UndoOfOdd(a); } else { UndoOfEven(a); }
  }

  lemma UndoIsRightInverse(a: Word)
    ensures BitStep(UndoStep(a)) == a
  {
    hide BitStep;
    StepCases(UndoStep(a));
    if a & 0x8000_0000 == 0 { RedoLow(a); } else { RedoHigh(a); }
  }

  lemma StepOfEven(a: Word)
    requires a & 1 == 0
    ensures BitStep(a) == Half(a)
  {
    hide BitStep;
    StepCases(a);
  }

  /** The word with only the given low bit. */
  function LowBit(bit: bool): Word {
    if bit then 1 else 0
  }

  lemma FeedCases(crc: Word, bit: bool)
    ensures FeedBit(crc, bit) == if Odd(crc) != bit then Xor(Half(crc), POLY_REFLECTED) else Half(crc)
  {
  }

  lemma LowBitAlone(bit: bool)
    ensures (Odd(LowBit(bit)) <==> bit) && Half(LowBit(bit)) == 0
  {
  }

  lemma FeedBitIsStep(crc: Word, bit: bool)
    ensures FeedBit(crc, bit) == BitStep(Xor(crc, LowBit(bit)))
  {
    hide BitStep, Xor, Half, Odd, FeedBit, LowBit;
    FeedCases(crc, bit);
    LowBitAlone(bit);
    StepCases(Xor(crc, LowBit(bit)));
    OddXor(crc, LowBit(bit));
    HalfXor(crc, LowBit(bit));
    XorZero(Half(crc));
  }

  // ----- several steps -----

  lemma {:induction false} StepsAreLinear(a: Word, b: Word, n: nat)
    ensures Steps(Xor(a, b), n) == Xor(Steps(a, n), Steps(b, n))
  {
    hide BitStep, Xor;
    if n > 0 {
      StepsAreLinear(a, b, n - 1);
      StepIsLinear(Steps(a, n - 1), Steps(b, n - 1));
    }
  }

  lemma {:induction false} StepsAreInjective(a: Word, b: Word, n: nat)
    requires Steps(a, n) == Steps(b, n)
    ensures a == b
  {
    hide BitStep, UndoStep;
    if n > 0 {
      StepIsBijective(Steps(a, n - 1));
      StepIsBijective(Steps(b, n - 1));
      StepsAreInjective(a, b, n - 1);
    }
  }

  lemma {:induction false} StepsAdd(a: Word, m: nat, n: nat)
    ensures Steps(Steps(a, m), n) == Steps(a, m + n)
  {
    hide BitStep;
    if n > 0 {
      StepsAdd(a, m, n - 1);
    }
  }

  lemma FirstStep(a: Word, n: nat)
    requires n > 0
    ensures Steps(a, n) == Steps(BitStep(a), n - 1)
  {
    hide BitStep;
    StepsAdd(a, 1, n - 1);
    assert Steps(a, 1) == BitStep(Steps(a, 0));
  }

  /** `a >> n`, one place at a time. */
  function ShiftRight(a: Word, n: nat): Word
    decreases n
  {
    if n == 0 then a else ShiftRight(Half(a), n - 1)
  }

  /** The `n` low bits are clear. */
  predicate LowClear(a: Word, n: nat)
    decreases n
  {
    n == 0 || (a & 1 == 0 && LowClear(Half(a), n - 1))
  }

  lemma ShiftRight8(a: Word)
    ensures ShiftRight(a, 8) == a >> 8
  {
  }

  lemma LowClear8(a: Word)
    requires a & 0xFF == 0
    ensures LowClear(a, 8)
  {
  }

  lemma SplitLowBit(bits: Word)
    ensures Xor(LowBit(bits & 1 == 1), Half(bits) << 1) == bits
    ensures (Half(bits) << 1) & 1 == 0 && Half(Half(bits) << 1) == Half(bits)
  {
  }

  lemma XorZero(a: Word)
    ensures Xor(a, 0) == a
  {
  }

  lemma XorAssociates(a: Word, b: Word, c: Word)
    ensures Xor(Xor(a, b), c) == Xor(a, Xor(b, c))
  {
  }

  /** Feeding bits one at a time is xoring them in at once and stepping. */
  lemma {:induction false} FeedBitsIsSteps(crc: Word, bits: Word, n: nat)
    requires ShiftRight(bits, n) == 0
    ensures FeedBits(crc, bits, n) == Steps(Xor(crc, bits), n)
    decreases n
  {
    hide BitStep, FeedBit, Xor, Half, LowBit;
    if n == 0 {
      XorZero(crc);
    } else {
      var low, rest := LowBit(bits & 1 == 1), Half(bits) << 1;
      SplitLowBit(bits);
      XorAssociates(crc, low, rest);
      FeedBitIsStep(crc, bits & 1 == 1);
      StepIsLinear(Xor(crc, low), rest);
      StepOfEven(rest);
      FeedBitsIsSteps(FeedBit(crc, bits & 1 == 1), Half(bits), n - 1);
      FirstStep(Xor(crc, bits), n);
    }
  }

  lemma FeedByteIsSteps(crc: Word, b: Byte)
    ensures FeedByte(crc, b) == Steps(Xor(crc, b as Word), 8)
  {
    hide FeedBits, Steps, Xor, ShiftRight;
    ShiftRight8(b as Word);
    FeedBitsIsSteps(crc, b as Word, 8);
  }

  lemma {:induction false} StepsOfEven(a: Word, n: nat)
    requires LowClear(a, n)
    ensures Steps(a, n) == ShiftRight(a, n)
    decreases n
  {
    hide BitStep, Half;
    if n > 0 {
      StepOfEven(a);
      StepsOfEven(Half(a), n - 1);
      FirstStep(a, n);
    }
  }

  /** Eight steps on a word whose low byte is clear are a shift. */
  lemma StepsOfHigh(a: Word)
    requires a & 0xFF == 0
    ensures Steps(a, 8) == a >> 8
  {
    hide Steps, ShiftRight, LowClear;
    LowClear8(a);
    StepsOfEven(a, 8);
    ShiftRight8(a);
  }

  // ----- the table -----

  function LowByte(crc: Word, b: Byte): Byte {
    ((crc ^ (b as Word)) & 0xFF) as Byte
  }

  function Folded(entry: Word, crc: Word): Word {
    entry ^ (crc >> 8)
  }

  function HighBytes(crc: Word): Word {
    crc & 0xFFFF_FF00
  }

  lemma SplitLowByte(crc: Word, b: Byte)
    ensures Xor(crc, b as Word) == Xor(LowByte(crc, b) as Word, HighBytes(crc))
    ensures HighBytes(crc) & 0xFF == 0 && HighBytes(crc) >> 8 == crc >> 8
  {
  }

  lemma FoldedIsXor(entry: Word, crc: Word)
    ensures Folded(entry, crc) == Xor(entry, crc >> 8)
  {
  }

  /** One table lookup does the work of eight bit steps. */
  lemma LookupIsFeedByte(crc: Word, b: Byte)
    ensures Folded(Steps(LowByte(crc, b) as Word, 8), crc) == FeedByte(crc, b)
  {
    hide Steps, Xor, FeedByte, LowByte, HighBytes, Folded;
    SplitLowByte(crc, b);
    FeedByteIsSteps(crc, b);
    StepsAreLinear(LowByte(crc, b) as Word, HighBytes(crc), 8);
    StepsOfHigh(HighBytes(crc));
    FoldedIsXor(Steps(LowByte(crc, b) as Word, 8), crc);
  }

  lemma WordOfByte(b: Byte)
    ensures 0 <= b as int < 256 && (b as Word) as int == b as int
  {
  }

  lemma WordRoundTrip(w: Word)
    ensures 0 <= w as int < TWO32 && (w as int) as Word == w
  {
  }

  lemma IndexRoundTrip(b: Byte)
    ensures 0 <= b as int < 256 && (b as int) as Word == b as Word
  {
    WordOfByte(b);
    WordRoundTrip(b as Word);
  }

  lemma NextStep(a: Word, n: nat)
    ensures Steps(a, n + 1) == BitStep(Steps(a, n))
  {
    hide BitStep;
  }

  lemma NoStep(a: Word)
    ensures Steps(a, 0) == a
  {
  }

  function Entry(j: nat): Word
    requires j < 256
  {
    Steps(j as Word, 8)
  }

  /** Each entry is its index, eight bit steps on. */
  method MakeTable() returns (table: array<Word>)
    ensures fresh(table) && table.Length == 256
    ensures forall j :: 0 <= j < 256 ==> table[j] == Entry(j)
  {
    hide Steps, BitStep;
    table := new Word[256];
    for i := 0 to 256
      invariant forall j :: 0 <= j < i ==> table[j] == Entry(j)
    {
      var crc := i as Word;
      NoStep(crc);
      for bit := 0 to 8
        invariant crc == Steps(i as Word, bit)
        invariant forall j :: 0 <= j < i ==> table[j] == Entry(j)
      {
        NextStep(i as Word, bit);
        crc := BitStep(crc);
      }
      assert crc == Entry(i);
      table[i] := crc;
    }
  }

  lemma FeedNext(start: Word, data: seq<Byte>, i: nat)
    requires i < |data|
    ensures Feed(start, data[..i + 1]) == FeedByte(Feed(start, data[..i]), data[i])
  {
    hide FeedByte;
    assert data[..i + 1][..i] == data[..i];
  }

  /** `static_cast<uint8_t>((crc ^ data) & 0xFF)`, as an array index. */
  function TableIndex(crc: Word, b: Byte): (i: nat)
    ensures i < 256
  {
    LowByte(crc, b) as int
  }

  lemma EntryAtIndex(crc: Word, b: Byte)
    ensures Entry(TableIndex(crc, b)) == Steps(LowByte(crc, b) as Word, 8)
  {
    hide Steps, LowByte;
    IndexRoundTrip(LowByte(crc, b));
  }

  lemma LookupAt(crc: Word, b: Byte)
    ensures Folded(Entry(TableIndex(crc, b)), crc) == FeedByte(crc, b)
  {
    hide Steps, FeedByte, Entry, TableIndex, LowByte, Folded;
    EntryAtIndex(crc, b);
    LookupIsFeedByte(crc, b);
  }

  method Crc32cSw(start: Word, data: seq<Byte>, length: nat) returns (crc: Word)
    requires length <= |data|
    ensures crc == Feed(start, data[..length])
  {
    hide Feed, FeedByte, Entry, TableIndex, Folded;
    FeedNone(start);
    var table := MakeTable();
    crc := start;
    for i := 0 to length
      invariant crc == Feed(start, data[..i])
      invariant forall j :: 0 <= j < 256 ==> table[j] == Entry(j)
    {
      var idx := TableIndex(crc, data[i]);
      LookupAt(crc, data[i]);
      FeedNext(start, data, i);
      crc := Folded(table[idx], crc);
    }
  }

  /** The table-driven CRC is the reference on every message; a null pointer with a length gives 0. */
  method Crc(data: Option<seq<Byte>>, length: nat) returns (crc: Word)
    requires data.Some? ==> length <= |data.value|
    ensures data.Some? ==> crc == Reference(data.value[..length])
    ensures data.None? ==> crc == if length != 0 then 0 else Reference([])
  {
    hide Feed;
    if data.None? && length != 0 {
      return 0;
    }
    var message := if data.Some? then data.value else [];
    crc := Crc32cSw(INIT_XOR, message, length);
    crc := crc ^ INIT_XOR;
  }

  // ----- bursts -----

  lemma {:induction false} FeedConcat(crc: Word, a: seq<Byte>, b: seq<Byte>)
    ensures Feed(crc, a + b) == Feed(Feed(crc, a), b)
  {
    hide FeedByte;
    if b == [] {
      assert a + b == a;
    } else {
      var m := |b| - 1;
      assert (a + b)[..|a + b| - 1] == a + b[..m];
      FeedConcat(crc, a, b[..m]);
    }
  }

  lemma XorCancels(a: Word, b: Word, c: Word)
    ensures Xor(a, c) == Xor(b, c) ==> a == b
    ensures Xor(c, a) == Xor(c, b) ==> a == b
  {
  }

  /** Equal bytes never bring two different states together. */
  lemma {:induction false} FeedIsInjective(c: Word, d: Word, message: seq<Byte>)
    requires Feed(c, message) == Feed(d, message)
    ensures c == d
  {
    hide FeedByte, Xor, Steps;
    if message != [] {
      var m := |message| - 1;
      var b := message[m];
      var c', d' := Feed(c, message[..m]), Feed(d, message[..m]);
      FeedByteIsSteps(c', b);
      FeedByteIsSteps(d', b);
      StepsAreInjective(Xor(c', b as Word), Xor(d', b as Word), 8);
      XorCancels(c', d', b as Word);
      FeedIsInjective(c, d, message[..m]);
    }
  }

  /** Up to four bytes as one little-endian word. */
  function Window(bytes: seq<Byte>): Word {
    if bytes == [] then 0 else Join(bytes[0], Window(bytes[1..]))
  }

  function Join(b: Byte, above: Word): Word {
    Xor(b as Word, above << 8)
  }

  /** Only the `m` low bytes can be set. */
  predicate Narrow(w: Word, m: nat) {
    match m
    case 0 => w == 0
    case 1 => w >> 8 == 0
    case 2 => w >> 16 == 0
    case 3 => w >> 24 == 0
    case _ => true
  }

  lemma NarrowShift(b: Byte, w: Word, m: nat)
    requires Narrow(w, m)
    ensures Narrow(Join(b, w), m + 1)
  {
  }

  lemma NarrowZero()
    ensures Narrow(0, 0)
  {
  }

  lemma NarrowTop(w: Word, m: nat)
    requires m <= 3 && Narrow(w, m)
    ensures w >> 24 == 0
  {
  }

  lemma {:induction false} WindowNarrow(bytes: seq<Byte>)
    ensures Narrow(Window(bytes), |bytes|)
  {
    hide Join, Narrow;
    if bytes == [] {
      NarrowZero();
    } else {
      WindowNarrow(bytes[1..]);
      NarrowShift(bytes[0], Window(bytes[1..]), |bytes| - 1);
    }
  }

  lemma WindowTopClear(bytes: seq<Byte>)
    requires |bytes| <= 3
    ensures Window(bytes) >> 24 == 0
  {
    hide Window, Narrow;
    WindowNarrow(bytes);
    NarrowTop(Window(bytes), |bytes|);
  }

  lemma HighPart(w: Word)
    ensures (w << 8) & 0xFF == 0
    ensures w >> 24 == 0 ==> (w << 8) >> 8 == w
  {
  }

  /** Feeding a byte moves the bytes after it one byte nearer. */
  lemma StepsOverByte(crc: Word, b: Byte, w: Word)
    requires w >> 24 == 0
    ensures Steps(Xor(crc, Join(b, w)), 8) == Xor(FeedByte(crc, b), w)
  {
    hide FeedByte, Xor, Steps;
    FeedByteIsSteps(crc, b);
    HighPart(w);
    XorAssociates(crc, b as Word, w << 8);
    StepsAreLinear(Xor(crc, b as Word), w << 8, 8);
    StepsOfHigh(w << 8);
  }

  /** Four bytes at most enter the register as one word. */
  lemma {:induction false} FeedIsWindow(crc: Word, bytes: seq<Byte>)
    requires |bytes| <= 4
    ensures Feed(crc, bytes) == Steps(Xor(crc, Window(bytes)), 8 * |bytes|)
    decreases |bytes|
  {
    hide FeedByte, Feed, Xor, Steps, Join;
    if bytes == [] {
      XorZero(crc);
      NoStep(crc);
      FeedNone(crc);
    } else {
      var b, rest := bytes[0], bytes[1..];
      assert bytes == [b] + rest;
      FeedConcat(crc, [b], rest);
      FeedSingle(crc, b);
      FeedIsWindow(FeedByte(crc, b), rest);
      WindowTopClear(rest);
      StepsOverByte(crc, b, Window(rest));
      StepsAdd(Xor(crc, Window(bytes)), 8, 8 * |rest|);
    }
  }

  lemma FeedNone(crc: Word)
    ensures Feed(crc, []) == crc
  {
  }

  lemma FeedSingle(crc: Word, b: Byte)
    ensures Feed(crc, [b]) == FeedByte(crc, b)
  {
  }

  lemma LowByteOf(a: Byte, b: Byte, v: Word, w: Word)
    requires Join(a, v) == Join(b, w)
    ensures a == b
    ensures v >> 24 == 0 && w >> 24 == 0 ==> v == w
  {
  }

  lemma {:induction false} WindowIsInjective(u: seq<Byte>, v: seq<Byte>)
    requires |u| == |v| <= 4 && Window(u) == Window(v)
    ensures u == v
  {
    hide Join;
    if u != [] {
      WindowTopClear(u[1..]);
      WindowTopClear(v[1..]);
      LowByteOf(u[0], v[0], Window(u[1..]), Window(v[1..]));
      WindowIsInjective(u[1..], v[1..]);
      assert u == [u[0]] + u[1..] && v == [v[0]] + v[1..];
    }
  }

  /** Two messages that differ only within four consecutive bytes have different CRCs. */
  lemma BurstsAreDetected(prefix: seq<Byte>, u: seq<Byte>, v: seq<Byte>, suffix: seq<Byte>)
    requires |u| == |v| <= 4 && u != v
    ensures Reference(prefix + u + suffix) != Reference(prefix + v + suffix)
  {
    hide Feed, Steps, Xor, Window;
    var before := Feed(INIT_XOR, prefix);
    if Reference(prefix + u + suffix) == Reference(prefix + v + suffix) {
      XorEnds(Feed(INIT_XOR, prefix + u + suffix), Feed(INIT_XOR, prefix + v + suffix));
      FeedConcat(INIT_XOR, prefix + u, suffix);
      FeedConcat(INIT_XOR, prefix + v, suffix);
      FeedConcat(INIT_XOR, prefix, u);
      FeedConcat(INIT_XOR, prefix, v);
      FeedIsInjective(Feed(before, u), Feed(before, v), suffix);
      FeedIsWindow(before, u);
      FeedIsWindow(before, v);
      StepsAreInjective(Xor(before, Window(u)), Xor(before, Window(v)), 8 * |u|);
      XorCancels(Window(u), Window(v), before);
      WindowIsInjective(u, v);
    }
  }

  lemma XorEnds(a: Word, b: Word)
    requires a ^ INIT_XOR == b ^ INIT_XOR
    ensures a == b
  {
  }
}
