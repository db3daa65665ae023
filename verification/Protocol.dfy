/** Wire structures of the data plane: the common header, the data-specific header and the
    key under which fragments are collected. */
module Protocol {
  import opened Machine

  const PROTOCOL_MAGIC: u32 := 0x55AA55AA
  const PROTOCOL_VERSION: u8 := 0x31
  const PACKET_TYPE_DATA: u8 := 0x03
  const COMMON_HEADER_SIZE: nat := 32
  const SPECIFIC_HEADER_SIZE: nat := 40
  const SNAPSHOT_SIZE: nat := 40

  type Bytes = seq<u8>

  /** The 32-byte header; the reserved fields, which no modelled code reads, are dropped. */
  datatype CommonHeader = CommonHeader(
    magic: u32, sequenceNumber: u32, timestamp: u64, payloadLen: u16,
    packetType: u8, protocolVersion: u8, sourceId: u8, destId: u8,
    controlEpoch: u16, extFlags: u8)

  const ZERO_HEADER := CommonHeader(0, 0, 0, 0, 0, 0, 0, 0, 0, 0)

  /** A parsed packet: `payload` is `None` for a null pointer. */
  datatype ParsedPacket = ParsedPacket(header: CommonHeader, payload: Option<Bytes>) {
    /** The pointer, when there is one, covers `payload_len` bytes. */
    predicate Valid() {
      payload.Some? ==> |payload.value| == header.payloadLen
    }
  }

  // ----- little-endian fields -----

  function U16At(b: Bytes, i: nat): u16
    requires i + 2 <= |b|
  {
    var lo: int, hi: int := b[i], b[i + 1];
    lo + 0x100 * hi
  }

  function U32At(b: Bytes, i: nat): u32
    requires i + 4 <= |b|
  {
    U16At(b, i) + TWO16 * U16At(b, i + 2)
  }

  function U64At(b: Bytes, i: nat): u64
    requires i + 8 <= |b|
  {
    U32At(b, i) + TWO32 * U32At(b, i + 4)
  }

  function Le16(n: u16): (b: Bytes)
    ensures |b| == 2 && U16At(b, 0) == n
  {
    [n % 0x100, n / 0x100]
  }

  function Le32(n: u32): (b: Bytes)
    ensures |b| == 4 && U32At(b, 0) == n
  {
    var lo, hi := Le16(n % TWO16), Le16(n / TWO16);
    assert U16At(lo + hi, 0) == U16At(lo, 0) && U16At(lo + hi, 2) == U16At(hi, 0);
    lo + hi
  }

  function Le64(n: u64): (b: Bytes)
    ensures |b| == 8 && U64At(b, 0) == n
  {
    var lo, hi := Le32(n % TWO32), Le32(n / TWO32);
    Shift32(lo, hi, 0);
    Shift32(lo, hi, 4);
    lo + hi
  }

  lemma Shift32(a: Bytes, b: Bytes, i: nat)
    ensures i + 4 <= |a| ==> U32At(a + b, i) == U32At(a, i)
    ensures |a| <= i && i + 4 <= |a| + |b| ==> U32At(a + b, i) == U32At(b, i - |a|)
  {
  }

  // ----- the common header -----

  const COMMON_RESERVED_SIZE: nat := 7

  function DecodeCommon(b: Bytes): CommonHeader
    requires |b| >= COMMON_HEADER_SIZE
  {
    CommonHeader(U32At(b, 0), U32At(b, 4), U64At(b, 8), U16At(b, 16), b[18], b[19], b[20], b[21], U16At(b, 22), b[24])
  }

  /** The packed 32 bytes; the last seven are reserved. */
  function EncodeCommon(h: CommonHeader, reserved: Bytes): (b: Bytes)
    requires |reserved| == COMMON_RESERVED_SIZE
    ensures |b| == COMMON_HEADER_SIZE
  {
    Le32(h.magic) + Le32(h.sequenceNumber) + Le64(h.timestamp) + Le16(h.payloadLen)
    + [h.packetType, h.protocolVersion, h.sourceId, h.destId] + Le16(h.controlEpoch) + [h.extFlags] + reserved
  }

  /** What is read back from the front of a packet is the header that was written there. */
  lemma CommonHeaderRoundTrip(h: CommonHeader, reserved: Bytes, rest: Bytes)
    requires |reserved| == COMMON_RESERVED_SIZE
    ensures DecodeCommon(EncodeCommon(h, reserved) + rest) == h
  {
    hide Le16, Le32, Le64;
    var b := EncodeCommon(h, reserved) + rest;
    FieldAt(b, 0, Le32(h.magic));
    FieldAt(b, 4, Le32(h.sequenceNumber));
    FieldAt(b, 8, Le64(h.timestamp));
    FieldAt(b, 16, Le16(h.payloadLen));
    FieldAt(b, 22, Le16(h.controlEpoch));
  }

  /** A field is read from where it lies. */
  lemma FieldAt(b: Bytes, i: nat, field: Bytes)
    requires i + |field| <= |b| && b[i..i + |field|] == field
    ensures |field| == 2 ==> U16At(b, i) == U16At(field, 0)
    ensures |field| == 4 ==> U32At(b, i) == U32At(field, 0)
    ensures |field| == 8 ==> U64At(b, i) == U64At(field, 0)
  {
    assert forall k :: 0 <= k < |field| ==> b[i + k] == field[k];
  }

  // ----- the data-specific header -----

  /** The packed 40-byte header; the channel mask and the data type share `reservedHealth`. */
  datatype DataSpecificHeader = DataSpecificHeader(
    frameCounter: u32, cpiCount: u32, pulseIndex: u32, sampleOffset: u32, sampleCount: u32,
    dataTimestamp: u64, healthSummary: u16, reservedHealth: u16,
    beamId: u16, fragIndex: u16, totalFrags: u16, tailFragPayloadBytes: u16)
  {
    predicate IsTailFragment() {
      fragIndex == totalFrags - 1
    }

    /** The low twelve bits. */
    function ChannelMask(): nat {
      reservedHealth % 0x1000
    }

    /** The high four bits. */
    function DataTypeRaw(): nat {
      reservedHealth / 0x1000
    }
  }

  function DecodeSpecific(b: Bytes): DataSpecificHeader
    requires |b| >= SPECIFIC_HEADER_SIZE
  {
    DataSpecificHeader(
      U32At(b, 0), U32At(b, 4), U32At(b, 8), U32At(b, 12), U32At(b, 16),
      U64At(b, 20), U16At(b, 28), U16At(b, 30), U16At(b, 32), U16At(b, 34), U16At(b, 36), U16At(b, 38))
  }

  function EncodeWords(h: DataSpecificHeader): (b: Bytes)
    ensures |b| == 20
  {
    Le32(h.frameCounter) + Le32(h.cpiCount) + Le32(h.pulseIndex) + Le32(h.sampleOffset) + Le32(h.sampleCount)
  }

  function EncodeHalves(h: DataSpecificHeader): (b: Bytes)
    ensures |b| == 12
  {
    Le16(h.healthSummary) + Le16(h.reservedHealth) + Le16(h.beamId) + Le16(h.fragIndex) +
    Le16(h.totalFrags) + Le16(h.tailFragPayloadBytes)
  }

  function EncodeSpecific(h: DataSpecificHeader): (b: Bytes)
    ensures |b| == SPECIFIC_HEADER_SIZE
  {
    EncodeWords(h) + Le64(h.dataTimestamp) + EncodeHalves(h)
  }

  lemma WordsDecode(h: DataSpecificHeader)
    ensures var b := EncodeWords(h);
      U32At(b, 0) == h.frameCounter && U32At(b, 4) == h.cpiCount && U32At(b, 8) == h.pulseIndex &&
      U32At(b, 12) == h.sampleOffset && U32At(b, 16) == h.sampleCount
  {
  }

  lemma HalvesDecode(h: DataSpecificHeader)
    ensures var b := EncodeHalves(h);
      U16At(b, 0) == h.healthSummary && U16At(b, 2) == h.reservedHealth && U16At(b, 4) == h.beamId &&
      U16At(b, 6) == h.fragIndex && U16At(b, 8) == h.totalFrags && U16At(b, 10) == h.tailFragPayloadBytes
  {
  }

  /** What is read back from the front of a payload is the header that was written there. */
  lemma SpecificHeaderRoundTrip(h: DataSpecificHeader, rest: Bytes)
    ensures DecodeSpecific(EncodeSpecific(h) + rest) == h
  {
    var words, stamp, halves := EncodeWords(h), Le64(h.dataTimestamp), EncodeHalves(h);
    WordsDecode(h);
    HalvesDecode(h);
    var b := EncodeSpecific(h) + rest;
    assert b[..20] == words && b[20..28] == stamp && b[28..40] == halves;
    assert forall i :: 0 <= i <= 16 ==> U32At(b, i) == U32At(words, i);
    assert U64At(b, 20) == U64At(stamp, 0);
    assert forall i :: 0 <= i <= 10 ==> U16At(b, 28 + i) == U16At(halves, i);
  }

  lemma Le16Back(b: Bytes, i: nat)
    requires i + 2 <= |b|
    ensures Le16(U16At(b, i)) == b[i..i + 2]
  {
  }

  lemma Le32Back(b: Bytes, i: nat)
    requires i + 4 <= |b|
    ensures Le32(U32At(b, i)) == b[i..i + 4]
  {
    Le16Back(b, i);
    Le16Back(b, i + 2);
    assert U32At(b, i) % TWO16 == U16At(b, i) && U32At(b, i) / TWO16 == U16At(b, i + 2);
  }

  lemma Le64Back(b: Bytes, i: nat)
    requires i + 8 <= |b|
    ensures Le64(U64At(b, i)) == b[i..i + 8]
  {
    hide Le32, U32At;
    Le32Back(b, i);
    Le32Back(b, i + 4);
    assert U64At(b, i) % TWO32 == U32At(b, i) && U64At(b, i) / TWO32 == U32At(b, i + 4);
  }

  lemma WordsBack(b: Bytes)
    requires |b| >= SPECIFIC_HEADER_SIZE
    ensures EncodeWords(DecodeSpecific(b)) == b[..20]
  {
    hide Le32, U32At;
    Le32Back(b, 0);
    Le32Back(b, 4);
    Le32Back(b, 8);
    Le32Back(b, 12);
    Le32Back(b, 16);
  }

  lemma HalvesBack(b: Bytes)
    requires |b| >= SPECIFIC_HEADER_SIZE
    ensures EncodeHalves(DecodeSpecific(b)) == b[28..40]
  {
    hide Le16, U16At;
    Le16Back(b, 28);
    Le16Back(b, 30);
    Le16Back(b, 32);
    Le16Back(b, 34);
    Le16Back(b, 36);
    Le16Back(b, 38);
  }

  /** Every 40 bytes are the layout of the header that is read from them. */
  lemma SpecificBytesRoundTrip(b: Bytes)
    requires |b| >= SPECIFIC_HEADER_SIZE
    ensures EncodeSpecific(DecodeSpecific(b)) == b[..SPECIFIC_HEADER_SIZE]
  {
    hide EncodeWords, EncodeHalves, Le64, U64At;
    WordsBack(b);
    Le64Back(b, 20);
    HalvesBack(b);
    assert b[..40] == b[..20] + b[20..28] + b[28..40];
  }

  /** The fields that name the frame a fragment belongs to. */
  datatype ReassemblyKey = ReassemblyKey(
    controlEpoch: u16, sourceId: u8, frameCounter: u32, beamId: u16,
    cpiCount: u32, pulseIndex: u32, channelMask: nat, dataType: nat)

  function ExtractKey(common: CommonHeader, specific: DataSpecificHeader): ReassemblyKey {
    ReassemblyKey(common.controlEpoch, common.sourceId, specific.frameCounter, specific.beamId,
                  specific.cpiCount, specific.pulseIndex, specific.ChannelMask(), specific.DataTypeRaw())
  }

  /** The number of set bits. */
  function Popcount(x: nat): nat {
    if x == 0 then 0 else x % 2 + Popcount(x / 2)
  }

  /** How many of the bits below `n` are set. */
  function SetBits(x: nat, n: nat): nat {
    if n == 0 then 0 else SetBits(x, n - 1) + if Bit(x, n - 1) then 1 else 0
  }

  lemma {:induction false} SetBitsHalved(x: nat, n: nat)
    ensures SetBits(x, n + 1) == x % 2 + SetBits(x / 2, n)
  {
    if n > 0 {
      SetBitsHalved(x, n - 1);
    }
  }

  lemma {:induction false} PopcountIsSetBits(x: nat, n: nat)
    requires x < Pow2(n)
    ensures Popcount(x) == SetBits(x, n)
  {
    if n > 0 {
      PopcountIsSetBits(x / 2, n - 1);
      SetBitsHalved(x, n - 1);
    }
  }

  lemma SixteenBits()
    ensures Pow2(16) == TWO16
  {
    assert Pow2(8) == 0x100;
  }

  method Popcount16(value: u16) returns (count: nat)
    ensures count == Popcount(value) == SetBits(value, 16)
  {
    count := 0;
    var v := value;
    while v != 0
      invariant count + Popcount(v) == Popcount(value)
    {
      count := count + v % 2;
      v := v / 2;
    }
    SixteenBits();
    PopcountIsSetBits(value, 16);
  }
}
