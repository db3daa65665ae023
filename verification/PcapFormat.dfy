/** The capture file format: what the writer lays out and what the analyser reads back. */
module PcapFormat {
  import opened Machine
  import opened Protocol

  const PCAP_MAGIC: u32 := 0xA1B2C3D4
  const PCAP_MAGIC_NANO: u32 := 0xA1B23C4D
  const VERSION_MAJOR: u16 := 2
  const VERSION_MINOR: u16 := 4
  const SNAP_LEN: u32 := 65535
  const LINK_TYPE_USER0: u32 := 147
  const GLOBAL_HEADER_SIZE: nat := 24
  const RECORD_HEADER_SIZE: nat := 16

  datatype Packet = Packet(timestampUs: u64, data: Bytes)

  // ----- writing -----

  function GlobalHeader(): (h: Bytes)
    ensures |h| == GLOBAL_HEADER_SIZE
  {
    Le32(PCAP_MAGIC) + Le16(VERSION_MAJOR) + Le16(VERSION_MINOR) + Le32(0) + Le32(0) + Le32(SNAP_LEN) + Le32(LINK_TYPE_USER0)
  }

  /** `static_cast<uint32_t>(timestamp_us / 1000000)`. */
  function Seconds(t: u64): u32 {
    (t / 1_000_000) % TWO32
  }

  function Micros(t: u64): u32 {
    t % 1_000_000
  }

  function RecordHeader(p: Packet): (h: Bytes)
    ensures |h| == RECORD_HEADER_SIZE
  {
    Le32(Seconds(p.timestampUs)) + Le32(Micros(p.timestampUs)) + Le32(|p.data| % TWO32) + Le32(|p.data| % TWO32)
  }

  function RecordBytes(p: Packet): (b: Bytes)
    ensures |b| == RECORD_HEADER_SIZE + |p.data|
  {
    RecordHeader(p) + p.data
  }

  function FileOf(packets: seq<Packet>): (b: Bytes)
    ensures |b| >= GLOBAL_HEADER_SIZE
  {
    if packets == [] then GlobalHeader() else FileOf(packets[..|packets| - 1]) + RecordBytes(packets[|packets| - 1])
  }

  // ----- reading -----

  datatype Format = Format(littleEndian: bool, nanoseconds: bool, snaplen: u32, network: u32)

  datatype Record = Record(tsSec: u32, tsFrac: u32, payload: Bytes)

  function ReadU16(b: Bytes, i: nat, little: bool): u16
    requires i + 2 <= |b|
  {
    var first: int, second: int := b[i], b[i + 1];
    if little then U16At(b, i) else 0x100 * first + second
  }

  function ReadU32(b: Bytes, i: nat, little: bool): u32
    requires i + 4 <= |b|
  {
    if little then U32At(b, i) else TWO16 * ReadU16(b, i, false) + ReadU16(b, i + 2, false)
  }

  /** In a big-endian file the four bytes stand in the opposite order. */
  lemma BigEndianIsSwapped(b: Bytes, i: nat)
    requires i + 4 <= |b|
    ensures ReadU32(b, i, false) == U32At([b[i + 3], b[i + 2], b[i + 1], b[i]], 0)
  {
  }

  function ReadGlobalHeader(file: Bytes): Option<Format> {
    if |file| < GLOBAL_HEADER_SIZE then None
    else
      var le, be := ReadU32(file, 0, true), ReadU32(file, 0, false);
      if le != PCAP_MAGIC && le != PCAP_MAGIC_NANO && be != PCAP_MAGIC && be != PCAP_MAGIC_NANO then None
      else
        var little := le == PCAP_MAGIC || le == PCAP_MAGIC_NANO;
        var nano := if little then le == PCAP_MAGIC_NANO else be == PCAP_MAGIC_NANO;
        if ReadU16(file, 4, little) != 2 || ReadU16(file, 6, little) != 4 then None
        else Some(Format(little, nano, ReadU32(file, 16, little), ReadU32(file, 20, little)))
  }

  /** End of file, an exception, or a record and the position after it. */
  datatype ReadResult = End | Malformed | Got(record: Record, next: nat)

  function ReadRecord(file: Bytes, pos: nat, f: Format): (r: ReadResult)
    requires pos <= |file|
    ensures r.Got? ==> pos < r.next <= |file|
  {
    if pos == |file| then End
    else if |file| - pos < RECORD_HEADER_SIZE then Malformed
    else
      var incl, orig := ReadU32(file, pos + 8, f.littleEndian), ReadU32(file, pos + 12, f.littleEndian);
      if incl == 0 || orig == 0 || incl > f.snaplen || incl > orig then Malformed
      else if |file| - pos - RECORD_HEADER_SIZE < incl then Malformed
      else
        Got(Record(ReadU32(file, pos, f.littleEndian), ReadU32(file, pos + 4, f.littleEndian),
                   file[pos + RECORD_HEADER_SIZE..pos + RECORD_HEADER_SIZE + incl]),
            pos + RECORD_HEADER_SIZE + incl)
  }

  /** The reader takes a record if and only if its lengths are not zero, what it holds is within the snap length and within
      the length of the packet it came from, and all of it is there. */
  lemma RecordTakenIff(file: Bytes, pos: nat, f: Format)
    requires f.littleEndian && pos + RECORD_HEADER_SIZE <= |file|
    ensures var held, whole := U32At(file, pos + 8), U32At(file, pos + 12);
      ReadRecord(file, pos, f).Got? <==> 0 < held <= whole && held <= f.snaplen && pos + 16 + held <= |file|
  {
    hide U32At;
  }

  /** All records from `pos` on; `None` when the reader throws. */
  function ReadFrom(file: Bytes, pos: nat, f: Format): Option<seq<Record>>
    requires pos <= |file|
    decreases |file| - pos
  {
    match ReadRecord(file, pos, f)
    case End => Some([])
    case Malformed => None
    case Got(record, next) =>
      var rest := ReadFrom(file, next, f);
      if rest.None? then None else Some([record] + rest.value)
  }

  function ReadFile(file: Bytes): Option<seq<Record>> {
    var f := ReadGlobalHeader(file);
    if f.None? then None else ReadFrom(file, GLOBAL_HEADER_SIZE, f.value)
  }

  // ----- what comes back -----

  function Stamped(p: Packet): Record {
    Record(Seconds(p.timestampUs), Micros(p.timestampUs), p.data)
  }

  function AllStamped(packets: seq<Packet>): (r: seq<Record>)
    ensures |r| == |packets|
  {
    seq(|packets|, i requires 0 <= i < |packets| => Stamped(packets[i]))
  }

  /** The whole second and the microsecond give the timestamp back exactly while its seconds fit 32 bits. */
  lemma TimestampSurvivesIff(t: u64)
    ensures Seconds(t) * 1_000_000 + Micros(t) == t <==> t < TWO32 * 1_000_000
  {
  }

  predicate Sized(packets: seq<Packet>) {
    forall i :: 0 <= i < |packets| ==> 0 < |packets[i].data| < TWO32
  }

  predicate Readable(packets: seq<Packet>) {
    forall i :: 0 <= i < |packets| ==> |packets[i].data| <= 65535
  }

  /** The records of `packets`, one after the other. */
  function Records(packets: seq<Packet>): Bytes {
    if packets == [] then [] else RecordBytes(packets[0]) + Records(packets[1..])
  }

  lemma {:induction false} RecordsAppend(packets: seq<Packet>, p: Packet)
    ensures Records(packets + [p]) == Records(packets) + RecordBytes(p)
  {
    if packets != [] {
      assert (packets + [p])[1..] == packets[1..] + [p];
      RecordsAppend(packets[1..], p);
    }
  }

  lemma {:induction false} FileIsHeaderAndRecords(packets: seq<Packet>)
    ensures FileOf(packets) == GlobalHeader() + Records(packets)
  {
    if packets != [] {
      var m := |packets| - 1;
      FileIsHeaderAndRecords(packets[..m]);
      RecordsAppend(packets[..m], packets[m]);
      assert packets == packets[..m] + [packets[m]];
    }
  }

  const WRITER_FORMAT := Format(true, false, SNAP_LEN, LINK_TYPE_USER0)

  /** The header is that of a little-endian file in microseconds, version 2.4, and the reader finds the writer's format in it. */
  lemma HeaderReadsBack(rest: Bytes)
    ensures ReadGlobalHeader(GlobalHeader() + rest) == Some(Format(true, false, 65535, 147))
    ensures GlobalHeader()[..8] == [0xD4, 0xC3, 0xB2, 0xA1, 2, 0, 4, 0]
  {
  }

  lemma FieldsReadBack(before: Bytes, p: Packet, rest: Bytes)
    ensures var file := before + RecordBytes(p) + rest;
      && U32At(file, |before|) == Seconds(p.timestampUs) && U32At(file, |before| + 4) == Micros(p.timestampUs)
      && U32At(file, |before| + 8) == U32At(file, |before| + 12) == |p.data| % TWO32
  {
  }

  /** A record is read back whole, or refused when it is longer than the snap length. */
  lemma RecordReadsBack(before: Bytes, p: Packet, rest: Bytes)
    requires 0 < |p.data| < TWO32
    ensures ReadRecord(before + RecordBytes(p) + rest, |before|, WRITER_FORMAT)
         == if |p.data| <= 65535 then Got(Stamped(p), |before + RecordBytes(p)|) else Malformed
  {
    hide U32At, RecordHeader;
    var file := before + RecordBytes(p) + rest;
    FieldsReadBack(before, p, rest);
    var start := |before| + RECORD_HEADER_SIZE;
    assert file[start..start + |p.data|] == p.data;
  }

  lemma {:induction false} RecordsReadBack(before: Bytes, packets: seq<Packet>)
    requires Sized(packets)
    ensures ReadFrom(before + Records(packets), |before|, WRITER_FORMAT) == if Readable(packets) then Some(AllStamped(packets)) else None
    decreases |packets|
  {
    hide ReadRecord, RecordBytes;
    var file := before + Records(packets);
    if packets == [] {
      EndReads(file);
    } else {
      var p, rest := packets[0], packets[1..];
      assert file == before + RecordBytes(p) + Records(rest);
      RecordReadsBack(before, p, Records(rest));
      RecordsReadBack(before + RecordBytes(p), rest);
      assert packets == [p] + rest;
      assert Readable(packets) <==> |p.data| <= SNAP_LEN && Readable(rest);
      assert AllStamped(packets) == [Stamped(p)] + AllStamped(rest);
    }
  }

  lemma EndReads(file: Bytes)
    ensures ReadRecord(file, |file|, WRITER_FORMAT) == End
  {
  }

  /** A capture file reads back as the packets it was given, in order, exactly when none exceeds the snap length. */
  lemma FileReadsBackIff(packets: seq<Packet>)
    requires Sized(packets)
    ensures ReadFile(FileOf(packets)) == if Readable(packets) then Some(AllStamped(packets)) else None
  {
    hide ReadGlobalHeader, ReadFrom, Records, FileOf;
    FileIsHeaderAndRecords(packets);
    HeaderReadsBack(Records(packets));
    RecordsReadBack(GlobalHeader(), packets);
  }
}
