/** Which packets are taken for fragments, and which of them belong to the same frame. */
module FragmentLayout {
  import opened Machine
  import opened Protocol
  import opened ReassemblyModel

  /** The payload of a fragment: the header, the snapshot of a tail, and the bytes of the piece. */
  ghost predicate LaidOut(cfg: Config, payload: Bytes, h: DataSpecificHeader, snapshot: Bytes, piece: Bytes) {
    && payload == EncodeSpecific(h) + snapshot + piece
    && 0 < h.totalFrags <= cfg.maxTotalFrags && h.fragIndex < h.totalFrags
    && if h.fragIndex + 1 == h.totalFrags then |snapshot| == SNAPSHOT_SIZE && |piece| == h.tailFragPayloadBytes else snapshot == []
  }

  /** What a packet is taken for is what its bytes lay out. */
  lemma ParsedIsLaidOut(cfg: Config, p: ParsedPacket)
    requires p.Valid() && ParseFragment(cfg, p).Some?
    ensures var f, b := ParseFragment(cfg, p).value, p.payload.value;
      && LaidOut(cfg, b, f.header, if f.snapshot.Some? then f.snapshot.value else [], b[f.start..f.start + f.size])
      && (f.snapshot.Some? <==> f.header.fragIndex + 1 == f.header.totalFrags)
  {
    hide DecodeSpecific, EncodeSpecific;
    var f, b := ParseFragment(cfg, p).value, p.payload.value;
    SpecificBytesRoundTrip(b);
    assert b == b[..f.start] + b[f.start..f.start + f.size];
    assert b[..SPECIFIC_HEADER_SIZE] + b[SPECIFIC_HEADER_SIZE..f.start] == b[..f.start];
  }

  /** Every payload that lays out a fragment is taken for that fragment. */
  lemma LaidOutIsParsed(cfg: Config, p: ParsedPacket, h: DataSpecificHeader, snapshot: Bytes, piece: Bytes)
    requires p.Valid() && p.payload.Some? && LaidOut(cfg, p.payload.value, h, snapshot, piece)
    ensures var r := ParseFragment(cfg, p);
      && r.Some? && r.value.header == h && r.value.key == ExtractKey(p.header, h)
      && r.value.snapshot == (if h.fragIndex + 1 == h.totalFrags then Some(snapshot) else None)
      && p.payload.value[r.value.start..r.value.start + r.value.size] == piece
  {
    hide DecodeSpecific, EncodeSpecific;
    var b := p.payload.value;
    assert b == EncodeSpecific(h) + (snapshot + piece);
    SpecificHeaderRoundTrip(h, snapshot + piece);
    assert b[SPECIFIC_HEADER_SIZE..SPECIFIC_HEADER_SIZE + |snapshot|] == snapshot;
    assert b[SPECIFIC_HEADER_SIZE + |snapshot|..] == piece;
  }

  /** A packet is taken for a fragment if and only if its payload lays one out. */
  lemma ParsedIffLaidOut(cfg: Config, p: ParsedPacket)
    requires p.Valid()
    ensures ParseFragment(cfg, p).Some? <==> p.payload.Some? && exists h, snapshot, piece :: LaidOut(cfg, p.payload.value, h, snapshot, piece)
  {
    hide ParseFragment, LaidOut;
    if ParseFragment(cfg, p).Some? {
      ParsedIsLaidOut(cfg, p);
    }
    if p.payload.Some? {
      if h, snapshot, piece :| LaidOut(cfg, p.payload.value, h, snapshot, piece) {
        LaidOutIsParsed(cfg, p, h, snapshot, piece);
      }
    }
  }

  /** Where in the packet the fields of the key come from: epoch and source from the header; frame counter, CPI and pulse
      at 0, 4 and 8 of the payload; the mask in the low twelve bits and the data type in the high four at 30; the beam at 32. */
  lemma KeyFields(cfg: Config, p: ParsedPacket)
    requires p.Valid() && ParseFragment(cfg, p).Some?
    ensures var k, b := ParseFragment(cfg, p).value.key, p.payload.value;
      && |b| >= SPECIFIC_HEADER_SIZE && k.controlEpoch == p.header.controlEpoch && k.sourceId == p.header.sourceId
      && k.frameCounter == U32At(b, 0) && k.cpiCount == U32At(b, 4) && k.pulseIndex == U32At(b, 8) && k.beamId == U16At(b, 32)
      && k.channelMask < 4096 && U16At(b, 30) == k.channelMask + 4096 * k.dataType
  {
    hide U16At, U32At, U64At;
  }

  /** Two packets belong to the same frame if and only if epoch and source agree and bytes 0 to 11 and 30 to 33 of their
      payloads do: frame counter, CPI, pulse, channel mask with data type, and beam. */
  lemma SameContextIff(cfg: Config, p: ParsedPacket, q: ParsedPacket)
    requires p.Valid() && q.Valid() && ParseFragment(cfg, p).Some? && ParseFragment(cfg, q).Some?
    ensures ParseFragment(cfg, p).value.key == ParseFragment(cfg, q).value.key <==>
      && p.header.controlEpoch == q.header.controlEpoch && p.header.sourceId == q.header.sourceId
      && p.payload.value[0..12] == q.payload.value[0..12] && p.payload.value[30..34] == q.payload.value[30..34]
  {
    hide ParseFragment, U16At, U32At;
    var b, c := p.payload.value, q.payload.value;
    KeyFields(cfg, p);
    KeyFields(cfg, q);
    SameWord(b, c, 0);
    SameWord(b, c, 4);
    SameWord(b, c, 8);
    SameHalf(b, c, 30);
    SameHalf(b, c, 32);
    assert b[0..12] == b[0..4] + b[4..8] + b[8..12] && c[0..12] == c[0..4] + c[4..8] + c[8..12];
    assert b[30..34] == b[30..32] + b[32..34] && c[30..34] == c[30..32] + c[32..34];
    if b[0..12] == c[0..12] {
      assert b[0..4] == b[0..12][0..4] && b[4..8] == b[0..12][4..8] && b[8..12] == b[0..12][8..12];
      assert c[0..4] == c[0..12][0..4] && c[4..8] == c[0..12][4..8] && c[8..12] == c[0..12][8..12];
    }
    if b[30..34] == c[30..34] {
      assert b[30..32] == b[30..34][0..2] && b[32..34] == b[30..34][2..4];
      assert c[30..32] == c[30..34][0..2] && c[32..34] == c[30..34][2..4];
    }
  }

  lemma SameHalf(b: Bytes, c: Bytes, i: nat)
    requires i + 2 <= |b| && i + 2 <= |c|
    ensures U16At(b, i) == U16At(c, i) <==> b[i..i + 2] == c[i..i + 2]
  {
    Le16Back(b, i);
    Le16Back(c, i);
    assert b[i..i + 2] == [b[i], b[i + 1]] && c[i..i + 2] == [c[i], c[i + 1]];
  }

  lemma SameWord(b: Bytes, c: Bytes, i: nat)
    requires i + 4 <= |b| && i + 4 <= |c|
    ensures U32At(b, i) == U32At(c, i) <==> b[i..i + 4] == c[i..i + 4]
  {
    Le32Back(b, i);
    Le32Back(c, i);
    assert b[i..i + 4] == [b[i], b[i + 1], b[i + 2], b[i + 3]] && c[i..i + 4] == [c[i], c[i + 1], c[i + 2], c[i + 3]];
  }
}
