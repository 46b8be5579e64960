/** Why a padded reply reads as before only when no RDATA copied into it holds a
    pointer. */
module UnsettledRdata {
  import opened Octets
  import opened Names
  import opened DName
  import opened Compression
  import opened Emission
  import opened Records
  import opened Codes
  import opened Messages
  import opened MessageRoundTrip
  import opened ParseAlike
  import opened WriterRefinement
  import opened Padding

  /** A pointer to offset 25, which in these octets is the root: `RecordData::new` takes
      them for an NSEC. */
  const POINTS: bytes := [0xc0, 25, 33] + seq(23, _ => 0)

  const POINTING := Record([0], 1, 0, RecordData(NSEC, POINTS))

  const MISLED := DnsMessage(0, Flags(true, OpQuery, false, false, false, false, false, false), NoError,
                             [], [POINTING], [], [], Some(Edns(0, 0, false, [])))

  /** `SettledThroughout` has to be asked for. In this reply offset 25 is a label that
      ends at the low octet of the OPT's RDLENGTH, the root; padded, that octet is the
      length of another label, which runs off the end. */
  lemma PointerIntoOptMisleads()
    ensures Parse(POINTING.rdata).Ok? && !SettledThroughout(MISLED)
    ensures NamesOk(MISLED) && ToBytes(64, MISLED).Ok?
    ensures var reply := ToBytes(64, MISLED).value;
            && PadReply(reply, 64, 64).0 && |PadReply(reply, 64, 64).1| == 64
            && ParseMessage(reply).Ok? && ParseMessage(PadReply(reply, 64, 64).1).Err?
  {
    hide ToBytes, PadReply, ParseMessage, EmitBody, OptOctets, HeaderOctets, PaddingOption, SettledThroughout,
         IsName, FixedFields, Parse;
    MisledWritten();
    MisledBody();
    MisledUnsettled();
    var before, code := EndsWithOpt(64, MISLED);
    PaddedIsSerialized(64, 64, MISLED, 64, 64);
    var o := PaddingOption(0);
    WrittenWithOption(64, 64, MISLED, o, before, code);
    MisledReads(before, code, MISLED.edns.value, ToBytes(64, MISLED).value);
    MisledReads(before, code, WithOption(MISLED, o).edns.value, PadReply(ToBytes(64, MISLED).value, 64, 64).1);
  }

  lemma MisledWritten()
    ensures NamesOk(MISLED) && ToBytes(64, MISLED).Ok? && |ToBytes(64, MISLED).value| == 60
  {
    hide FixedFields, HeaderOctets, OptOctets, EmitBody, IsName;
    MisledBody();
    BodyThenOpt(MISLED, 64, 0);
  }

  lemma MisledBody()
    ensures NamesOk(MISLED)
    ensures EmitBody(64, MISLED.(edns := None), 0) == Ok([0] + FixedFields(POINTING, 26) + POINTS)
  {
    hide FixedFields, EmitRecord, IsName;
    PointingWritten();
    var rrs := MISLED.answers;
    var c := EmitRecord(64, EMPTY_TABLE, HEADER_LEN, POINTING).value;
    assert rrs[1..] == [] && c.octets + [] == c.octets;
    assert EmitRecords(64, EMPTY_TABLE, HEADER_LEN + |c.octets|, []) == Ok(Chunk(EMPTY_TABLE, []));
    assert EmitRecords(64, EMPTY_TABLE, HEADER_LEN, rrs) == Ok(c);
    assert [] + c.octets + [] + [] == c.octets;
  }

  lemma PointingWritten()
    ensures IsName([0]) && EmitRecord(64, EMPTY_TABLE, HEADER_LEN, POINTING)
                           == Ok(Chunk(EMPTY_TABLE, [0] + FixedFields(POINTING, 26) + POINTS))
  {
    hide FixedFields;
    assert NameAt([0], 0);
    RootOctets(EMPTY_TABLE, [0], HEADER_LEN);
  }

  lemma PointsFirst()
    ensures ReadSegment(POINTS, 0) == Ok(Segment(0, ToPointer(25)))
  {
    assert ReadU16(POINTS, 0) == 0xc000 + 25;
    assert ReadLabel(POINTS, 0) == Ok(Pointer(25));
  }

  lemma MisledUnsettled()
    ensures Parse(POINTING.rdata).Ok? && !SettledThroughout(MISLED)
  {
    PointsFirst();
    assert ReadSegment(POINTS, 25) == Ok(Segment(25, ToRoot));
    assert !AllSettled(MISLED.answers) by { assert !Settled(MISLED.answers[0].rdata); }
  }

  /** The octet at 59 is the root, or the length of a label that is cut short. */
  lemma PointingReads(data: bytes)
    requires |data| > 59 && data[25] == 33 && data[59] < 0x40 && |data| - 60 == data[59] as int
    ensures FromWire(NSEC, POINTS, data).Ok? <==> data[59] == 0
  {
    PointsFirst();
    LabelBefore(data);
    hide ReadSegment, IsName;
  }

  lemma LabelBefore(data: bytes)
    requires |data| > 59 && data[25] == 33 && data[59] < 0x40 && |data| - 60 == data[59] as int
    ensures if data[59] == 0 then ReadSegment(data, 25) == Ok(Segment(59, ToRoot)) else ReadSegment(data, 25).Err?
  {
    assert ReadLabel(data, 25) == Ok(Text(data[26..59]));
    assert ReadSegment(data, 25) == ReadSegment(data, 59);
  }

  lemma OctetsInPlace(before: bytes, e: Edns, code: nat, data: bytes)
    requires |before| == 49 && code < 0x1000 && |e.rdata| < 0x40 && data == before + OptOctets(e, code)
    requires before[23..49] == POINTS
    ensures |data| == 60 + |e.rdata| && data[59] == |e.rdata| && data[25] == 33
  {
    hide OptBits, U32;
    var a: bytes := [0] + U16(OPT) + U16(e.payloadSize) + U32(OptBits(e, code));
    OptPlaces(before, a, U16(|e.rdata|), e.rdata, data);
    assert data[59] == data[58..60][1];
    assert data[25] == before[25] == before[23..49][2];
  }

  /** The reply as it reads whatever its OPT holds, up to 63 octets. */
  lemma MisledReads(before: bytes, code: nat, e: Edns, data: bytes)
    requires CountsFit(MISLED) && code < 0x1000 && |e.rdata| < 0x40
    requires before == MessageHeader(MISLED, code) + ([0] + FixedFields(POINTING, 26) + POINTS)
    requires data == before + OptOctets(e, code)
    ensures ParseMessage(data).Ok? <==> e.rdata == []
  {
    hide MessageHeader, FixedFields, OptOctets, OptBits, ParseAdditional, ReadU16, Assemble, ReadParts, DecodeName, FromWire;
    var head := MessageHeader(MISLED, code);
    CountsRead(MISLED, code, data);
    PartsInPlace(head, [0], FixedFields(POINTING, 26), POINTS, before);
    PartsInPlace(head, [0], FixedFields(POINTING, 26), POINTS, data);
    RootAt(data, HEADER_LEN, head);
    PartsAt(data, HEADER_LEN, HEADER_LEN + 1, POINTING, 26);
    OctetsInPlace(before, e, code, data);
    PointingReads(data);
    OptBack(before, e, code, data);
    LastOf(data, 49, (e, OptBits(e, code)), false);
    SectionsOf(data);
  }

  lemma SectionsOf(data: bytes)
    requires |data| >= 49 && ReadU16(data, 4) == 0 && ReadU16(data, 6) == 1 && ReadU16(data, 8) == 0 && ReadU16(data, 10) == 1
    requires ParseRecord(data, HEADER_LEN).Ok? ==> ParseRecord(data, HEADER_LEN).value.next == 49
    requires ParseAdditionals(data, 49, 1, false).Ok?
    ensures ParseMessage(data).Ok? <==> ParseRecord(data, HEADER_LEN).Ok?
  {
    hide ParseRecord, ParseAdditional, ReadU16, Assemble;
  }
}
