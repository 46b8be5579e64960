/** The places and the numbers of the wire format, written out octet by octet: RFC 1035
    section 4.1 for the header, the question and records, RFC 6891 section 6.1 for the
    OPT, and the registries of opcodes, classes and RCODEs. */
module WireLayout {
  import opened Octets
  import opened DName
  import opened Records
  import opened Codes
  import opened Messages

  /** The number in two octets, most significant first. */
  function Word(data: bytes, at: nat): nat
    requires at + 2 <= |data|
  {
    data[at] as int * 256 + data[at + 1] as int
  }

  /** The number in four. */
  function Long(data: bytes, at: nat): nat
    requires at + 4 <= |data|
  {
    data[at] as int * 0x100_0000 + data[at + 1] as int * 0x1_0000 + data[at + 2] as int * 0x100 + data[at + 3] as int
  }

  lemma Numbers(data: bytes, at: nat)
    ensures at + 2 <= |data| ==> ReadU16(data, at) == Word(data, at)
    ensures at + 4 <= |data| ==> ReadU32(data, at) == Long(data, at)
  {
  }

  /** Bit `k` of an octet, counted from the least significant. */
  predicate BitAt(b: byte, k: nat)
    requires k < 8
  {
    b / [1, 2, 4, 8, 16, 32, 64, 128][k] % 2 == 1
  }

  // ---- Reading

  /** The fields of a question entry, from its octets. */
  lemma QueryFields(data: bytes, pos: nat)
    requires pos <= |data| && ParseQuery(data, pos).Ok?
    ensures DecodeName(data, pos, data).Ok?
    ensures var n, q := DecodeName(data, pos, data).value, ParseQuery(data, pos).value;
            && n.next + 4 == q.next <= |data|
            && q.item == Query(n.wire, Word(data, n.next), ClassFrom(Word(data, n.next + 2)))
  {
    hide DecodeName, ClassFrom;
  }

  /** The fields of a record, from its octets: a TTL with its top bit set reads as zero. */
  lemma RecordFields(data: bytes, pos: nat)
    requires pos <= |data| && ParseRecord(data, pos).Ok?
    ensures DecodeName(data, pos, data).Ok? && ReadSegment(data, pos).Ok?
    ensures var p, x := ReadSegment(data, pos).value.End(), ParseRecord(data, pos).value;
            && p + 10 <= x.next <= |data| && x.next == p + 10 + Word(data, p + 8)
            && x.item.name == DecodeName(data, pos, data).value.wire
            && x.item.class_ == Word(data, p + 2)
            && x.item.ttl == (if BitAt(data[p + 4], 7) then 0 else Long(data, p + 4))
            && FromWire(Word(data, p), data[p + 10..x.next], data) == Ok(x.item.rdata)
  {
    hide DecodeName, ReadSegment, FromWire, ReadU16, ReadU32;
    var p := ReadSegment(data, pos).value.End();
    Numbers(data, p);
    Numbers(data, p + 2);
    Numbers(data, p + 4);
    Numbers(data, p + 8);
  }

  /** The fields of the OPT: the sender's payload size where a class would be; extended
      RCODE, version and DO where a TTL would be. */
  lemma OptFields(data: bytes, pos: nat)
    requires pos <= |data| && ParseAdditional(data, pos).Ok? && ParseAdditional(data, pos).value.item.Opt?
    ensures ReadSegment(data, pos).Ok?
    ensures var p, x := ReadSegment(data, pos).value.End(), ParseAdditional(data, pos).value;
            && p + 10 <= x.next <= |data| && x.next == p + 10 + Word(data, p + 8) && Word(data, p) == 41
            && x.item.edns == Edns(Word(data, p + 2), data[p + 5], BitAt(data[p + 6], 7), data[p + 10..x.next])
            && x.item.bits / 0x100_0000 == data[p + 4]
  {
    hide ReadSegment, ReadU16, ReadU32;
    var p := ReadSegment(data, pos).value.End();
    Numbers(data, p);
    Numbers(data, p + 2);
    Numbers(data, p + 4);
    Numbers(data, p + 8);
    OptWord(data, p + 4);
  }

  lemma OptWord(data: bytes, at: nat)
    requires at + 4 <= |data|
    ensures var n := Long(data, at);
            && n / 0x100_0000 == data[at] && n / TWO_16 % 256 == data[at + 1]
            && (n / 0x8000 % 2 == 1 <==> BitAt(data[at + 2], 7))
  {
    var a, b, c, d := data[at] as int, data[at + 1] as int, data[at + 2] as int, data[at + 3] as int;
    TopOctet(a, b, c, d);
    SecondOctet(a, b, c, d);
    ThirdOctet(a, b, c, d);
  }

  lemma TopOctet(a: byte, b: byte, c: byte, d: byte)
    ensures (a * 0x100_0000 + b * 0x1_0000 + c * 0x100 + d) / 0x100_0000 == a
  {
  }

  lemma SecondOctet(a: byte, b: byte, c: byte, d: byte)
    ensures (a * 0x100_0000 + b * 0x1_0000 + c * 0x100 + d) / 0x1_0000 % 256 == b
  {
    assert (a * 0x100_0000 + b * 0x1_0000 + c * 0x100 + d) / 0x1_0000 == a * 256 + b;
  }

  lemma ThirdOctet(a: byte, b: byte, c: byte, d: byte)
    ensures (a * 0x100_0000 + b * 0x1_0000 + c * 0x100 + d) / 0x8000 % 2 == c / 128
  {
    assert (a * 0x100_0000 + b * 0x1_0000 + c * 0x100 + d) / 0x8000 == (a * 256 + b) * 2 + c / 128;
  }

  /** The header, bit by bit. */
  lemma HeaderFields(data: bytes)
    requires ParseMessage(data).Ok?
    ensures |data| >= 12
    ensures var m := ParseMessage(data).value;
            && m.id == Word(data, 0)
            && m.flags.response == BitAt(data[2], 7) && m.flags.opcode == OpFrom(data[2] / 8 % 16)
            && m.flags.authoritative == BitAt(data[2], 2) && m.flags.truncation == BitAt(data[2], 1)
            && m.flags.recursion == BitAt(data[2], 0)
            && m.flags.recursionOk == BitAt(data[3], 7) && m.flags.ad == BitAt(data[3], 5) && m.flags.cd == BitAt(data[3], 4)
  {
    hide ParseQueries, ParseRecords, ParseAdditionals, CodeFrom, ReadU16;
    Numbers(data, 0);
  }

  // ---- Numbers

  /** Opcodes 0, 1, 2, 4 and 5 have names, and the four bits of no other. */
  lemma OpCodes(n: byte)
    requires n < 16
    ensures OpFrom(n) == if n in {0, 1, 2, 4, 5}
                         then [OpQuery, IQuery, Status, OtherOp(3), Notify, Update][n] else OtherOp(n)
  {
  }

  lemma Classes(n: u16)
    ensures ClassFrom(n) == if n == 1 then ClassIN else if n == 3 then ClassCH else if n == 4 then ClassHS
                            else if n == 254 then ClassNone else if n == 255 then ClassAny else OtherClass(n)
  {
  }

  /** RCODEs 0 to 11 and 16 to 23 have names, in this order. */
  lemma ResponseCodes(n: u16)
    ensures CodeFrom(n)
            == if n < 12 then
                 [NoError, FormatError, ServerFailure, NoSuchDomain, NotImplemented, Refused, DomainExists,
                  RecordSetExists, NoSuchRecordSet, NotAuthorized, NameNotInZone, DsoTypeNotImplemented][n]
               else if 16 <= n < 24 then
                 [BadOptVersion, BadKey, BadTime, BadTkeyMode, BadName, BadAlgorithm, BadTruncation, BadCookie][n - 16]
               else OtherCode(n)
  {
  }
}
