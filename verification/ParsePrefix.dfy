/** Reading is settled by what has arrived: whatever parses from the front of a
    message parses the same, however the message goes on. */
module ParsePrefix {
  import opened Octets
  import opened DName
  import opened Emission
  import opened Records
  import opened Codes
  import opened Messages

  /** A name that decodes against a message decodes the same against any longer one. */
  lemma NameExtends(data: bytes, pos: nat, msg: bytes, more: bytes)
    requires pos <= |data| && msg <= more && DecodeName(data, pos, msg).Ok?
    ensures DecodeName(data, pos, more) == DecodeName(data, pos, msg)
  {
    hide Unpack, Expand;
    DecodeNameExact(data, pos, msg);
    DecodeNameExact(data, pos, more);
    var seg := ReadSegment(data, pos).value;
    if seg.tail.ToPointer? {
      ExpandExtends(msg, more, seg.tail.target);
    }
  }

  lemma SegmentExtends(data: bytes, pos: nat, more: bytes)
    requires pos <= |data| && data <= more && ReadSegment(data, pos).Ok?
    ensures ReadSegment(more, pos) == ReadSegment(data, pos)
  {
    assert more[0..|data|] == data;
    SegmentOfSlice(more, pos, 0, |data|);
  }

  /** The same with the name itself in the message that goes on. */
  lemma OwnNameExtends(data: bytes, pos: nat, more: bytes)
    requires pos <= |data| && data <= more && DecodeName(data, pos, data).Ok?
    ensures DecodeName(more, pos, more) == DecodeName(data, pos, data)
  {
    NameExtends(data, pos, data, more);
    SegmentExtends(data, pos, more);
    hide ReadSegment, Unpack;
    var seg := ReadSegment(data, pos).value;
    PrefixSlice(data, more, pos, seg.litEnd);
    PrefixSlice(data, more, pos, seg.End());
  }

  lemma PrefixSlice(data: bytes, more: bytes, i: nat, j: nat)
    requires i <= j <= |data| && data <= more
    ensures more[i..j] == data[i..j]
  {
    assert more[..|data|] == data;
    SliceOfSlice(more, 0, |data|, i, j);
  }

  lemma NumbersExtend(data: bytes, more: bytes, at: nat)
    requires data <= more
    ensures at + 2 <= |data| ==> ReadU16(more, at) == ReadU16(data, at)
    ensures at + 4 <= |data| ==> ReadU32(more, at) == ReadU32(data, at)
  {
  }

  // ---- RDATA

  lemma SoaExtends(rdata: bytes, msg: bytes, more: bytes)
    requires msg <= more && DecodeSoa(rdata, msg).Ok?
    ensures DecodeSoa(rdata, more) == DecodeSoa(rdata, msg)
  {
    hide DecodeName;
    NameExtends(rdata, 0, msg, more);
    NameExtends(rdata, DecodeName(rdata, 0, msg).value.next, msg, more);
  }

  lemma SvcbExtends(rtype: u16, rdata: bytes, msg: bytes, more: bytes)
    requires msg <= more && DecodeSvcb(rtype, rdata, msg).Ok?
    ensures DecodeSvcb(rtype, rdata, more) == DecodeSvcb(rtype, rdata, msg)
  {
    hide DecodeName;
    NameExtends(rdata, 2, msg, more);
  }

  lemma RrsigExtends(rdata: bytes, msg: bytes, more: bytes)
    requires msg <= more && DecodeRrsig(rdata, msg).Ok?
    ensures DecodeRrsig(rdata, more) == DecodeRrsig(rdata, msg)
  {
    hide DecodeName;
    NameExtends(rdata, 18, msg, more);
  }

  lemma DecodeExtends(rtype: u16, rdata: bytes, msg: bytes, more: bytes)
    requires msg <= more && Decode(rtype, rdata, msg).Ok?
    ensures Decode(rtype, rdata, more) == Decode(rtype, rdata, msg)
  {
    hide DecodeName, DecodeSoa, DecodeSvcb, DecodeRrsig, DecodeNsec3, DecodeStrings;
    if rdata != [] {
      if IsHost(rtype) || rtype == NSEC {
        NameExtends(rdata, 0, msg, more);
      } else if rtype == SOA {
        SoaExtends(rdata, msg, more);
      } else if rtype == SVCB || rtype == HTTPS {
        SvcbExtends(rtype, rdata, msg, more);
      } else if rtype == MX {
        NameExtends(rdata, 2, msg, more);
      } else if rtype == RRSIG {
        RrsigExtends(rdata, msg, more);
      }
    }
  }

  // ---- The parts of a message

  lemma QueryExtends(data: bytes, pos: nat, more: bytes)
    requires pos <= |data| && data <= more && ParseQuery(data, pos).Ok?
    ensures ParseQuery(more, pos) == ParseQuery(data, pos)
  {
    hide DecodeName, ReadU16;
    OwnNameExtends(data, pos, more);
    var p := DecodeName(data, pos, data).value.next;
    NumbersExtend(data, more, p);
    NumbersExtend(data, more, p + 2);
  }

  lemma PartsExtend(data: bytes, pos: nat, more: bytes)
    requires pos <= |data| && data <= more && ReadParts(data, pos).Ok?
    ensures ReadParts(more, pos) == ReadParts(data, pos)
  {
    hide ReadSegment, ReadU16, ReadU32;
    SegmentExtends(data, pos, more);
    var p := ReadSegment(data, pos).value.End();
    NumbersExtend(data, more, p);
    NumbersExtend(data, more, p + 2);
    NumbersExtend(data, more, p + 4);
    NumbersExtend(data, more, p + 8);
  }

  lemma FromPartsExtends(data: bytes, pos: nat, p: Parts, more: bytes)
    requires pos <= |data| && p.from <= p.to <= |data| && data <= more && FromParts(data, pos, p).Ok?
    ensures FromParts(more, pos, p) == FromParts(data, pos, p)
  {
    hide DecodeName, Decode, Encode;
    OwnNameExtends(data, pos, more);
    PrefixSlice(data, more, p.from, p.to);
    DecodeExtends(p.rtype, data[p.from..p.to], data, more);
  }

  lemma AdditionalExtends(data: bytes, pos: nat, more: bytes)
    requires pos <= |data| && data <= more && ParseAdditional(data, pos).Ok?
    ensures ParseAdditional(more, pos) == ParseAdditional(data, pos)
  {
    hide ReadParts, FromParts;
    PartsExtend(data, pos, more);
    var p := ReadParts(data, pos).value;
    if p.rtype != OPT {
      FromPartsExtends(data, pos, p, more);
    } else {
      PrefixSlice(data, more, p.from, p.to);
    }
  }

  lemma {:induction false} QueriesExtend(data: bytes, pos: nat, n: nat, more: bytes)
    requires pos <= |data| && data <= more && ParseQueries(data, pos, n).Ok?
    ensures ParseQueries(more, pos, n) == ParseQueries(data, pos, n)
    decreases n
  {
    hide ParseQuery;
    if n > 0 {
      QueryExtends(data, pos, more);
      QueriesExtend(data, ParseQuery(data, pos).value.next, n - 1, more);
    }
  }

  lemma {:induction false} RecordsExtend(data: bytes, pos: nat, n: nat, more: bytes)
    requires pos <= |data| && data <= more && ParseRecords(data, pos, n).Ok?
    ensures ParseRecords(more, pos, n) == ParseRecords(data, pos, n)
    decreases n
  {
    hide ReadParts, FromParts;
    if n > 0 {
      PartsExtend(data, pos, more);
      FromPartsExtends(data, pos, ReadParts(data, pos).value, more);
      RecordsExtend(data, ParseRecord(data, pos).value.next, n - 1, more);
    }
  }

  lemma {:induction false} AdditionalsExtend(data: bytes, pos: nat, n: nat, seen: bool, more: bytes)
    requires pos <= |data| && data <= more && ParseAdditionals(data, pos, n, seen).Ok?
    ensures ParseAdditionals(more, pos, n, seen) == ParseAdditionals(data, pos, n, seen)
    decreases n
  {
    hide ParseAdditional;
    if n > 0 {
      AdditionalExtends(data, pos, more);
      var x := ParseAdditional(data, pos).value;
      AdditionalsExtend(data, x.next, n - 1, seen || x.item.Opt?, more);
    }
  }

  /** Octets after a whole message change nothing of how it reads. */
  lemma MessageExtends(data: bytes, more: bytes)
    requires data <= more && ParseMessage(data).Ok?
    ensures ParseMessage(more) == ParseMessage(data)
  {
    hide ParseQueries, ParseRecords, ParseAdditionals, ReadU16, CodeFrom, OpFrom;
    NumbersExtend(data, more, 0);
    NumbersExtend(data, more, 4);
    NumbersExtend(data, more, 6);
    NumbersExtend(data, more, 8);
    NumbersExtend(data, more, 10);
    var q := ParseQueries(data, HEADER_LEN, ReadU16(data, 4)).value;
    QueriesExtend(data, HEADER_LEN, ReadU16(data, 4), more);
    var an := ParseRecords(data, q.next, ReadU16(data, 6)).value;
    RecordsExtend(data, q.next, ReadU16(data, 6), more);
    var ns := ParseRecords(data, an.next, ReadU16(data, 8)).value;
    RecordsExtend(data, an.next, ReadU16(data, 8), more);
    AdditionalsExtend(data, ns.next, ReadU16(data, 10), false, more);
    assert more[2] == data[2] && more[3] == data[3];
  }
}
