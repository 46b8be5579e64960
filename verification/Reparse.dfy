/** What a parsed message is fit for: when it can be written again, and that it then
    reads as the same message. */
module Reparse {
  import opened Octets
  import opened Names
  import opened DName
  import opened Compression
  import opened Emission
  import opened Records
  import opened NormalForm
  import opened RdataRoundTrip
  import opened Codes
  import opened Messages
  import opened MessageRoundTrip
  import opened SizeBound
  import MessageReader

  /** What every parsed record is. */
  ghost predicate Kept(rr: Record) {
    IsName(rr.name) && rr.ttl < TWO_31 && Stored(rr.rdata) && Parse(rr.rdata).Ok?
  }

  ghost predicate AllKept(rrs: seq<Record>) {
    forall i :: 0 <= i < |rrs| ==> Kept(rrs[i])
  }

  lemma PartsKept(data: bytes, pos: nat, p: Parts)
    requires pos <= |data| && p.from <= p.to <= |data| && FromParts(data, pos, p).Ok?
    ensures Kept(FromParts(data, pos, p).value) && FromParts(data, pos, p).value.rdata.rtype == p.rtype
  {
    hide Decode, DecodeName, IsName, Encode, Parse;
    var rdata := data[p.from..p.to];
    DecodedIsName(data, pos, data);
    StorageIsNormalForm(p.rtype, rdata, data, data);
  }

  lemma {:induction false} RecordsKept(data: bytes, pos: nat, n: nat)
    requires pos <= |data| && ParseRecords(data, pos, n).Ok?
    ensures AllKept(ParseRecords(data, pos, n).value.item) && |ParseRecords(data, pos, n).value.item| == n
    decreases n
  {
    hide ReadParts, FromParts, Kept;
    if n > 0 {
      PartsKept(data, pos, ReadParts(data, pos).value);
      RecordsKept(data, ParseRecord(data, pos).value.next, n - 1);
    }
  }

  lemma {:induction false} AdditionalsKept(data: bytes, pos: nat, n: nat, seen: bool)
    requires pos <= |data| && ParseAdditionals(data, pos, n, seen).Ok?
    ensures var x := ParseAdditionals(data, pos, n, seen).value.item;
            && AllKept(x.records) && |x.records| + (if x.opt.Some? then 1 else 0) <= n
            && forall i :: 0 <= i < |x.records| ==> x.records[i].rdata.rtype != OPT
    decreases n
  {
    hide ReadParts, FromParts, Kept;
    if n > 0 {
      var p := ReadParts(data, pos).value;
      var x := ParseAdditional(data, pos).value;
      if p.rtype != OPT {
        PartsKept(data, pos, p);
        AdditionalsKept(data, x.next, n - 1, seen);
      } else {
        AdditionalsKept(data, x.next, n - 1, true);
      }
    }
  }

  lemma {:induction false} QueriesKept(data: bytes, pos: nat, n: nat)
    requires pos <= |data| && ParseQueries(data, pos, n).Ok?
    ensures var qs := ParseQueries(data, pos, n).value.item;
            |qs| == n && forall i :: 0 <= i < |qs| ==> IsName(qs[i].qname) && ClassFrom(ClassTo(qs[i].qclass)) == qs[i].qclass
    decreases n
  {
    hide DecodeName, IsName, ClassFrom, ClassTo;
    if n > 0 {
      DecodedIsName(data, pos, data);
      var at := DecodeName(data, pos, data).value.next;
      ClassBack(ReadU16(data, at + 2));
      QueriesKept(data, ParseQuery(data, pos).value.next, n - 1);
    }
  }

  /** A number converted and converted back is itself. */
  lemma ClassBack(v: u16)
    ensures ClassTo(ClassFrom(v)) == v && ClassFrom(ClassTo(ClassFrom(v))) == ClassFrom(v)
  {
  }

  lemma OpBack(v: byte)
    ensures OpTo(OpFrom(v)) == v % 16 && OpFrom(OpTo(OpFrom(v))) == OpFrom(v)
  {
  }

  lemma CodeBack(v: u16)
    ensures CodeTo(CodeFrom(v)) == v && CodeFrom(CodeTo(CodeFrom(v))) == CodeFrom(v)
  {
  }

  /** The names that go out compressed are within the decoder's hop cap. */
  ghost predicate ShortThroughout(m: DnsMessage) {
    && (forall i :: 0 <= i < |m.queries| ==> ShortName(m.queries[i].qname))
    && ShortRecords(m.answers) && ShortRecords(m.authorities) && ShortRecords(m.additionals)
  }

  ghost predicate ShortRecords(rrs: seq<Record>) {
    forall i :: 0 <= i < |rrs| ==>
      ShortName(rrs[i].name) && Parse(rrs[i].rdata).Ok? && ShortNames(Parse(rrs[i].rdata).value)
  }

  lemma KeptIsGood(rrs: seq<Record>)
    requires AllKept(rrs)
    ensures GoodRecords(rrs) <==> ShortRecords(rrs)
  {
    hide Stored, Parse, ShortNames, IsName, LabelCount;
  }

  /** A parsed message meets every condition of the round trip but the length of its
      names, and that exactly. */
  lemma ParsedIsSendable(data: bytes)
    requires ParseMessage(data).Ok?
    ensures NamesOk(ParseMessage(data).value) && CountsFit(ParseMessage(data).value)
    ensures Sendable(ParseMessage(data).value) <==> ShortThroughout(ParseMessage(data).value)
  {
    hide ParseQueries, ParseRecords, ParseAdditionals, ReadU16, CodeFrom, CodeTo, OpFrom, OpTo, ClassFrom, ClassTo,
         Stored, Parse, ShortNames, IsName, LabelCount, ShortRecords, GoodRecords;
    var q := ParseQueries(data, HEADER_LEN, ReadU16(data, 4)).value;
    var an := ParseRecords(data, q.next, ReadU16(data, 6)).value;
    var ns := ParseRecords(data, an.next, ReadU16(data, 8)).value;
    var ar := ParseAdditionals(data, ns.next, ReadU16(data, 10), false).value;
    QueriesKept(data, HEADER_LEN, ReadU16(data, 4));
    RecordsKept(data, q.next, ReadU16(data, 6));
    RecordsKept(data, an.next, ReadU16(data, 8));
    AdditionalsKept(data, ns.next, ReadU16(data, 10), false);
    KeptIsGood(an.item);
    KeptIsGood(ns.item);
    KeptIsGood(ar.item.records);
    OpBack(data[2] / 8);
    CodeBack(FullRcode(data[3], ar.item.opt));
  }

  /** Parse, serialize, parse: the same message again, up to the case of its names. */
  lemma ReparsedSame(data: bytes, cap: nat)
    requires ParseMessage(data).Ok? && ShortThroughout(ParseMessage(data).value)
    requires NamesOk(ParseMessage(data).value) && ToBytes(cap, ParseMessage(data).value).Ok?
    ensures ParseMessage(ToBytes(cap, ParseMessage(data).value).value).Ok?
    ensures SameMessage(ParseMessage(data).value, ParseMessage(ToBytes(cap, ParseMessage(data).value).value).value)
  {
    hide *;
    ParsedIsSendable(data);
    RoundTrip(cap, ParseMessage(data).value);
  }

  // ---- When a parsed message can be written

  /** RDATA whose names are rewritten must have some; any other must fit RDLENGTH. */
  predicate Writable(d: RecordData) {
    if HoldsNames(d.rtype) then d.octets != [] else |d.octets| < TWO_16
  }

  predicate AllWritable(rrs: seq<Record>) {
    forall i :: 0 <= i < |rrs| ==> Writable(rrs[i].rdata)
  }

  /** Stored RDATA of those types is a name, two names and the counters, or a
      preference and a name. */
  lemma StoredNames(d: RecordData)
    requires Stored(d) && HoldsNames(d.rtype) && d.octets != []
    ensures Compressible(d.rtype) ==> DecodePlain(d.octets, 0).Ok? && |d.octets| <= 255
    ensures d.rtype == MX ==> |d.octets| >= 2 && DecodePlain(d.octets, 2).Ok? && |d.octets| <= 257
    ensures d.rtype == SOA ==> && DecodePlain(d.octets, 0).Ok? && |d.octets| <= 530
                               && DecodePlain(d.octets, DecodePlain(d.octets, 0).value.next).Ok?
  {
    hide DecodeSvcb, DecodeRrsig, DecodeNsec3, DecodeStrings, DecodeName, DecodePlain, IsName, U16, U32, ReadU32;
    var p := Decode(d.rtype, d.octets, d.octets).value;
    DecodeCanonical(d.rtype, d.octets, d.octets);
    if d.rtype == SOA {
      SoaCanonical(d.octets, d.octets);
      SoaPlain(p.mname, p.rname, U32(p.serial) + U32(p.refresh) + U32(p.retry) + U32(p.expire) + U32(p.minimum));
    } else if d.rtype == MX {
      PlainInside(U16(p.preference), p.exchange, []);
      assert U16(p.preference) + p.exchange + [] == d.octets;
    } else {
      PlainInside([], p.name, []);
      assert [] + p.name + [] == d.octets;
    }
  }

  lemma PlainInside(pre: bytes, w: bytes, post: bytes)
    requires IsName(w)
    ensures DecodePlain(pre + w + post, |pre|) == Ok(Decoded(w, |pre| + |w|)) && |w| <= 255
  {
    StoredInside(pre, w, post);
  }

  lemma SoaPlain(m: bytes, n: bytes, f: bytes)
    requires IsName(m) && IsName(n) && |f| == 20
    ensures var x := m + n + f;
            && |x| <= 530 && DecodePlain(x, 0) == Ok(Decoded(m, |m|)) && DecodePlain(x, |m|).Ok?
  {
    hide IsName, DecodePlain;
    PlainInside([], m, n + f);
    PlainInside(m, n, f);
    assert [] + m + (n + f) == m + n + f;
  }

  lemma NoPlain()
    ensures DecodePlain([], 0).Err?
  {
  }

  /** With room for it, RDATA is written exactly when it is writable. */
  lemma RdataWritesIff(cap: nat, t: Table, pos: nat, d: RecordData)
    requires Targets(t) && Stored(d) && pos + |d.octets| <= cap
    ensures var r := EmitRdata(cap, t, pos, d.rtype, d.octets);
            r.Ok? && |r.value.octets| < TWO_16 <==> Writable(d)
  {
    hide WriteName, Targets, DecodePlain, Stored;
    RdataRoomy(cap, t, pos, d.rtype, d.octets);
    if HoldsNames(d.rtype) {
      if d.octets == [] {
        NoPlain();
      } else {
        StoredNames(d);
      }
    }
  }

  lemma RecordWritesIff(cap: nat, t: Table, pos: nat, rr: Record)
    requires Targets(t) && Kept(rr) && pos + |rr.name| + 10 + |rr.rdata.octets| <= cap
    ensures EmitRecord(cap, t, pos, rr).Ok? <==> Writable(rr.rdata)
  {
    hide EmitName, EmitRdata, Targets, IsName, FixedFields, Stored, Parse, Writable;
    NameRoomy(cap, t, pos, rr.name);
    var o := EmitName(cap, t, pos, rr.name).value;
    RdataWritesIff(cap, o.table, pos + |o.octets| + 10, rr.rdata);
  }

  lemma {:induction false} RecordsWriteIff(cap: nat, t: Table, pos: nat, rrs: seq<Record>)
    requires Targets(t) && AllKept(rrs) && pos + RecordsBound(rrs) <= cap
    requires forall i :: 0 <= i < |rrs| ==> IsName(rrs[i].name)
    ensures EmitRecords(cap, t, pos, rrs).Ok? <==> AllWritable(rrs)
    decreases |rrs|
  {
    hide EmitRecord, Targets, IsName, Writable, Stored, Parse;
    if rrs != [] {
      assert Kept(rrs[0]);
      RecordWritesIff(cap, t, pos, rrs[0]);
      RecordRoomy(cap, t, pos, rrs[0]);
      var c := EmitRecord(cap, t, pos, rrs[0]);
      if c.Ok? {
        RecordsWriteIff(cap, c.value.table, pos + |c.value.octets|, rrs[1..]);
        assert AllWritable(rrs) <==> AllWritable(rrs[1..]) by { WritableFirst(rrs); }
      }
    }
  }

  lemma WritableFirst(rrs: seq<Record>)
    requires rrs != []
    ensures AllWritable(rrs) <==> Writable(rrs[0].rdata) && AllWritable(rrs[1..])
  {
    hide Writable;
    if AllWritable(rrs[1..]) {
      forall i | 1 <= i < |rrs| ensures Writable(rrs[i].rdata) {
        assert rrs[1..][i - 1] == rrs[i];
      }
    }
  }

  lemma {:induction false} QueriesWrite(cap: nat, t: Table, pos: nat, qs: seq<Query>)
    requires Targets(t) && pos + QueriesBound(qs) <= cap && forall i :: 0 <= i < |qs| ==> IsName(qs[i].qname)
    ensures EmitQueries(cap, t, pos, qs).Ok? && |EmitQueries(cap, t, pos, qs).value.octets| <= QueriesBound(qs)
    decreases |qs|
  {
    hide EmitName, Targets, IsName;
    if qs != [] {
      NameRoomy(cap, t, pos, qs[0].qname);
      var c := EmitQuery(cap, t, pos, qs[0]).value;
      QueriesWrite(cap, c.table, pos + |c.octets|, qs[1..]);
    }
  }

  /** A body in room enough, of records as the parser gives them. */
  lemma BodyWritesIff(cap: nat, m: DnsMessage, code: nat)
    requires NamesOk(m) && code < 0x1000 && cap >= WireSizeBound(m)
    requires AllKept(m.answers) && AllKept(m.authorities) && AllKept(m.additionals)
    requires m.edns.Some? ==> |m.edns.value.rdata| < TWO_16
    ensures EmitBody(cap, m, code).Ok?
            <==> AllWritable(m.answers) && AllWritable(m.authorities) && AllWritable(m.additionals)
  {
    hide EmitQueries, EmitRecords, IsName, QueriesBound, RecordsBound, OptOctets, AllWritable, AllKept;
    QueriesWrite(cap, EMPTY_TABLE, HEADER_LEN, m.queries);
    var q := EmitQueries(cap, EMPTY_TABLE, HEADER_LEN, m.queries).value;
    var p := HEADER_LEN + |q.octets|;
    RecordsRoomy(cap, q.table, p, m.answers);
    RecordsWriteIff(cap, q.table, p, m.answers);
    var an := EmitRecords(cap, q.table, p, m.answers);
    if an.Ok? {
      p := p + |an.value.octets|;
      RecordsRoomy(cap, an.value.table, p, m.authorities);
      RecordsWriteIff(cap, an.value.table, p, m.authorities);
      var ns := EmitRecords(cap, an.value.table, p, m.authorities);
      if ns.Ok? {
        RecordsRoomy(cap, ns.value.table, p + |ns.value.octets|, m.additionals);
        RecordsWriteIff(cap, ns.value.table, p + |ns.value.octets|, m.additionals);
      }
    }
  }

  lemma OneOptFits(data: bytes, pos: nat)
    requires pos <= |data| && ParseAdditional(data, pos).Ok?
    ensures var x := ParseAdditional(data, pos).value.item; x.Opt? ==> |x.edns.rdata| < TWO_16
  {
    hide FromParts, ReadSegment, ReadU32;
  }

  /** The OPT's RDATA came out of a 16-bit length. */
  lemma {:induction false} OptFits(data: bytes, pos: nat, n: nat, seen: bool)
    requires pos <= |data| && ParseAdditionals(data, pos, n, seen).Ok?
    ensures var x := ParseAdditionals(data, pos, n, seen).value.item; x.opt.Some? ==> |x.opt.value.0.rdata| < TWO_16
    decreases n
  {
    hide ParseAdditional;
    if n > 0 {
      var x := ParseAdditional(data, pos).value;
      OneOptFits(data, pos);
      OptFits(data, x.next, n - 1, seen || x.item.Opt?);
      if seen || x.item.Opt? {
        MessageReader.NoSecondOpt(data, x.next, n - 1);
      }
    }
  }

  /** The RCODE numbers that can be sent: twelve bits with an OPT, four without; any
      other, up to the sixteen a code can have, is malformed. */
  lemma SentRcodes(v: u16, hasEdns: bool)
    ensures WireRcode(CodeFrom(v), hasEdns) == if v < (if hasEdns then 0x1000 else 16) then Ok(v) else Err(Malformed)
  {
    CodeBack(v);
    hide CodeFrom, CodeTo;
  }

  lemma RcodeFits(lo: byte, opt: Option<(Edns, u32)>)
    ensures WireRcode(CodeFrom(FullRcode(lo, opt)), opt.Some?).Ok?
  {
    CodeBack(FullRcode(lo, opt));
    hide CodeFrom, CodeTo;
  }

  /** A parsed message serializes, in a buffer of `wire_size_bound` octets or any
      larger, exactly when no NS, CNAME, PTR, SOA or MX record of it came with empty
      RDATA and no other RDATA outgrew its length field as its names were expanded. */
  lemma ParsedWritesIff(data: bytes, cap: nat)
    requires ParseMessage(data).Ok? && NamesOk(ParseMessage(data).value)
    requires cap >= WireSizeBound(ParseMessage(data).value)
    ensures var m := ParseMessage(data).value;
            ToBytes(cap, m).Ok? <==> AllWritable(m.answers) && AllWritable(m.authorities) && AllWritable(m.additionals)
  {
    hide ParseQueries, ParseRecords, ParseAdditionals, ReadU16, CodeFrom, CodeTo, OpFrom, OpTo, IsName, EmitBody,
         AllWritable, AllKept, WireSizeBound, HeaderOctets, FullRcode;
    ParsedIsSendable(data);
    var m := ParseMessage(data).value;
    var q := ParseQueries(data, HEADER_LEN, ReadU16(data, 4)).value;
    var an := ParseRecords(data, q.next, ReadU16(data, 6)).value;
    var ns := ParseRecords(data, an.next, ReadU16(data, 8)).value;
    var ar := ParseAdditionals(data, ns.next, ReadU16(data, 10), false).value;
    RecordsKept(data, q.next, ReadU16(data, 6));
    RecordsKept(data, an.next, ReadU16(data, 8));
    AdditionalsKept(data, ns.next, ReadU16(data, 10), false);
    OptFits(data, ns.next, ReadU16(data, 10), false);
    RcodeFits(data[3], ar.item.opt);
    BoundIsRoom(m);
    BodyWritesIff(cap, m, WireRcode(m.rcode, m.edns.Some?).value);
  }

  lemma BoundIsRoom(m: DnsMessage)
    ensures WireSizeBound(m) >= HEADER_LEN
  {
  }

  /** An NS record with empty RDATA, as a prerequisite of an update has it, is parsed
      and stored, and cannot be written. */
  lemma EmptyHostNotWritten(cap: nat, t: Table, pos: nat)
    requires Targets(t)
    ensures Stored(RecordData(NS, [])) && EmitRdata(cap, t, pos, NS, []) == Err(Truncated)
  {
  }
}
