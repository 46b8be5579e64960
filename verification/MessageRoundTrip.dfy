/** Whatever `to_bytes` writes, `try_from_bytes` reads back as the same message. */
module MessageRoundTrip {
  import opened Octets
  import opened Names
  import opened DName
  import opened Compression
  import opened CompressionSoundness
  import opened Emission
  import opened Records
  import opened RdataRoundTrip
  import opened Codes
  import opened Messages

  // ---- What is the same, and what may be sent

  ghost predicate SameQuery(a: Query, b: Query) {
    SameName(a.qname, b.qname) && a.qtype == b.qtype && a.qclass == b.qclass
  }

  ghost predicate SameRecord(a: Record, b: Record) {
    SameName(a.name, b.name) && a.class_ == b.class_ && a.ttl == b.ttl && SameRdata(a.rdata, b.rdata)
  }

  ghost predicate SameRecords(a: seq<Record>, b: seq<Record>) {
    |a| == |b| && forall i :: 0 <= i < |a| ==> SameRecord(a[i], b[i])
  }

  ghost predicate SameQueries(a: seq<Query>, b: seq<Query>) {
    |a| == |b| && forall i :: 0 <= i < |a| ==> SameQuery(a[i], b[i])
  }

  ghost predicate SameMessage(a: DnsMessage, b: DnsMessage) {
    && a.id == b.id && a.flags == b.flags && a.rcode == b.rcode && a.edns == b.edns
    && SameQueries(a.queries, b.queries) && SameRecords(a.answers, b.answers)
    && SameRecords(a.authorities, b.authorities) && SameRecords(a.additionals, b.additionals)
  }

  predicate GoodQuery(q: Query) {
    ShortName(q.qname) && ClassFrom(ClassTo(q.qclass)) == q.qclass
  }

  predicate GoodQueries(qs: seq<Query>) {
    forall i :: 0 <= i < |qs| ==> GoodQuery(qs[i])
  }

  ghost predicate GoodRecord(rr: Record) {
    ShortName(rr.name) && rr.ttl < TWO_31 && GoodRdata(rr.rdata)
  }

  ghost predicate GoodRecords(rrs: seq<Record>) {
    forall i :: 0 <= i < |rrs| ==> GoodRecord(rrs[i])
  }

  /** Names within the hop cap, TTLs below 2^31 (RFC 2181 section 8), RDATA as
      `from_wire` stores it, codes as their constructors give them, and the OPT in
      its own field. */
  ghost predicate Sendable(m: DnsMessage) {
    && GoodQueries(m.queries)
    && GoodRecords(m.answers) && GoodRecords(m.authorities) && GoodRecords(m.additionals)
    && (forall i :: 0 <= i < |m.additionals| ==> m.additionals[i].rdata.rtype != OPT)
    && Named(m.flags.opcode, m.rcode)
  }

  // ---- One record

  lemma RdataBack(cap: nat, t: Table, out: bytes, d: RecordData, data: bytes)
    requires Sound(t, out) && Targets(t) && GoodRdata(d)
    requires EmitRdata(cap, t, |out|, d.rtype, d.octets).Ok?
    requires out + EmitRdata(cap, t, |out|, d.rtype, d.octets).value.octets <= data
    ensures var c := EmitRdata(cap, t, |out|, d.rtype, d.octets).value;
            && Sound(c.table, out + c.octets)
            && FromWire(d.rtype, c.octets, data).Ok?
            && SameRdata(d, FromWire(d.rtype, c.octets, data).value)
  {
    hide Sound, Targets, EmitOneName, EmitTwoNames, FromWire, Decode;
    if Compressible(d.rtype) {
      HostBack(cap, t, out, d, data);
    } else if d.rtype == SOA {
      RdataRoundTrip.SoaBack(cap, t, out, d, data);
    } else if d.rtype == MX {
      RdataRoundTrip.MxBack(cap, t, out, d, data);
    } else {
      SoundExtends(t, out, out + d.octets);
      VerbatimBack(d, data);
    }
  }

  lemma NextIsEnd(data: bytes, pos: nat)
    requires pos <= |data| && DecodeName(data, pos, data).Ok?
    ensures ReadSegment(data, pos).Ok? && ReadSegment(data, pos).value.End() == DecodeName(data, pos, data).value.next
  {
  }

  lemma FixedReads(data: bytes, p: nat, rr: Record, len: nat)
    requires len < TWO_16 && p + 10 <= |data| && data[p..p + 10] == FixedFields(rr, len)
    ensures ReadU16(data, p) == rr.rdata.rtype && ReadU16(data, p + 2) == rr.class_
    ensures ReadU32(data, p + 4) == rr.ttl && ReadU16(data, p + 8) == len
  {
    hide U16, U32, ReadU16, ReadU32;
    var f := data[p..p + 10];
    assert f[0..2] == U16(rr.rdata.rtype) && f[2..4] == U16(rr.class_) && f[4..8] == U32(rr.ttl) && f[8..10] == U16(len);
    SliceOfSlice(data, p, p + 10, 0, 2);
    SliceOfSlice(data, p, p + 10, 2, 4);
    SliceOfSlice(data, p, p + 10, 4, 8);
    SliceOfSlice(data, p, p + 10, 8, 10);
    ReadU16Back(data, p, rr.rdata.rtype);
    ReadU16Back(data, p + 2, rr.class_);
    ReadU32Back(data, p + 4, rr.ttl);
    ReadU16Back(data, p + 8, len);
  }

  /** The parts of a record in place: owner, fixed fields, RDATA. */
  lemma PartsInPlace(out: bytes, owner: bytes, fixed: bytes, rdata: bytes, data: bytes)
    requires out + (owner + fixed + rdata) <= data
    ensures var p := |out| + |owner|;
            var q := p + |fixed|;
            && out + owner <= data && out + owner + fixed <= data && out + owner + fixed + rdata <= data
            && q + |rdata| <= |data|
            && data[p..q] == fixed && data[q..q + |rdata|] == rdata
            && out + owner + fixed + rdata == out + (owner + fixed + rdata)
  {
    var p, q := |out| + |owner|, |out| + |owner| + |fixed|;
    assert out + owner + fixed + rdata == out + (owner + fixed + rdata);
    Prefixes(out + owner, fixed, rdata, data);
    AppendedSlice(out + owner, fixed, data);
    AppendedSlice(out + owner + fixed, rdata, data);
  }

  lemma PartsRead(data: bytes, pos: nat, rr: Record, len: nat)
    requires pos <= |data| && DecodeName(data, pos, data).Ok? && len < TWO_16
    requires var p := DecodeName(data, pos, data).value.next;
             p + 10 + len <= |data| && data[p..p + 10] == FixedFields(rr, len)
    ensures var p := DecodeName(data, pos, data).value.next;
            ReadParts(data, pos) == Ok(Parts(rr.rdata.rtype, rr.class_, rr.ttl, p + 10, p + 10 + len))
  {
    hide DecodeName, ReadSegment, FixedFields, ReadU16, ReadU32;
    NextIsEnd(data, pos);
    FixedReads(data, DecodeName(data, pos, data).value.next, rr, len);
  }

  /** A record `write_rr` wrote is a record `ParseRecord` reads. */
  ghost predicate RecordBackAt(data: bytes, pos: nat, rr: Record, next: nat) {
    && pos <= |data| && ReadParts(data, pos).Ok?
    && ReadParts(data, pos).value.rtype == rr.rdata.rtype && ReadParts(data, pos).value.to == next
    && FromParts(data, pos, ReadParts(data, pos).value).Ok?
    && SameRecord(rr, FromParts(data, pos, ReadParts(data, pos).value).value)
  }

  lemma RecordBack(cap: nat, t: Table, out: bytes, rr: Record, data: bytes)
    requires Sound(t, out) && Targets(t) && GoodRecord(rr)
    requires EmitRecord(cap, t, |out|, rr).Ok?
    requires out + EmitRecord(cap, t, |out|, rr).value.octets <= data
    ensures var c := EmitRecord(cap, t, |out|, rr).value;
            && Sound(c.table, out + c.octets)
            && RecordBackAt(data, |out|, rr, |out| + |c.octets|)
  {
    hide Sound, Targets, WriteName, EmitRdata, Returns, GoodRdata, SameRdata, FromWire, FixedFields, ReadParts, DecodeName;
    var c := EmitRecord(cap, t, |out|, rr).value;
    var o := WriteName(t, rr.name, |out|);
    var p := |out| + |o.octets|;
    var d := EmitRdata(cap, o.table, p + 10, rr.rdata.rtype, rr.rdata.octets).value;
    var fixed := FixedFields(rr, |d.octets|);
    assert c == Chunk(d.table, o.octets + fixed + d.octets);
    PartsInPlace(out, o.octets, fixed, d.octets, data);
    NameComesBack(t, out, rr.name, data);
    SoundExtends(o.table, out + o.octets, out + o.octets + fixed);
    RdataBack(cap, o.table, out + o.octets + fixed, rr.rdata, data);
    RecordAssembled(data, |out|, rr, p, d.octets);
  }

  lemma RecordAssembled(data: bytes, pos: nat, rr: Record, p: nat, octets: bytes)
    requires Returns(data, pos, rr.name, p) && rr.ttl < TWO_31 && |octets| < TWO_16
    requires p + 10 + |octets| <= |data| && data[p..p + 10] == FixedFields(rr, |octets|)
    requires data[p + 10..p + 10 + |octets|] == octets
    requires FromWire(rr.rdata.rtype, octets, data).Ok?
    requires SameRdata(rr.rdata, FromWire(rr.rdata.rtype, octets, data).value)
    ensures RecordBackAt(data, pos, rr, p + 10 + |octets|)
  {
    hide DecodeName, FromWire, SameRdata, FixedFields, ReadParts;
    PartsRead(data, pos, rr, |octets|);
    FoldSymmetric(DecodeName(data, pos, data).value.wire, rr.name);
  }

  lemma FoldSymmetric(a: bytes, b: bytes)
    requires SameName(a, b)
    ensures SameName(b, a)
  {
  }

  // ---- Sections

  lemma QueryBack(cap: nat, t: Table, out: bytes, q: Query, data: bytes)
    requires Sound(t, out) && Targets(t) && GoodQuery(q)
    requires EmitQuery(cap, t, |out|, q).Ok?
    requires out + EmitQuery(cap, t, |out|, q).value.octets <= data
    ensures var c := EmitQuery(cap, t, |out|, q).value;
            && Sound(c.table, out + c.octets)
            && ParseQuery(data, |out|).Ok? && SameQuery(q, ParseQuery(data, |out|).value.item)
            && ParseQuery(data, |out|).value.next == |out| + |c.octets|
  {
    hide Sound, Targets, WriteName, Returns, U16, ReadU16, DecodeName, ClassFrom, ClassTo;
    var o := WriteName(t, q.qname, |out|);
    var a, b := U16(q.qtype), U16(ClassTo(q.qclass));
    PartsInPlace(out, o.octets, a, b, data);
    Assoc(o.octets, a, b);
    NameComesBack(t, out, q.qname, data);
    SoundExtends(o.table, out + o.octets, out + o.octets + a + b);
    var p := |out| + |o.octets|;
    ReadU16Back(data, p, q.qtype);
    ReadU16Back(data, p + 2, ClassTo(q.qclass));
    QueryAssembled(data, |out|, q, p);
  }

  lemma QueryAssembled(data: bytes, pos: nat, q: Query, p: nat)
    requires Returns(data, pos, q.qname, p) && p + 4 <= |data| && GoodQuery(q)
    requires ReadU16(data, p) == q.qtype && ReadU16(data, p + 2) == ClassTo(q.qclass)
    ensures ParseQuery(data, pos).Ok? && SameQuery(q, ParseQuery(data, pos).value.item)
    ensures ParseQuery(data, pos).value.next == p + 4
  {
    hide DecodeName, ReadU16, ClassFrom, ClassTo;
    FoldSymmetric(DecodeName(data, pos, data).value.wire, q.qname);
  }

  lemma {:induction false} QueriesBack(cap: nat, t: Table, out: bytes, qs: seq<Query>, data: bytes)
    requires Sound(t, out) && Targets(t) && GoodQueries(qs)
    requires EmitQueries(cap, t, |out|, qs).Ok?
    requires out + EmitQueries(cap, t, |out|, qs).value.octets <= data
    ensures var c := EmitQueries(cap, t, |out|, qs).value;
            && Sound(c.table, out + c.octets)
            && ParseQueries(data, |out|, |qs|).Ok? && SameQueries(qs, ParseQueries(data, |out|, |qs|).value.item)
            && ParseQueries(data, |out|, |qs|).value.next == |out| + |c.octets|
    decreases |qs|
  {
    hide Sound, Targets, EmitQuery, SameQuery, ParseQuery, IsName;
    if qs == [] {
      assert out + [] == out;
    } else {
      assert GoodQuery(qs[0]);
      var c := EmitQuery(cap, t, |out|, qs[0]).value;
      var rest := EmitQueries(cap, c.table, |out| + |c.octets|, qs[1..]).value;
      Assoc(out, c.octets, rest.octets);
      PrefixOfSum(out + c.octets, rest.octets, data);
      QueryBack(cap, t, out, qs[0], data);
      QueriesBack(cap, c.table, out + c.octets, qs[1..], data);
    }
  }

  lemma PrefixOfSum(a: bytes, b: bytes, data: bytes)
    requires a + b <= data
    ensures a <= data
  {
    assert data[..|a|] == (a + b)[..|a|] == a;
  }

  lemma {:induction false} RecordsBack(cap: nat, t: Table, out: bytes, rrs: seq<Record>, data: bytes)
    requires Sound(t, out) && Targets(t) && GoodRecords(rrs)
    requires EmitRecords(cap, t, |out|, rrs).Ok?
    requires out + EmitRecords(cap, t, |out|, rrs).value.octets <= data
    ensures var c := EmitRecords(cap, t, |out|, rrs).value;
            && Sound(c.table, out + c.octets)
            && ParseRecords(data, |out|, |rrs|).Ok? && SameRecords(rrs, ParseRecords(data, |out|, |rrs|).value.item)
            && ParseRecords(data, |out|, |rrs|).value.next == |out| + |c.octets|
    decreases |rrs|
  {
    hide Sound, Targets, EmitRecord, SameRecord, ReadParts, FromParts, GoodRdata, IsName;
    if rrs == [] {
      assert out + [] == out;
    } else {
      assert GoodRecord(rrs[0]);
      var c := EmitRecord(cap, t, |out|, rrs[0]).value;
      var rest := EmitRecords(cap, c.table, |out| + |c.octets|, rrs[1..]).value;
      Assoc(out, c.octets, rest.octets);
      PrefixOfSum(out + c.octets, rest.octets, data);
      RecordBack(cap, t, out, rrs[0], data);
      RecordsBack(cap, c.table, out + c.octets, rrs[1..], data);
    }
  }

  // ---- The additional section

  lemma OptBitsRead(edns: Edns, rcode: nat)
    requires rcode < 0x1000
    ensures var bits := OptBits(edns, rcode);
            && bits / 0x100_0000 == rcode / 16
            && bits / TWO_16 % 256 == edns.version
            && (bits / 0x8000 % 2 == 1 <==> edns.doBit)
  {
    var high, low := rcode / 16, if edns.doBit then 0x8000 else 0;
    var bits := OptBits(edns, rcode);
    assert bits == high * 0x100_0000 + edns.version as int * 0x1_0000 + low;
    assert bits / 0x1_0000 == high * 256 + edns.version;
    assert bits / 0x8000 == high * 512 + edns.version as int * 2 + low / 0x8000;
  }

  /** The OPT dressed as the record its fields spell. */
  function OptRecord(edns: Edns, rcode: nat): Record
    requires rcode < 0x1000
  {
    Record([0], edns.payloadSize, OptBits(edns, rcode), RecordData(OPT, edns.rdata))
  }

  lemma OptAsRecord(edns: Edns, rcode: nat)
    requires rcode < 0x1000 && |edns.rdata| < TWO_16
    ensures OptOctets(edns, rcode) == [0] + FixedFields(OptRecord(edns, rcode), |edns.rdata|) + edns.rdata
  {
    hide U16, U32, OptBits;
  }

  /** The OPT reads back as the OPT that was written, with its flags word. */
  lemma OptBack(out: bytes, edns: Edns, rcode: nat, data: bytes)
    requires rcode < 0x1000 && |edns.rdata| < TWO_16
    requires out + OptOctets(edns, rcode) <= data
    ensures ParseAdditional(data, |out|)
            == Ok(At(Opt(edns, OptBits(edns, rcode)), |out| + 11 + |edns.rdata|))
  {
    hide FixedFields, OptOctets, OptBits, ReadParts;
    var rr := OptRecord(edns, rcode);
    var fixed := FixedFields(rr, |edns.rdata|);
    OptAsRecord(edns, rcode);
    PartsInPlace(out, [0], fixed, edns.rdata, data);
    RootAt(data, |out|, out);
    PartsRead(data, |out|, rr, |edns.rdata|);
    OptBitsRead(edns, rcode);
  }

  lemma RootAt(data: bytes, pos: nat, out: bytes)
    requires out + [0] <= data && pos == |out|
    ensures DecodeName(data, pos, data) == Ok(Decoded([0], pos + 1))
  {
    assert data[pos] == (out + [0])[pos] == 0;
    assert ReadSegment(data, pos) == Ok(Segment(pos, ToRoot));
    assert data[pos..pos + 1] == [0];
  }

  lemma LastIsOpt(out: bytes, edns: Edns, rcode: nat, data: bytes)
    requires rcode < 0x1000 && |edns.rdata| < TWO_16
    requires out + OptOctets(edns, rcode) <= data && |data| == |out| + 11 + |edns.rdata|
    ensures ParseAdditionals(data, |out|, 1, false)
            == Ok(At(Extras([], Some((edns, OptBits(edns, rcode)))), |data|))
  {
    hide OptBits, OptOctets, ParseAdditional, ParseAdditionals;
    OptBack(out, edns, rcode, data);
    LastOf(data, |out|, (edns, OptBits(edns, rcode)), false);
  }

  lemma LastOf(data: bytes, pos: nat, e: (Edns, u32), seen: bool)
    requires pos <= |data| && ParseAdditional(data, pos) == Ok(At(Opt(e.0, e.1), |data|))
    ensures ParseAdditionals(data, pos, 1, seen)
            == if seen then Err(Malformed) else Ok(At(Extras([], Some(e)), |data|))
  {
    hide ParseAdditional;
    assert ParseAdditionals(data, |data|, 0, true) == Ok(At(Extras([], None), |data|));
  }

  /** What the additional section of a message is parsed from. */
  ghost predicate ExtrasBack(rrs: seq<Record>, opt: Option<(Edns, u32)>, x: Extras) {
    SameRecords(rrs, x.records) && x.opt == opt
  }

  /** What follows the additional records, and what it parses to. */
  ghost predicate Closing(edns: Option<Edns>, rcode: nat, tail: bytes, opt: Option<(Edns, u32)>) {
    match edns
    case None => tail == [] && opt == None
    case Some(e) => && rcode < 0x1000 && |e.rdata| < TWO_16
                    && tail == OptOctets(e, rcode) && opt == Some((e, OptBits(e, rcode)))
  }

  lemma ClosingBack(out: bytes, edns: Option<Edns>, rcode: nat, tail: bytes, opt: Option<(Edns, u32)>, data: bytes)
    requires Closing(edns, rcode, tail, opt) && data == out + tail
    ensures ParseAdditionals(data, |out|, if edns.Some? then 1 else 0, false) == Ok(At(Extras([], opt), |data|))
  {
    hide OptBits, OptOctets;
    if edns.Some? {
      PrefixOfSum(out, tail, data);
      LastIsOpt(out, edns.value, rcode, data);
    }
  }

  lemma {:induction false} AdditionalsBack(cap: nat, t: Table, out: bytes, rrs: seq<Record>, edns: Option<Edns>,
                                           rcode: nat, tail: bytes, opt: Option<(Edns, u32)>, data: bytes)
    requires Sound(t, out) && Targets(t) && GoodRecords(rrs) && Closing(edns, rcode, tail, opt)
    requires forall i :: 0 <= i < |rrs| ==> rrs[i].rdata.rtype != OPT
    requires EmitRecords(cap, t, |out|, rrs).Ok?
    requires out + EmitRecords(cap, t, |out|, rrs).value.octets + tail == data
    ensures var x := ParseAdditionals(data, |out|, |rrs| + if edns.Some? then 1 else 0, false);
            x.Ok? && x.value.next == |data| && ExtrasBack(rrs, opt, x.value.item)
    decreases |rrs|
  {
    hide Sound, Targets, EmitRecord, SameRecord, ReadParts, FromParts, GoodRdata, IsName, Closing;
    if rrs == [] {
      assert out + [] + tail == out + tail;
      ClosingBack(out, edns, rcode, tail, opt, data);
    } else {
      assert GoodRecord(rrs[0]);
      var c := EmitRecord(cap, t, |out|, rrs[0]).value;
      var rest := EmitRecords(cap, c.table, |out| + |c.octets|, rrs[1..]).value;
      assert out + (c.octets + rest.octets) + tail == out + c.octets + rest.octets + tail;
      PrefixOfSum(out + c.octets, rest.octets + tail, data);
      RecordBack(cap, t, out, rrs[0], data);
      AdditionalsBack(cap, c.table, out + c.octets, rrs[1..], edns, rcode, tail, opt, data);
    }
  }

  // ---- The header

  lemma FlagsBack(f: Flags, rcode: nat)
    requires OpFrom(OpTo(f.opcode)) == f.opcode
    ensures var o := FlagOctets(f, rcode); FlagsFrom(o[0], o[1]) == f && o[1] % 16 == rcode % 16
  {
    hide OpFrom, OpTo, Bit;
    OpCodeMod(f.opcode);
    var op, o := OpTo(f.opcode), FlagOctets(f, rcode);
    HighFlags(f, op);
    LowFlags(f, rcode % 16);
    BitHalf(f.response);
  }

  lemma BitHalf(b: bool)
    ensures Bit(b, 16) == 0 || Bit(b, 16) == 16
  {
  }

  lemma HighFlags(f: Flags, op: nat)
    requires op < 16
    ensures var hi := Bit(f.response, 128) + op * 8 + Bit(f.authoritative, 4) + Bit(f.truncation, 2) + Bit(f.recursion, 1);
            && hi < 256 && (hi / 128 % 2 == 1 <==> f.response) && (hi / 4 % 2 == 1 <==> f.authoritative)
            && (hi / 2 % 2 == 1 <==> f.truncation) && (hi % 2 == 1 <==> f.recursion)
            && hi / 8 == Bit(f.response, 16) + op
  {
  }

  lemma LowFlags(f: Flags, low: nat)
    requires low < 16
    ensures var lo := Bit(f.recursionOk, 128) + Bit(f.ad, 32) + Bit(f.cd, 16) + low;
            && lo < 256 && (lo / 128 % 2 == 1 <==> f.recursionOk) && (lo / 32 % 2 == 1 <==> f.ad)
            && (lo / 16 % 2 == 1 <==> f.cd) && lo % 16 == low
  {
  }

  lemma OpCodeMod(op: OpCode)
    requires OpFrom(OpTo(op)) == op
    ensures OpTo(op) < 16
    ensures OpFrom(16 + OpTo(op)) == op
  {
  }

  lemma HeaderReads(id: u16, f: Flags, rcode: nat, qd: u16, an: u16, ns: u16, ar: u16, body: bytes)
    ensures var x := HeaderOctets(id, f, rcode, qd, an, ns, ar) + body;
            && ReadU16(x, 0) == id && x[2] == FlagOctets(f, rcode)[0] && x[3] == FlagOctets(f, rcode)[1]
            && ReadU16(x, 4) == qd && ReadU16(x, 6) == an && ReadU16(x, 8) == ns && ReadU16(x, 10) == ar
  {
    hide U16, ReadU16, FlagOctets;
    var x := HeaderOctets(id, f, rcode, qd, an, ns, ar) + body;
    assert x[0..2] == U16(id) && x[2] == FlagOctets(f, rcode)[0] && x[3] == FlagOctets(f, rcode)[1];
    assert x[4..6] == U16(qd) && x[6..8] == U16(an) && x[8..10] == U16(ns) && x[10..12] == U16(ar);
    ReadU16Back(x, 0, id);
    ReadU16Back(x, 4, qd);
    ReadU16Back(x, 6, an);
    ReadU16Back(x, 8, ns);
    ReadU16Back(x, 10, ar);
  }

  lemma RcodeBack(rcode: nat, lo: byte, edns: Option<Edns>, opt: Option<(Edns, u32)>, tail: bytes)
    requires rcode < 0x1000 && lo % 16 == rcode % 16 && (edns.None? ==> rcode < 16)
    requires Closing(edns, rcode, tail, opt)
    ensures FullRcode(lo, opt) == rcode
  {
    if edns.Some? {
      OptBitsRead(edns.value, rcode);
      hide OptBits, OptOctets;
    }
  }

  /** The sections of a serialized message, as `EmitBody` laid them out. */
  datatype Layout = Layout(q: Chunk, an: Chunk, ns: Chunk, ar: Chunk, tail: bytes)

  /** `l` is how the body of `m` came out. */
  ghost predicate LaidOut(cap: nat, m: DnsMessage, rcode: nat, l: Layout)
    requires NamesOk(m) && rcode < 0x1000
  {
    var p := HEADER_LEN + |l.q.octets|;
    && EmitQueries(cap, EMPTY_TABLE, HEADER_LEN, m.queries) == Ok(l.q)
    && EmitRecords(cap, l.q.table, p, m.answers) == Ok(l.an)
    && EmitRecords(cap, l.an.table, p + |l.an.octets|, m.authorities) == Ok(l.ns)
    && EmitRecords(cap, l.ns.table, p + |l.an.octets| + |l.ns.octets|, m.additionals) == Ok(l.ar)
    && (m.edns.Some? ==> |m.edns.value.rdata| < TWO_16)
    && l.tail == if m.edns.Some? then OptOctets(m.edns.value, rcode) else []
  }

  lemma BodyLaidOut(cap: nat, m: DnsMessage, rcode: nat) returns (l: Layout)
    requires NamesOk(m) && rcode < 0x1000 && EmitBody(cap, m, rcode).Ok?
    ensures LaidOut(cap, m, rcode, l)
    ensures EmitBody(cap, m, rcode).value == l.q.octets + l.an.octets + l.ns.octets + l.ar.octets + l.tail
  {
    hide EmitQueries, EmitRecords, OptOctets, IsName;
    var q := EmitQueries(cap, EMPTY_TABLE, HEADER_LEN, m.queries).value;
    var p := HEADER_LEN + |q.octets|;
    var an := EmitRecords(cap, q.table, p, m.answers).value;
    var ns := EmitRecords(cap, an.table, p + |an.octets|, m.authorities).value;
    var ar := EmitRecords(cap, ns.table, p + |an.octets| + |ns.octets|, m.additionals).value;
    var tail := if m.edns.Some? then OptOctets(m.edns.value, rcode) else [];
    l := Layout(q, an, ns, ar, tail);
    var body := q.octets + an.octets + ns.octets + ar.octets;
    assert body + [] == body;
  }

  /** Whatever `to_bytes` writes for a sendable message, `try_from_bytes` reads
      back: header, twelve-bit RCODE, question, all three sections and the OPT,
      with names equal up to ASCII case. */
  lemma RoundTrip(cap: nat, m: DnsMessage)
    requires NamesOk(m) && Sendable(m) && ToBytes(cap, m).Ok?
    ensures ParseMessage(ToBytes(cap, m).value).Ok?
    ensures SameMessage(m, ParseMessage(ToBytes(cap, m).value).value)
  {
    hide EmitBody, OptOctets, OptBits, CodeTo, CodeFrom, ParseMessage, HeaderOctets;
    var rcode := WireRcode(m.rcode, m.edns.Some?).value;
    var l := BodyLaidOut(cap, m, rcode);
    var opt := if m.edns.Some? then Some((m.edns.value, OptBits(m.edns.value, rcode))) else None;
    var head, data := MessageHeader(m, rcode), ToBytes(cap, m).value;
    SectionsBack(cap, m, rcode, l, opt, head, data);
  }

  /** The octets after the header, section by section. */
  lemma SectionsBack(cap: nat, m: DnsMessage, rcode: nat, l: Layout, opt: Option<(Edns, u32)>, head: bytes, data: bytes)
    requires NamesOk(m) && Sendable(m) && CountsFit(m) && rcode == CodeTo(m.rcode) && rcode < 0x1000
    requires m.edns.None? ==> rcode < 16
    requires LaidOut(cap, m, rcode, l) && Closing(m.edns, rcode, l.tail, opt)
    requires head == MessageHeader(m, rcode)
    requires data == head + (l.q.octets + l.an.octets + l.ns.octets + l.ar.octets + l.tail)
    ensures ParseMessage(data).Ok? && SameMessage(m, ParseMessage(data).value)
  {
    hide EmitQueries, EmitRecords, GoodRecords, GoodQueries, SameRecords, SameQueries, CodeTo,
         ParseQueries, ParseRecords, ParseAdditionals, MessageHeader, Sound, NamesOk, Assemble, Closing;
    var a := head + l.q.octets;
    var b := a + l.an.octets;
    var c := b + l.ns.octets;
    Chain(head, l.q.octets, l.an.octets, l.ns.octets, l.ar.octets, l.tail, data);
    HeaderBack(m, rcode, data);
    EmptySound(head);
    QueriesBack(cap, EMPTY_TABLE, head, m.queries, data);
    RecordsBack(cap, l.q.table, a, m.answers, data);
    RecordsBack(cap, l.an.table, b, m.authorities, data);
    AdditionalsBack(cap, l.ns.table, c, m.additionals, m.edns, rcode, l.tail, opt, data);
    var qs := ParseQueries(data, HEADER_LEN, |m.queries|).value;
    var an := ParseRecords(data, qs.next, |m.answers|).value;
    var ns := ParseRecords(data, an.next, |m.authorities|).value;
    var ar := ParseAdditionals(data, ns.next, ArCount(m), false).value;
    Assembled(m, rcode, data, l.tail, opt, qs.item, an.item, ns.item, ar.item);
  }

  lemma Assembled(m: DnsMessage, rcode: nat, data: bytes, tail: bytes, opt: Option<(Edns, u32)>,
                  q: seq<Query>, an: seq<Record>, ns: seq<Record>, ar: Extras)
    requires Sendable(m) && rcode == CodeTo(m.rcode) && rcode < 0x1000 && (m.edns.None? ==> rcode < 16)
    requires Closing(m.edns, rcode, tail, opt) && |data| >= HEADER_LEN
    requires ReadU16(data, 0) == m.id && FlagsFrom(data[2], data[3]) == m.flags && data[3] % 16 == rcode % 16
    requires SameQueries(m.queries, q) && SameRecords(m.answers, an) && SameRecords(m.authorities, ns)
    requires ExtrasBack(m.additionals, opt, ar)
    ensures SameMessage(m, Assemble(data, q, an, ns, ar))
  {
    hide GoodRecords, GoodQueries, SameRecords, SameQueries, CodeTo, CodeFrom, OpTo, OpFrom, FullRcode, OptOctets, OptBits;
    RcodeBack(rcode, data[3], m.edns, opt, tail);
  }

  lemma HeaderBack(m: DnsMessage, rcode: nat, data: bytes)
    requires CountsFit(m) && OpFrom(OpTo(m.flags.opcode)) == m.flags.opcode && MessageHeader(m, rcode) <= data
    ensures ReadU16(data, 0) == m.id && FlagsFrom(data[2], data[3]) == m.flags && data[3] % 16 == rcode % 16
    ensures ReadU16(data, 4) == |m.queries| && ReadU16(data, 6) == |m.answers|
    ensures ReadU16(data, 8) == |m.authorities| && ReadU16(data, 10) == ArCount(m)
  {
    hide HeaderOctets, FlagOctets, FlagsFrom, ReadU16, OpFrom, OpTo;
    assert data == MessageHeader(m, rcode) + data[HEADER_LEN..];
    HeaderReads(m.id, m.flags, rcode, |m.queries|, |m.answers|, |m.authorities|, ArCount(m), data[HEADER_LEN..]);
    FlagsBack(m.flags, rcode);
  }

  lemma EmptySound(out: bytes)
    ensures Sound(EMPTY_TABLE, out) && Targets(EMPTY_TABLE)
  {
  }

  lemma Chain(a: bytes, b: bytes, c: bytes, d: bytes, e: bytes, f: bytes, data: bytes)
    requires data == a + (b + c + d + e + f)
    ensures data == a + b + c + d + e + f
    ensures a <= data && a + b <= data && a + b + c <= data && a + b + c + d <= data
  {
    assert data == a + b + c + d + e + f;
    Prefixes(a, b, c + d + e + f, a + b + (c + d + e + f));
    Prefixes(a + b + c, d, e + f, a + b + c + d + (e + f));
    assert a + b + (c + d + e + f) == data && a + b + c + d + (e + f) == data;
  }
}
