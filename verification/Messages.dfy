/** The message: what it holds, how it is read, and what each part is written as. */
module Messages {
  import opened Octets
  import opened Names
  import opened DName
  import opened Compression
  import opened Emission
  import opened Records
  import opened Codes

  const HEADER_LEN := 12

  datatype Query = Query(qname: bytes, qtype: u16, qclass: QueryClass)

  datatype Record = Record(name: bytes, class_: u16, ttl: u32, rdata: RecordData)

  /** The OPT pseudo-record (RFC 6891); its extended RCODE is the message's. */
  datatype Edns = Edns(payloadSize: u16, version: byte, doBit: bool, rdata: bytes)

  datatype Flags = Flags(response: bool, opcode: OpCode, authoritative: bool, truncation: bool,
                         recursion: bool, recursionOk: bool, ad: bool, cd: bool)

  datatype DnsMessage = DnsMessage(
    id: u16, flags: Flags, rcode: ResponseCode,
    queries: seq<Query>, answers: seq<Record>, authorities: seq<Record>, additionals: seq<Record>,
    edns: Option<Edns>)

  // ---- Reading

  datatype At<T> = At(item: T, next: nat)

  function ParseQuery(data: bytes, pos: nat): (r: Result<At<Query>>)
    requires pos <= |data|
    ensures r.Ok? ==> pos < r.value.next <= |data|
  {
    var n :- DecodeName(data, pos, data);
    if |data| - n.next < 4 then Err(Truncated)
    else Ok(At(Query(n.wire, ReadU16(data, n.next), ClassFrom(ReadU16(data, n.next + 2))), n.next + 4))
  }

  /** `read_record_parts`: the fields of a record, its owner still undecoded. */
  datatype Parts = Parts(rtype: u16, class_: u16, ttlBits: u32, from: nat, to: nat)

  function ReadParts(data: bytes, pos: nat): (r: Result<Parts>)
    requires pos <= |data|
    ensures r.Ok? ==> pos < r.value.from <= r.value.to <= |data|
  {
    var seg :- ReadSegment(data, pos);
    var p := seg.End();
    if |data| - p < 10 then Err(Truncated)
    else
      var len := ReadU16(data, p + 8);
      if |data| - (p + 10) < len then Err(Truncated)
      else Ok(Parts(ReadU16(data, p), ReadU16(data, p + 2), ReadU32(data, p + 4), p + 10, p + 10 + len))
  }

  function FromParts(data: bytes, pos: nat, p: Parts): (r: Result<Record>)
    requires pos <= |data| && p.from <= p.to <= |data|
  {
    var n :- DecodeName(data, pos, data);
    var d :- FromWire(p.rtype, data[p.from..p.to], data);
    Ok(Record(n.wire, p.class_, TtlFrom(p.ttlBits), d))
  }

  function ParseRecord(data: bytes, pos: nat): (r: Result<At<Record>>)
    requires pos <= |data|
    ensures r.Ok? ==> pos < r.value.next <= |data|
  {
    var p :- ReadParts(data, pos);
    var rr :- FromParts(data, pos, p);
    Ok(At(rr, p.to))
  }

  /** One record of the additional section, or the OPT and its raw flags word. */
  datatype Additional = Plain(record: Record) | Opt(edns: Edns, bits: u32)

  function EdnsFrom(size: u16, bits: u32, rdata: bytes): Edns {
    Edns(size, bits / TWO_16 % 256, bits / 0x8000 % 2 == 1, rdata)
  }

  function ParseAdditional(data: bytes, pos: nat): (r: Result<At<Additional>>)
    requires pos <= |data|
    ensures r.Ok? ==> pos < r.value.next <= |data|
  {
    var p :- ReadParts(data, pos);
    if p.rtype != OPT then
      var rr :- FromParts(data, pos, p);
      Ok(At(Plain(rr), p.to))
    else
      Ok(At(Opt(EdnsFrom(p.class_, p.ttlBits, data[p.from..p.to]), p.ttlBits), p.to))
  }

  function ParseQueries(data: bytes, pos: nat, n: nat): (r: Result<At<seq<Query>>>)
    requires pos <= |data|
    ensures r.Ok? ==> pos <= r.value.next <= |data|
    decreases n
  {
    if n == 0 then Ok(At([], pos))
    else
      var q :- ParseQuery(data, pos);
      var rest :- ParseQueries(data, q.next, n - 1);
      Ok(At([q.item] + rest.item, rest.next))
  }

  function ParseRecords(data: bytes, pos: nat, n: nat): (r: Result<At<seq<Record>>>)
    requires pos <= |data|
    ensures r.Ok? ==> pos <= r.value.next <= |data|
    decreases n
  {
    if n == 0 then Ok(At([], pos))
    else
      var rr :- ParseRecord(data, pos);
      var rest :- ParseRecords(data, rr.next, n - 1);
      Ok(At([rr.item] + rest.item, rest.next))
  }

  /** The additional section: its records, and its OPT with its flags word. */
  datatype Extras = Extras(records: seq<Record>, opt: Option<(Edns, u32)>)

  /** More than one OPT is malformed (RFC 6891 section 6.1.1). */
  function ParseAdditionals(data: bytes, pos: nat, n: nat, seen: bool): (r: Result<At<Extras>>)
    requires pos <= |data|
    ensures r.Ok? ==> pos <= r.value.next <= |data|
    decreases n
  {
    if n == 0 then Ok(At(Extras([], None), pos))
    else
      var x :- ParseAdditional(data, pos);
      match x.item
      case Plain(rr) =>
        var rest :- ParseAdditionals(data, x.next, n - 1, seen);
        Ok(At(rest.item.(records := [rr] + rest.item.records), rest.next))
      case Opt(edns, bits) =>
        if seen then Err(Malformed)
        else
          var rest :- ParseAdditionals(data, x.next, n - 1, true);
          Ok(At(rest.item.(opt := Some((edns, bits))), rest.next))
  }

  function FlagsFrom(hi: byte, lo: byte): Flags {
    Flags(hi / 128 % 2 == 1, OpFrom(hi / 8), hi / 4 % 2 == 1, hi / 2 % 2 == 1, hi % 2 == 1,
          lo / 128 % 2 == 1, lo / 32 % 2 == 1, lo / 16 % 2 == 1)
  }

  /** RCODE is twelve bits: four in the header, eight in the OPT's flags word. */
  function FullRcode(lo: byte, opt: Option<(Edns, u32)>): u16 {
    (if opt.Some? then opt.value.1 / 0x100_0000 * 16 else 0) + lo % 16
  }

  function Assemble(data: bytes, q: seq<Query>, an: seq<Record>, ns: seq<Record>, ar: Extras): DnsMessage
    requires |data| >= HEADER_LEN
  {
    DnsMessage(ReadU16(data, 0), FlagsFrom(data[2], data[3]), CodeFrom(FullRcode(data[3], ar.opt)),
               q, an, ns, ar.records, if ar.opt.Some? then Some(ar.opt.value.0) else None)
  }

  /** `DnsMessage::try_from_bytes`. */
  function ParseMessage(data: bytes): (r: Result<DnsMessage>) {
    if |data| < HEADER_LEN then Err(Truncated)
    else
      var q :- ParseQueries(data, HEADER_LEN, ReadU16(data, 4));
      var an :- ParseRecords(data, q.next, ReadU16(data, 6));
      var ns :- ParseRecords(data, an.next, ReadU16(data, 8));
      var ar :- ParseAdditionals(data, ns.next, ReadU16(data, 10), false);
      Ok(Assemble(data, q.item, an.item, ns.item, ar.item))
  }

  // ---- Writing

  function EmitQuery(cap: nat, t: Table, pos: nat, q: Query): (r: Result<Chunk>)
    requires Targets(t) && IsName(q.qname)
    ensures r.Ok? ==> Targets(r.value.table) && pos + |r.value.octets| <= cap
  {
    var c :- EmitName(cap, t, pos, q.qname);
    EmitAfter(cap, c, pos, U16(q.qtype) + U16(ClassTo(q.qclass)))
  }

  /** TYPE, CLASS, TTL and RDLENGTH. */
  function FixedFields(rr: Record, rdlen: nat): (r: bytes)
    requires rdlen < TWO_16
    ensures |r| == 10
  {
    U16(rr.rdata.rtype) + U16(rr.class_) + U32(rr.ttl) + U16(rdlen)
  }

  /** `write_rr`: the RDLENGTH hole is filled once the RDATA's length is known. */
  function EmitRecord(cap: nat, t: Table, pos: nat, rr: Record): (r: Result<Chunk>)
    requires Targets(t) && IsName(rr.name)
    ensures r.Ok? ==> Targets(r.value.table) && pos + |r.value.octets| <= cap
    ensures r.Ok? ==> |r.value.octets| >= 10
  {
    var o :- EmitName(cap, t, pos, rr.name);
    var p := pos + |o.octets| + 10;
    if p > cap then Err(OutputFull)
    else
      var d :- EmitRdata(cap, o.table, p, rr.rdata.rtype, rr.rdata.octets);
      if |d.octets| >= TWO_16 then Err(TooLong)
      else Ok(Chunk(d.table, o.octets + FixedFields(rr, |d.octets|) + d.octets))
  }

  /** The table `write_rr` leaves, whether or not the record fitted and encoded. */
  function TableAfterRecord(cap: nat, t: Table, pos: nat, rr: Record): (r: Table)
    requires Targets(t) && IsName(rr.name)
    ensures Targets(r)
  {
    var u, p := TableAfterName(t, pos, rr.name), pos + |WriteName(t, rr.name, pos).octets| + 10;
    if p > cap then u else TableAfterRdata(cap, u, p, rr.rdata.rtype, rr.rdata.octets)
  }

  lemma RecordTable(cap: nat, t: Table, pos: nat, rr: Record)
    requires Targets(t) && IsName(rr.name) && EmitRecord(cap, t, pos, rr).Ok?
    ensures TableAfterRecord(cap, t, pos, rr) == EmitRecord(cap, t, pos, rr).value.table
  {
    hide Targets, WriteName, EmitRdata, TableAfterRdata, FixedFields, IsName;
    var u, p := TableAfterName(t, pos, rr.name), pos + |WriteName(t, rr.name, pos).octets| + 10;
    RdataTable(cap, u, p, rr.rdata.rtype, rr.rdata.octets);
  }

  function EmitQueries(cap: nat, t: Table, pos: nat, qs: seq<Query>): (r: Result<Chunk>)
    requires Targets(t) && forall i :: 0 <= i < |qs| ==> IsName(qs[i].qname)
    ensures r.Ok? ==> Targets(r.value.table)
    decreases |qs|
  {
    if qs == [] then Ok(Chunk(t, []))
    else
      var c :- EmitQuery(cap, t, pos, qs[0]);
      var rest :- EmitQueries(cap, c.table, pos + |c.octets|, qs[1..]);
      Ok(Chunk(rest.table, c.octets + rest.octets))
  }

  function EmitRecords(cap: nat, t: Table, pos: nat, rrs: seq<Record>): (r: Result<Chunk>)
    requires Targets(t) && forall i :: 0 <= i < |rrs| ==> IsName(rrs[i].name)
    ensures r.Ok? ==> Targets(r.value.table)
    decreases |rrs|
  {
    if rrs == [] then Ok(Chunk(t, []))
    else
      var c :- EmitRecord(cap, t, pos, rrs[0]);
      var rest :- EmitRecords(cap, c.table, pos + |c.octets|, rrs[1..]);
      Ok(Chunk(rest.table, c.octets + rest.octets))
  }

  /** The OPT's flags word: extended RCODE, version, DO (RFC 6891 section 6.1.3). */
  function OptBits(edns: Edns, rcode: nat): (n: nat)
    requires rcode < 0x1000
    ensures n < TWO_32
  {
    rcode / 16 * 0x100_0000 + edns.version as int * TWO_16 + if edns.doBit then 0x8000 else 0
  }

  function OptOctets(edns: Edns, rcode: nat): (r: bytes)
    requires rcode < 0x1000 && |edns.rdata| < TWO_16
    ensures |r| == 11 + |edns.rdata|
  {
    [0] + U16(OPT) + U16(edns.payloadSize) + U32(OptBits(edns, rcode)) + U16(|edns.rdata|) + edns.rdata
  }

  /** `write_opt`. */
  function EmitOpt(cap: nat, pos: nat, edns: Edns, rcode: nat): (r: Result<bytes>)
    requires rcode < 0x1000
    ensures r.Ok? ==> pos + |r.value| <= cap
  {
    if pos + 9 > cap then Err(OutputFull)
    else if |edns.rdata| >= TWO_16 then Err(TooLong)
    else if pos + 11 + |edns.rdata| > cap then Err(OutputFull)
    else Ok(OptOctets(edns, rcode))
  }

  /** `wire_rcode`: twelve bits, the upper eight only with an OPT to carry them. */
  function WireRcode(rcode: ResponseCode, hasEdns: bool): (r: Result<nat>)
    ensures r.Ok? <==> CodeTo(rcode) < if hasEdns then 0x1000 else 16
    ensures r.Ok? ==> r.value == CodeTo(rcode)
    ensures r.Err? ==> r.error == Malformed
  {
    var n := CodeTo(rcode);
    if n > 0xfff then Err(Malformed)
    else if n > 0xf && !hasEdns then Err(Malformed)
    else Ok(n)
  }

  function Bit(b: bool, weight: nat): nat {
    if b then weight else 0
  }

  function FlagOctets(f: Flags, rcode: nat): (r: bytes)
    ensures |r| == 2
  {
    [Bit(f.response, 128) + OpTo(f.opcode) % 16 * 8 + Bit(f.authoritative, 4) + Bit(f.truncation, 2) + Bit(f.recursion, 1),
     Bit(f.recursionOk, 128) + Bit(f.ad, 32) + Bit(f.cd, 16) + rcode % 16]
  }

  /** `write_header`. */
  function HeaderOctets(id: u16, f: Flags, rcode: nat, qd: u16, an: u16, ns: u16, ar: u16): (r: bytes)
    ensures |r| == HEADER_LEN
  {
    U16(id) + FlagOctets(f, rcode) + U16(qd) + U16(an) + U16(ns) + U16(ar)
  }

  predicate NamesOk(m: DnsMessage) {
    && (forall i :: 0 <= i < |m.queries| ==> IsName(m.queries[i].qname))
    && (forall i :: 0 <= i < |m.answers| ==> IsName(m.answers[i].name))
    && (forall i :: 0 <= i < |m.authorities| ==> IsName(m.authorities[i].name))
    && (forall i :: 0 <= i < |m.additionals| ==> IsName(m.additionals[i].name))
  }

  function ArCount(m: DnsMessage): nat {
    |m.additionals| + if m.edns.Some? then 1 else 0
  }

  /** Section counts are 16 bits, checked rather than cast. */
  predicate CountsFit(m: DnsMessage) {
    |m.queries| < TWO_16 && |m.answers| < TWO_16 && |m.authorities| < TWO_16 && ArCount(m) < TWO_16
  }

  function MessageHeader(m: DnsMessage, rcode: nat): (r: bytes)
    requires CountsFit(m)
    ensures |r| == HEADER_LEN
  {
    HeaderOctets(m.id, m.flags, rcode, |m.queries|, |m.answers|, |m.authorities|, ArCount(m))
  }

  /** Everything after the header. */
  function EmitBody(cap: nat, m: DnsMessage, rcode: nat): (r: Result<bytes>)
    requires NamesOk(m) && rcode < 0x1000
  {
    var q :- EmitQueries(cap, EMPTY_TABLE, HEADER_LEN, m.queries);
    var p := HEADER_LEN + |q.octets|;
    var an :- EmitRecords(cap, q.table, p, m.answers);
    var ns :- EmitRecords(cap, an.table, p + |an.octets|, m.authorities);
    var ar :- EmitRecords(cap, ns.table, p + |an.octets| + |ns.octets|, m.additionals);
    var body := q.octets + an.octets + ns.octets + ar.octets;
    if m.edns.None? then Ok(body)
    else
      var opt :- EmitOpt(cap, HEADER_LEN + |body|, m.edns.value, rcode);
      Ok(body + opt)
  }

  /** `to_bytes_with` into a buffer of `cap` octets. */
  function ToBytes(cap: nat, m: DnsMessage): (r: Result<bytes>)
    requires NamesOk(m)
  {
    var rcode :- WireRcode(m.rcode, m.edns.Some?);
    if !CountsFit(m) then Err(TooLong)
    else if HEADER_LEN > cap then Err(OutputFull)
    else
      var body :- EmitBody(cap, m, rcode);
      Ok(MessageHeader(m, rcode) + body)
  }
}
