/** The serializer as it runs: fields written into the caller's buffer one after
    another, each proved against what the emission functions say comes out. */
module Serializer {
  import opened Octets
  import opened Names
  import opened DName
  import opened Compression
  import opened Emission
  import opened NameCompressors
  import opened Codes
  import opened Messages

  // ---- Runs of fixed fields

  function Concat(fields: seq<bytes>): bytes {
    if fields == [] then [] else fields[0] + Concat(fields[1..])
  }

  lemma LandedNothing(a: bytes, pos: nat, fields: seq<bytes>)
    requires pos <= |a|
    ensures Concat(fields[..0]) == [] && Landed(a, a, pos, [], Ok(pos))
  {
    assert a[..pos] + [] + a[pos..] == a;
  }

  lemma {:induction false} ConcatSplit(fields: seq<bytes>, i: nat)
    requires i < |fields|
    ensures Concat(fields[..i + 1]) == Concat(fields[..i]) + fields[i]
    decreases i
  {
    if i == 0 {
      assert fields[..1][1..] == [];
    } else {
      var rest := fields[1..];
      assert fields[..i + 1][1..] == rest[..i] && fields[..i][1..] == rest[..i - 1];
      ConcatSplit(rest, i - 1);
      Assoc(fields[0], Concat(rest[..i - 1]), rest[i - 1]);
    }
  }

  lemma {:induction false} ConcatTail(fields: seq<bytes>, i: nat)
    requires i <= |fields|
    ensures Concat(fields) == Concat(fields[..i]) + Concat(fields[i..])
    decreases |fields| - i
  {
    if i == |fields| {
      assert fields[..i] == fields;
    } else {
      ConcatTail(fields, i + 1);
      ConcatSplit(fields, i);
      Assoc(Concat(fields[..i]), fields[i], Concat(fields[i + 1..]));
      assert fields[i..][1..] == fields[i + 1..];
    }
  }

  /** One `write_bytes` a field, the first that does not fit ending it. */
  method WriteFields(buf: array<byte>, pos: nat, fields: seq<bytes>) returns (r: Result<nat>)
    requires pos <= buf.Length
    modifies buf
    ensures Landed(old(buf[..]), buf[..], pos, Concat(fields), r)
  {
    hide Landed, Concat;
    ghost var a := buf[..];
    r := Ok(pos);
    LandedNothing(a, pos, fields);
    var i := 0;
    while i < |fields|
      invariant i <= |fields| && r == Ok(pos + |Concat(fields[..i])|)
      invariant Landed(a, buf[..], pos, Concat(fields[..i]), r)
    {
      ghost var b := buf[..];
      ghost var done := Concat(fields[..i]);
      ConcatSplit(fields, i);
      r := WriteBytes(buf, r.value, fields[i]);
      LandedTwice(a, b, buf[..], pos, done, fields[i], r);
      LandedOutcome(a, buf[..], pos, done + fields[i], r);
      i := i + 1;
      if r.Err? {
        ConcatTail(fields, i);
        LandedNever(a, buf[..], pos, Concat(fields[..i]), Concat(fields[i..]));
        return;
      }
    }
    assert fields[..i] == fields;
  }

  // ---- The parts of a message

  method WriteQuery(nc: NameCompressor, buf: array<byte>, pos: nat, q: Query) returns (r: Result<nat>)
    requires nc.Valid() && IsName(q.qname)
    modifies nc, buf
    ensures nc.Valid()
    ensures Emitted(old(EmitQuery(buf.Length, nc.Contents(), pos, q)), r, old(buf[..]), buf[..], pos,
                    old(nc.Contents()), nc.Contents())
  {
    hide Compression.WriteName, Coherent, Targets, Landed, IsName, Concat;
    ghost var t, a := nc.Contents(), buf[..];
    ghost var c := Compression.WriteName(t, q.qname, pos);
    WriteNameExtends(t, q.qname, pos);
    r := nc.WriteName(q.qname, buf, pos);
    LandedOutcome(a, buf[..], pos, c.octets, r);
    if r.Err? { return; }
    ghost var b := buf[..];
    ghost var fixed := U16(q.qtype) + U16(ClassTo(q.qclass));
    TwoFields(U16(q.qtype), U16(ClassTo(q.qclass)));
    r := WriteFields(buf, r.value, [U16(q.qtype), U16(ClassTo(q.qclass))]);
    LandedTwice(a, b, buf[..], pos, c.octets, fixed, r);
    LandedOutcome(a, buf[..], pos, c.octets + fixed, r);
  }

  lemma TwoFields(a: bytes, b: bytes)
    ensures Concat([a, b]) == a + b
  {
    assert Concat([b]) == b + [];
    assert [a, b][1..] == [b];
  }

  /** What RDATA adds to the table lies at or past where it was written. */
  lemma RdataExtends(cap: nat, t: Table, pos: nat, rtype: nat, rdata: bytes)
    requires Targets(t) && EmitRdata(cap, t, pos, rtype, rdata).Ok?
    ensures Extends(t, EmitRdata(cap, t, pos, rtype, rdata).value.table, pos)
  {
    hide WriteName, Targets, DecodePlain;
    var skip := if rtype == MX then 2 else 0;
    if rtype == NS || rtype == CNAME || rtype == PTR || rtype == MX {
      WriteNameExtends(t, DecodePlain(rdata, skip).value.wire, pos + skip);
    } else if rtype == SOA {
      var m := DecodePlain(rdata, 0).value;
      var c := EmitName(cap, t, pos, m.wire).value;
      var n := DecodePlain(rdata, m.next).value;
      WriteNameExtends(t, m.wire, pos);
      WriteNameExtends(c.table, n.wire, pos + |c.octets|);
      ExtendsTwice(t, c.table, EmitName(cap, c.table, pos + |c.octets|, n.wire).value.table, pos, pos + |c.octets|);
    }
  }

  lemma RecordExtends(cap: nat, t: Table, pos: nat, rr: Record)
    requires Targets(t) && IsName(rr.name) && EmitRecord(cap, t, pos, rr).Ok?
    ensures Extends(t, EmitRecord(cap, t, pos, rr).value.table, pos)
  {
    hide WriteName, Targets, IsName, EmitRdata, FixedFields, Extends;
    var o := EmitName(cap, t, pos, rr.name).value;
    var p := pos + |o.octets| + 10;
    WriteNameExtends(t, rr.name, pos);
    RdataExtends(cap, o.table, p, rr.rdata.rtype, rr.rdata.octets);
    ExtendsTwice(t, o.table, EmitRecord(cap, t, pos, rr).value.table, pos, p);
  }

  /** Filling a hole left in what was written. */
  lemma LandedPatch(a: bytes, b: bytes, c: bytes, pos: nat, x: bytes, hole: bytes, y: bytes, z: bytes, r: Result<nat>)
    requires |z| == |hole| && Landed(a, b, pos, x + hole + y, Ok(pos + |x + hole + y|))
    requires Landed(b, c, pos + |x|, z, r)
    ensures Landed(a, c, pos, x + z + y, Ok(pos + |x + z + y|))
  {
    var at, end := pos + |x|, pos + |x + hole + y|;
    PatchParts(b, a[..pos], x, hole, y, a[end..]);
    Regroup(a[..pos], x, z, y, a[end..]);
  }

  lemma Regroup(before: bytes, x: bytes, z: bytes, y: bytes, after: bytes)
    ensures (before + x) + z + (y + after) == before + (x + z + y) + after
  {
  }

  lemma PatchParts(b: bytes, before: bytes, x: bytes, hole: bytes, y: bytes, after: bytes)
    requires b == before + (x + hole + y) + after
    ensures b[..|before| + |x|] == before + x && b[|before| + |x| + |hole|..] == y + after
  {
    assert b == (before + x) + (hole + (y + after));
    assert b == ((before + x) + hole) + (y + after);
  }

  const HOLE: bytes := [0, 0]

  /** TYPE, CLASS and TTL. */
  function FirstFields(rr: Record): (r: bytes)
    ensures |r| == 8
  {
    U16(rr.rdata.rtype) + U16(rr.class_) + U32(rr.ttl)
  }

  lemma RecordFields(rr: Record)
    ensures Concat([U16(rr.rdata.rtype), U16(rr.class_), U32(rr.ttl), HOLE]) == FirstFields(rr) + HOLE
  {
    var a, b, c := U16(rr.rdata.rtype), U16(rr.class_), U32(rr.ttl);
    TwoFields(c, HOLE);
    assert [b, c, HOLE][1..] == [c, HOLE] && [a, b, c, HOLE][1..] == [b, c, HOLE];
    Assoc(a, b, c + HOLE);
    Assoc(a + b, c, HOLE);
  }

  lemma FixedSplit(rr: Record, n: nat)
    requires n < TWO_16
    ensures FixedFields(rr, n) == FirstFields(rr) + U16(n)
  {
  }

  lemma FourParts(a: bytes, b: bytes, c: bytes, d: bytes)
    ensures (a + (b + c)) + d == (a + b) + c + d
  {
  }

  lemma HoleFilled(a: bytes, b: bytes, c: bytes, pos: nat, o: bytes, rr: Record, y: bytes, n: nat, r: Result<nat>)
    requires n < TWO_16
    requires Landed(a, b, pos, o + (FirstFields(rr) + HOLE) + y, Ok(pos + |o| + 10 + |y|))
    requires Landed(b, c, pos + |o| + 8, U16(n), r)
    ensures r.Ok? && Landed(a, c, pos, o + FixedFields(rr, n) + y, Ok(pos + |o| + 10 + |y|))
  {
    assert r.Ok?;
    hide Landed, FirstFields, FixedFields, U16;
    var fixed := FirstFields(rr);
    FourParts(o, fixed, HOLE, y);
    LandedPatch(a, b, c, pos, o + fixed, HOLE, y, U16(n), r);
    FourParts(o, fixed, U16(n), y);
    FixedSplit(rr, n);
  }

  /** The owner and the fixed fields, with a hole for RDLENGTH. */
  function EmitOwner(cap: nat, t: Table, pos: nat, rr: Record): (r: Result<Chunk>)
    requires Targets(t) && IsName(rr.name)
    ensures r.Ok? ==> Targets(r.value.table) && pos + |r.value.octets| <= cap
  {
    var o :- EmitName(cap, t, pos, rr.name);
    EmitAfter(cap, o, pos, FirstFields(rr) + HOLE)
  }

  method WriteOwner(nc: NameCompressor, buf: array<byte>, pos: nat, rr: Record) returns (r: Result<nat>)
    requires nc.Valid() && IsName(rr.name)
    modifies nc, buf
    ensures nc.Valid()
    ensures Emitted(old(EmitOwner(buf.Length, nc.Contents(), pos, rr)), r, old(buf[..]), buf[..], pos,
                    old(nc.Contents()), nc.Contents())
    ensures nc.Contents() == old(TableAfterName(nc.Contents(), pos, rr.name))
  {
    hide Compression.WriteName, Coherent, Targets, Landed, IsName, Concat, FirstFields, U16, U32;
    ghost var t, a := nc.Contents(), buf[..];
    ghost var o := Compression.WriteName(t, rr.name, pos);
    ghost var fixed := FirstFields(rr) + HOLE;
    WriteNameExtends(t, rr.name, pos);
    r := nc.WriteName(rr.name, buf, pos);
    LandedOutcome(a, buf[..], pos, o.octets, r);
    if r.Err? { return; }
    ghost var b := buf[..];
    RecordFields(rr);
    r := WriteFields(buf, r.value, [U16(rr.rdata.rtype), U16(rr.class_), U32(rr.ttl), HOLE]);
    LandedTwice(a, b, buf[..], pos, o.octets, fixed, r);
    LandedOutcome(a, buf[..], pos, o.octets + fixed, r);
  }

  /** A record is its owner, then its RDATA, then the hole filled. */
  lemma RecordByOwner(cap: nat, t: Table, pos: nat, rr: Record)
    requires Targets(t) && IsName(rr.name)
    ensures EmitOwner(cap, t, pos, rr).Err? ==> EmitRecord(cap, t, pos, rr) == Err(EmitOwner(cap, t, pos, rr).error)
    ensures EmitOwner(cap, t, pos, rr).Ok? ==>
      var c := EmitOwner(cap, t, pos, rr).value;
      var o := EmitName(cap, t, pos, rr.name);
      var d := EmitRdata(cap, c.table, pos + |c.octets|, rr.rdata.rtype, rr.rdata.octets);
      && Extends(t, c.table, pos)
      && o.Ok? && c.octets == o.value.octets + (FirstFields(rr) + HOLE)
      && EmitRecord(cap, t, pos, rr)
         == if d.Err? then Err(d.error)
            else if |d.value.octets| >= TWO_16 then Err(TooLong)
            else Ok(Chunk(d.value.table, o.value.octets + FixedFields(rr, |d.value.octets|) + d.value.octets))
  {
    hide WriteName, Targets, IsName, EmitRdata, FixedFields, FirstFields;
    WriteNameExtends(t, rr.name, pos);
  }

  lemma RecordTableByOwner(cap: nat, t: Table, pos: nat, rr: Record)
    requires Targets(t) && IsName(rr.name)
    ensures var u := TableAfterName(t, pos, rr.name);
            TableAfterRecord(cap, t, pos, rr)
            == match EmitOwner(cap, t, pos, rr)
               case Err(_) => u
               case Ok(c) => TableAfterRdata(cap, u, pos + |c.octets|, rr.rdata.rtype, rr.rdata.octets)
  {
    hide WriteName, Targets, IsName, TableAfterRdata, FirstFields;
  }

  /** `write_rr`: RDLENGTH is known only once the RDATA is written, so a hole is left
      for it and filled in. */
  method WriteRecord(nc: NameCompressor, buf: array<byte>, pos: nat, rr: Record) returns (r: Result<nat>)
    requires nc.Valid() && IsName(rr.name)
    modifies nc, buf
    ensures nc.Valid()
    ensures Emitted(old(EmitRecord(buf.Length, nc.Contents(), pos, rr)), r, old(buf[..]), buf[..], pos,
                    old(nc.Contents()), nc.Contents())
    ensures nc.Contents() == old(TableAfterRecord(buf.Length, nc.Contents(), pos, rr))
  {
    hide TableAfterRecord, TableAfterRdata, TableAfterName, EmitOwner, EmitRecord, EmitName, Coherent, Targets, Landed, IsName, EmitRdata, Extends, FirstFields, Kept, U16, FixedFields;
    ghost var t, a, cap := nc.Contents(), buf[..], buf.Length;
    RecordByOwner(cap, t, pos, rr);
    RecordTableByOwner(cap, t, pos, rr);
    ghost var owner := EmitOwner(cap, t, pos, rr);
    r := WriteOwner(nc, buf, pos, rr);
    if r.Err? { return; }

    ghost var c, d := owner.value, buf[..];
    LandedOutcome(a, d, pos, c.octets, r);
    var rdataAt := r.value;
    ghost var data := EmitRdata(cap, c.table, rdataAt, rr.rdata.rtype, rr.rdata.octets);
    r := nc.WriteRdata(rr.rdata.rtype, rr.rdata.octets, buf, rdataAt);
    if r.Err? {
      KeptTwice(a, d, buf[..], pos, rdataAt);
      ExtendsTwice(t, c.table, nc.Contents(), pos, rdataAt);
      return;
    }

    ghost var y, e := data.value.octets, buf[..];
    LandedTwice(a, d, e, pos, c.octets, y, r);
    LandedOutcome(a, e, pos, c.octets + y, r);
    RdataExtends(cap, c.table, rdataAt, rr.rdata.rtype, rr.rdata.octets);
    ExtendsTwice(t, c.table, data.value.table, pos, rdataAt);
    var rdlen := r.value - rdataAt;
    if rdlen >= TWO_16 {
      return Err(TooLong);
    }
    var end := r;
    r := WriteBytes(buf, rdataAt - 2, U16(rdlen));
    HoleFilled(a, e, buf[..], pos, EmitName(cap, t, pos, rr.name).value.octets, rr, y, rdlen, r);
    r := end;
  }

  // ---- Sections

  lemma BehindTwice(a: bytes, b: bytes, rest: Result<Chunk>)
    ensures Behind(a, Behind(b, rest)) == Behind(a + b, rest)
  {
    if rest.Ok? {
      Assoc(a, b, rest.value.octets);
    }
  }

  lemma BehindNothing(rest: Result<Chunk>)
    ensures Behind([], rest) == rest
  {
    if rest.Ok? {
      assert [] + rest.value.octets == rest.value.octets;
    }
  }

  lemma QueriesStep(cap: nat, t: Table, pos: nat, qs: seq<Query>, i: nat)
    requires Targets(t) && i < |qs| && forall j :: 0 <= j < |qs| ==> IsName(qs[j].qname)
    ensures var c := EmitQuery(cap, t, pos, qs[i]);
            EmitQueries(cap, t, pos, qs[i..])
            == if c.Err? then Err(c.error)
               else Behind(c.value.octets, EmitQueries(cap, c.value.table, pos + |c.value.octets|, qs[i + 1..]))
  {
    hide EmitQuery, Targets, IsName;
    assert qs[i..][1..] == qs[i + 1..];
  }

  lemma RecordsStep(cap: nat, t: Table, pos: nat, rrs: seq<Record>, i: nat)
    requires Targets(t) && i < |rrs| && forall j :: 0 <= j < |rrs| ==> IsName(rrs[j].name)
    ensures var c := EmitRecord(cap, t, pos, rrs[i]);
            EmitRecords(cap, t, pos, rrs[i..])
            == if c.Err? then Err(c.error)
               else Behind(c.value.octets, EmitRecords(cap, c.value.table, pos + |c.value.octets|, rrs[i + 1..]))
  {
    hide EmitRecord, Targets, IsName;
    assert rrs[i..][1..] == rrs[i + 1..];
  }

  method WriteRecords(nc: NameCompressor, buf: array<byte>, pos: nat, rrs: seq<Record>) returns (r: Result<nat>)
    requires nc.Valid() && pos <= buf.Length && forall i :: 0 <= i < |rrs| ==> IsName(rrs[i].name)
    modifies nc, buf
    ensures nc.Valid()
    ensures Emitted(old(EmitRecords(buf.Length, nc.Contents(), pos, rrs)), r, old(buf[..]), buf[..], pos,
                    old(nc.Contents()), nc.Contents())
  {
    hide EmitRecord, TableAfterRecord, EmitRecords, Coherent, Targets, Landed, IsName, Extends, Kept;
    ghost var t, a, cap := nc.Contents(), buf[..], buf.Length;
    ghost var whole := EmitRecords(cap, t, pos, rrs);
    ghost var done: bytes := [];
    r := Ok(pos);
    StartLoop(a, t, pos);
    BehindNothing(whole);
    assert rrs[0..] == rrs;
    var i := 0;
    while i < |rrs|
      invariant nc.Valid() && i <= |rrs| && r == Ok(pos + |done|)
      invariant Landed(a, buf[..], pos, done, r) && Extends(t, nc.Contents(), pos)
      invariant whole == Behind(done, EmitRecords(cap, nc.Contents(), pos + |done|, rrs[i..]))
    {
      ghost var u, b := nc.Contents(), buf[..];
      ghost var c := EmitRecord(cap, u, pos + |done|, rrs[i]);
      RecordsStep(cap, u, pos + |done|, rrs, i);
      LandedOutcome(a, b, pos, done, r);
      r := WriteRecord(nc, buf, r.value, rrs[i]);
      if r.Err? {
        KeptTwice(a, b, buf[..], pos, pos + |done|);
        ExtendsTwice(t, u, nc.Contents(), pos, pos + |done|);
        return;
      }
      RecordExtends(cap, u, pos + |done|, rrs[i]);
      ExtendsTwice(t, u, c.value.table, pos, pos + |done|);
      LandedTwice(a, b, buf[..], pos, done, c.value.octets, r);
      LandedOutcome(a, buf[..], pos, done + c.value.octets, r);
      BehindTwice(done, c.value.octets,
                   EmitRecords(cap, c.value.table, pos + |done| + |c.value.octets|, rrs[i + 1..]));
      done := done + c.value.octets;
      i := i + 1;
    }
    EndLoop(cap, nc.Contents(), pos, done, rrs);
  }

  lemma StartLoop(a: bytes, t: Table, pos: nat)
    requires pos <= |a|
    ensures Landed(a, a, pos, [], Ok(pos)) && Extends(t, t, pos)
  {
    LandedNothing(a, pos, []);
  }

  lemma EndLoop(cap: nat, t: Table, pos: nat, done: bytes, rrs: seq<Record>)
    requires Targets(t) && forall j :: 0 <= j < |rrs| ==> IsName(rrs[j].name)
    ensures Behind(done, EmitRecords(cap, t, pos + |done|, rrs[|rrs|..])) == Ok(Chunk(t, done))
  {
    assert rrs[|rrs|..] == [] && done + [] == done;
  }

  lemma QueryExtends(cap: nat, t: Table, pos: nat, q: Query)
    requires Targets(t) && IsName(q.qname) && EmitQuery(cap, t, pos, q).Ok?
    ensures Extends(t, EmitQuery(cap, t, pos, q).value.table, pos)
  {
    hide WriteName, Targets, IsName;
    WriteNameExtends(t, q.qname, pos);
  }

  lemma EndQueries(cap: nat, t: Table, pos: nat, done: bytes, qs: seq<Query>)
    requires Targets(t) && forall j :: 0 <= j < |qs| ==> IsName(qs[j].qname)
    ensures Behind(done, EmitQueries(cap, t, pos + |done|, qs[|qs|..])) == Ok(Chunk(t, done))
  {
    assert qs[|qs|..] == [] && done + [] == done;
  }

  method WriteQueries(nc: NameCompressor, buf: array<byte>, pos: nat, qs: seq<Query>) returns (r: Result<nat>)
    requires nc.Valid() && pos <= buf.Length && forall i :: 0 <= i < |qs| ==> IsName(qs[i].qname)
    modifies nc, buf
    ensures nc.Valid()
    ensures Emitted(old(EmitQueries(buf.Length, nc.Contents(), pos, qs)), r, old(buf[..]), buf[..], pos,
                    old(nc.Contents()), nc.Contents())
  {
    hide EmitQuery, EmitQueries, Coherent, Targets, Landed, IsName, Extends, Kept;
    ghost var t, a, cap := nc.Contents(), buf[..], buf.Length;
    ghost var whole := EmitQueries(cap, t, pos, qs);
    ghost var done: bytes := [];
    r := Ok(pos);
    StartLoop(a, t, pos);
    BehindNothing(whole);
    assert qs[0..] == qs;
    var i := 0;
    while i < |qs|
      invariant nc.Valid() && i <= |qs| && r == Ok(pos + |done|)
      invariant Landed(a, buf[..], pos, done, r) && Extends(t, nc.Contents(), pos)
      invariant whole == Behind(done, EmitQueries(cap, nc.Contents(), pos + |done|, qs[i..]))
    {
      ghost var u, b := nc.Contents(), buf[..];
      ghost var c := EmitQuery(cap, u, pos + |done|, qs[i]);
      QueriesStep(cap, u, pos + |done|, qs, i);
      LandedOutcome(a, b, pos, done, r);
      r := WriteQuery(nc, buf, r.value, qs[i]);
      if r.Err? {
        KeptTwice(a, b, buf[..], pos, pos + |done|);
        ExtendsTwice(t, u, nc.Contents(), pos, pos + |done|);
        return;
      }
      QueryExtends(cap, u, pos + |done|, qs[i]);
      ExtendsTwice(t, u, c.value.table, pos, pos + |done|);
      LandedTwice(a, b, buf[..], pos, done, c.value.octets, r);
      LandedOutcome(a, buf[..], pos, done + c.value.octets, r);
      BehindTwice(done, c.value.octets,
                   EmitQueries(cap, c.value.table, pos + |done| + |c.value.octets|, qs[i + 1..]));
      done := done + c.value.octets;
      i := i + 1;
    }
    EndQueries(cap, nc.Contents(), pos, done, qs);
  }

  // ---- The OPT and the header

  /** A method did what a function giving octets says. */
  ghost predicate Put(spec: Result<bytes>, r: Result<nat>, before: bytes, after: bytes, pos: nat) {
    match spec
    case Ok(octets) => r.Ok? && Landed(before, after, pos, octets, r)
    case Err(e) => r == Err(e) && Kept(before, after, pos)
  }

  function OptHead(edns: Edns, rcode: nat): (r: seq<bytes>)
    requires rcode < 0x1000
  {
    [[0], U16(OPT), U16(edns.payloadSize), U32(OptBits(edns, rcode))]
  }

  lemma OptFields(edns: Edns, rcode: nat)
    requires rcode < 0x1000
    ensures |Concat(OptHead(edns, rcode))| == 9
    ensures |edns.rdata| < TWO_16 ==>
      Concat(OptHead(edns, rcode)) + Concat([U16(|edns.rdata|), edns.rdata]) == OptOctets(edns, rcode)
  {
    hide OptBits, U16, U32;
    var a: bytes, b, c, d := [0], U16(OPT), U16(edns.payloadSize), U32(OptBits(edns, rcode));
    assert [a, b, c, d][1..] == [b, c, d] && [b, c, d][1..] == [c, d];
    TwoFields(c, d);
    assert Concat([a, b, c, d]) == a + (b + (c + d));
    if |edns.rdata| < TWO_16 {
      TwoFields(U16(|edns.rdata|), edns.rdata);
      assert a + (b + (c + d)) == a + b + c + d;
      Assoc(a + b + c + d, U16(|edns.rdata|), edns.rdata);
    }
  }

  /** `write_opt`. */
  method WriteOpt(buf: array<byte>, pos: nat, edns: Edns, rcode: nat) returns (r: Result<nat>)
    requires pos <= buf.Length && rcode < 0x1000
    modifies buf
    ensures Put(EmitOpt(buf.Length, pos, edns, rcode), r, old(buf[..]), buf[..], pos)
  {
    hide Landed, Concat, OptHead, OptOctets, Kept, U16;
    ghost var a, head := buf[..], Concat(OptHead(edns, rcode));
    OptFields(edns, rcode);
    r := WriteFields(buf, pos, OptHead(edns, rcode));
    LandedOutcome(a, buf[..], pos, head, r);
    if r.Err? { return; }
    if |edns.rdata| >= TWO_16 {
      return Err(TooLong);
    }
    ghost var b, tail := buf[..], Concat([U16(|edns.rdata|), edns.rdata]);
    r := WriteFields(buf, r.value, [U16(|edns.rdata|), edns.rdata]);
    LandedTwice(a, b, buf[..], pos, head, tail, r);
    LandedOutcome(a, buf[..], pos, head + tail, r);
  }

  lemma HeaderFields(id: u16, f: Flags, rcode: nat, qd: u16, an: u16, ns: u16, ar: u16)
    ensures Concat([U16(id), FlagOctets(f, rcode), U16(qd), U16(an), U16(ns), U16(ar)])
            == HeaderOctets(id, f, rcode, qd, an, ns, ar)
  {
    hide U16, FlagOctets;
    var a, b, c, d, e, g := U16(id), FlagOctets(f, rcode), U16(qd), U16(an), U16(ns), U16(ar);
    assert [a, b, c, d, e, g][1..] == [b, c, d, e, g] && [b, c, d, e, g][1..] == [c, d, e, g];
    assert [c, d, e, g][1..] == [d, e, g] && [d, e, g][1..] == [e, g];
    TwoFields(e, g);
    assert Concat([c, d, e, g]) == c + (d + (e + g));
    assert Concat([a, b, c, d, e, g]) == a + (b + (c + (d + (e + g))));
  }

  /** `write_header`. */
  method WriteHeader(buf: array<byte>, id: u16, f: Flags, rcode: nat, qd: u16, an: u16, ns: u16, ar: u16)
      returns (r: Result<nat>)
    modifies buf
    ensures Landed(old(buf[..]), buf[..], 0, HeaderOctets(id, f, rcode, qd, an, ns, ar), r)
  {
    HeaderFields(id, f, rcode, qd, an, ns, ar);
    r := WriteFields(buf, 0, [U16(id), FlagOctets(f, rcode), U16(qd), U16(an), U16(ns), U16(ar)]);
  }
}
