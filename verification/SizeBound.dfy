/** How long a message can come out: compression only ever shortens, so the sum of
    the stored sizes bounds it, and more room never changes what is written. */
module SizeBound {
  import opened Octets
  import opened Names
  import opened DName
  import opened Compression
  import opened CompressionRuns
  import opened Emission
  import opened Codes
  import opened Messages

  function QueriesBound(qs: seq<Query>): nat {
    if qs == [] then 0 else |qs[0].qname| + 4 + QueriesBound(qs[1..])
  }

  function RecordsBound(rrs: seq<Record>): nat {
    if rrs == [] then 0 else |rrs[0].name| + 10 + |rrs[0].rdata.octets| + RecordsBound(rrs[1..])
  }

  function OptBound(edns: Option<Edns>): nat {
    if edns.Some? then 11 + |edns.value.rdata| else 0
  }

  /** `wire_size_bound`. */
  function WireSizeBound(m: DnsMessage): nat {
    HEADER_LEN + QueriesBound(m.queries) + RecordsBound(m.answers) + RecordsBound(m.authorities)
    + RecordsBound(m.additionals) + OptBound(m.edns)
  }

  /** The loops of `wire_size_bound`. */
  method ComputeWireSizeBound(m: DnsMessage) returns (bound: nat)
    ensures bound == WireSizeBound(m)
  {
    bound := HEADER_LEN;
    var i := 0;
    while i < |m.queries|
      invariant i <= |m.queries|
      invariant bound + QueriesBound(m.queries[i..]) == HEADER_LEN + QueriesBound(m.queries)
    {
      assert m.queries[i..][1..] == m.queries[i + 1..];
      bound := bound + |m.queries[i].qname| + 4;
      i := i + 1;
    }
    bound := AddRecords(bound, m.answers);
    bound := AddRecords(bound, m.authorities);
    bound := AddRecords(bound, m.additionals);
    if m.edns.Some? {
      bound := bound + 11 + |m.edns.value.rdata|;
    }
  }

  method AddRecords(start: nat, rrs: seq<Record>) returns (bound: nat)
    ensures bound == start + RecordsBound(rrs)
  {
    bound := start;
    var i := 0;
    while i < |rrs|
      invariant i <= |rrs|
      invariant bound + RecordsBound(rrs[i..]) == start + RecordsBound(rrs)
    {
      assert rrs[i..][1..] == rrs[i + 1..];
      bound := bound + |rrs[i].name| + 10 + |rrs[i].rdata.octets|;
      i := i + 1;
    }
  }

  /** `r` came out of a buffer with room for `size` octets: it did not run out of
      room, and took no more than that. */
  ghost predicate Roomy(r: Result<Chunk>, size: nat) {
    match r
    case Ok(c) => |c.octets| <= size
    case Err(e) => e != OutputFull
  }

  lemma NameRoomy(cap: nat, t: Table, pos: nat, w: bytes)
    requires Targets(t) && IsName(w) && pos + |w| <= cap
    ensures EmitName(cap, t, pos, w).Ok? && |EmitName(cap, t, pos, w).value.octets| <= |w|
  {
    WriteNameOctets(t, w, pos);
    hide WriteName;
  }

  lemma OneNameRoomy(cap: nat, t: Table, pos: nat, skip: nat, rdata: bytes)
    requires Targets(t) && skip <= |rdata| && pos + |rdata| <= cap
    ensures Roomy(EmitOneName(cap, t, pos, skip, rdata), |rdata|)
  {
    hide WriteName, DecodePlain, Targets;
    var n := DecodePlain(rdata, skip);
    if n.Ok? {
      NameRoomy(cap, t, pos + skip, n.value.wire);
      assert |n.value.wire| == n.value.next - skip;
    }
  }

  lemma TwoNamesRoomy(cap: nat, t: Table, pos: nat, rdata: bytes)
    requires Targets(t) && pos + |rdata| <= cap
    ensures Roomy(EmitTwoNames(cap, t, pos, rdata), |rdata|)
  {
    hide WriteName, DecodePlain, Targets;
    var m := DecodePlain(rdata, 0);
    if m.Ok? {
      var n := DecodePlain(rdata, m.value.next);
      if n.Ok? {
        assert |m.value.wire| == m.value.next && |n.value.wire| == n.value.next - m.value.next;
        NameRoomy(cap, t, pos, m.value.wire);
        var c := EmitName(cap, t, pos, m.value.wire).value;
        NameRoomy(cap, c.table, pos + |c.octets|, n.value.wire);
      }
    }
  }

  lemma RdataRoomy(cap: nat, t: Table, pos: nat, rtype: nat, rdata: bytes)
    requires Targets(t) && pos + |rdata| <= cap
    ensures Roomy(EmitRdata(cap, t, pos, rtype, rdata), |rdata|)
  {
    hide EmitOneName, EmitTwoNames, Targets;
    OneNameRoomy(cap, t, pos, 0, rdata);
    TwoNamesRoomy(cap, t, pos, rdata);
    if |rdata| >= 2 {
      OneNameRoomy(cap, t, pos, 2, rdata);
    }
  }

  lemma RecordRoomy(cap: nat, t: Table, pos: nat, rr: Record)
    requires Targets(t) && IsName(rr.name) && pos + |rr.name| + 10 + |rr.rdata.octets| <= cap
    ensures Roomy(EmitRecord(cap, t, pos, rr), |rr.name| + 10 + |rr.rdata.octets|)
  {
    hide EmitName, EmitRdata, Targets, IsName, FixedFields;
    NameRoomy(cap, t, pos, rr.name);
    var o := EmitName(cap, t, pos, rr.name).value;
    RdataRoomy(cap, o.table, pos + |o.octets| + 10, rr.rdata.rtype, rr.rdata.octets);
  }

  lemma {:induction false} QueriesRoomy(cap: nat, t: Table, pos: nat, qs: seq<Query>)
    requires Targets(t) && forall i :: 0 <= i < |qs| ==> IsName(qs[i].qname)
    requires pos + QueriesBound(qs) <= cap
    ensures Roomy(EmitQueries(cap, t, pos, qs), QueriesBound(qs))
    decreases |qs|
  {
    hide EmitName, Targets, IsName;
    if qs != [] {
      NameRoomy(cap, t, pos, qs[0].qname);
      var c := EmitQuery(cap, t, pos, qs[0]);
      if c.Ok? {
        QueriesRoomy(cap, c.value.table, pos + |c.value.octets|, qs[1..]);
      }
    }
  }

  lemma {:induction false} RecordsRoomy(cap: nat, t: Table, pos: nat, rrs: seq<Record>)
    requires Targets(t) && forall i :: 0 <= i < |rrs| ==> IsName(rrs[i].name)
    requires pos + RecordsBound(rrs) <= cap
    ensures Roomy(EmitRecords(cap, t, pos, rrs), RecordsBound(rrs))
    decreases |rrs|
  {
    hide EmitRecord, Targets, IsName;
    if rrs != [] {
      RecordRoomy(cap, t, pos, rrs[0]);
      var c := EmitRecord(cap, t, pos, rrs[0]);
      if c.Ok? {
        RecordsRoomy(cap, c.value.table, pos + |c.value.octets|, rrs[1..]);
      }
    }
  }

  /** The bound holds: a buffer of `wire_size_bound` octets never runs out, and no
      more than that is written. */
  lemma BoundHolds(cap: nat, m: DnsMessage)
    requires NamesOk(m) && cap >= WireSizeBound(m)
    ensures ToBytes(cap, m) != Err(OutputFull)
    ensures ToBytes(cap, m).Ok? ==> |ToBytes(cap, m).value| <= WireSizeBound(m)
  {
    hide EmitQueries, EmitRecords, IsName, HeaderOctets, QueriesBound, RecordsBound, OptOctets, CodeTo;
    QueriesRoomy(cap, EMPTY_TABLE, HEADER_LEN, m.queries);
    var q := EmitQueries(cap, EMPTY_TABLE, HEADER_LEN, m.queries);
    if q.Ok? {
      var p := HEADER_LEN + |q.value.octets|;
      RecordsRoomy(cap, q.value.table, p, m.answers);
      var an := EmitRecords(cap, q.value.table, p, m.answers);
      if an.Ok? {
        p := p + |an.value.octets|;
        RecordsRoomy(cap, an.value.table, p, m.authorities);
        var ns := EmitRecords(cap, an.value.table, p, m.authorities);
        if ns.Ok? {
          RecordsRoomy(cap, ns.value.table, p + |ns.value.octets|, m.additionals);
        }
      }
    }
  }

  // ---- More room changes nothing

  lemma OneNameSame(cap: nat, more: nat, t: Table, pos: nat, skip: nat, rdata: bytes)
    requires Targets(t) && skip <= |rdata| && cap <= more
    requires EmitOneName(cap, t, pos, skip, rdata) != Err(OutputFull)
    ensures EmitOneName(more, t, pos, skip, rdata) == EmitOneName(cap, t, pos, skip, rdata)
  {
    hide WriteName, DecodePlain, Targets;
  }

  lemma TwoNamesSame(cap: nat, more: nat, t: Table, pos: nat, rdata: bytes)
    requires Targets(t) && cap <= more && EmitTwoNames(cap, t, pos, rdata) != Err(OutputFull)
    ensures EmitTwoNames(more, t, pos, rdata) == EmitTwoNames(cap, t, pos, rdata)
  {
    hide WriteName, DecodePlain, Targets;
  }

  lemma RdataSame(cap: nat, more: nat, t: Table, pos: nat, rtype: nat, rdata: bytes)
    requires Targets(t) && cap <= more && EmitRdata(cap, t, pos, rtype, rdata) != Err(OutputFull)
    ensures EmitRdata(more, t, pos, rtype, rdata) == EmitRdata(cap, t, pos, rtype, rdata)
  {
    hide EmitOneName, EmitTwoNames, Targets;
    if rtype == NS || rtype == CNAME || rtype == PTR {
      OneNameSame(cap, more, t, pos, 0, rdata);
    } else if rtype == SOA {
      TwoNamesSame(cap, more, t, pos, rdata);
    } else if rtype == MX && |rdata| >= 2 {
      OneNameSame(cap, more, t, pos, 2, rdata);
    }
  }

  lemma RecordSame(cap: nat, more: nat, t: Table, pos: nat, rr: Record)
    requires Targets(t) && IsName(rr.name) && cap <= more && EmitRecord(cap, t, pos, rr) != Err(OutputFull)
    ensures EmitRecord(more, t, pos, rr) == EmitRecord(cap, t, pos, rr)
  {
    hide WriteName, EmitRdata, Targets, IsName, FixedFields;
    var o := EmitName(cap, t, pos, rr.name).value;
    RdataSame(cap, more, o.table, pos + |o.octets| + 10, rr.rdata.rtype, rr.rdata.octets);
  }

  lemma {:induction false} QueriesSame(cap: nat, more: nat, t: Table, pos: nat, qs: seq<Query>)
    requires Targets(t) && forall i :: 0 <= i < |qs| ==> IsName(qs[i].qname)
    requires cap <= more && EmitQueries(cap, t, pos, qs) != Err(OutputFull)
    ensures EmitQueries(more, t, pos, qs) == EmitQueries(cap, t, pos, qs)
    decreases |qs|
  {
    hide WriteName, Targets, IsName;
    if qs != [] {
      var c := EmitQuery(cap, t, pos, qs[0]).value;
      QueriesSame(cap, more, c.table, pos + |c.octets|, qs[1..]);
    }
  }

  lemma {:induction false} RecordsSame(cap: nat, more: nat, t: Table, pos: nat, rrs: seq<Record>)
    requires Targets(t) && forall i :: 0 <= i < |rrs| ==> IsName(rrs[i].name)
    requires cap <= more && EmitRecords(cap, t, pos, rrs) != Err(OutputFull)
    ensures EmitRecords(more, t, pos, rrs) == EmitRecords(cap, t, pos, rrs)
    decreases |rrs|
  {
    hide EmitRecord, Targets, IsName;
    if rrs != [] {
      RecordSame(cap, more, t, pos, rrs[0]);
      var c := EmitRecord(cap, t, pos, rrs[0]);
      if c.Ok? {
        RecordsSame(cap, more, c.value.table, pos + |c.value.octets|, rrs[1..]);
      }
    }
  }

  lemma BodySame(cap: nat, more: nat, m: DnsMessage, rcode: nat)
    requires NamesOk(m) && rcode < 0x1000 && cap <= more && EmitBody(cap, m, rcode) != Err(OutputFull)
    ensures EmitBody(more, m, rcode) == EmitBody(cap, m, rcode)
  {
    hide EmitQueries, EmitRecords, IsName, OptOctets;
    QueriesSame(cap, more, EMPTY_TABLE, HEADER_LEN, m.queries);
    var q := EmitQueries(cap, EMPTY_TABLE, HEADER_LEN, m.queries);
    if q.Ok? {
      var p := HEADER_LEN + |q.value.octets|;
      RecordsSame(cap, more, q.value.table, p, m.answers);
      var an := EmitRecords(cap, q.value.table, p, m.answers);
      if an.Ok? {
        p := p + |an.value.octets|;
        RecordsSame(cap, more, an.value.table, p, m.authorities);
        var ns := EmitRecords(cap, an.value.table, p, m.authorities);
        if ns.Ok? {
          RecordsSame(cap, more, ns.value.table, p + |ns.value.octets|, m.additionals);
        }
      }
    }
  }

  /** Unless the buffer was too small, a larger one gives the same result. */
  lemma MoreRoomSame(cap: nat, more: nat, m: DnsMessage)
    requires NamesOk(m) && cap <= more && ToBytes(cap, m) != Err(OutputFull)
    ensures ToBytes(more, m) == ToBytes(cap, m)
  {
    hide EmitBody, IsName, HeaderOctets, CodeTo;
    var rcode := WireRcode(m.rcode, m.edns.Some?);
    if rcode.Ok? && CountsFit(m) {
      BodySame(cap, more, m, rcode.value);
    }
  }
}
