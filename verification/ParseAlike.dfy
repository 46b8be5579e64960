/** Messages that share what the serializer wrote up to some point read alike up to
    there, whatever follows: every pointer it writes leads back. No bound on labels
    or TTLs is needed, since nothing need read back as it was meant, only alike. */
module ParseAlike {
  import opened Octets
  import opened Names
  import opened DName
  import opened Compression
  import opened CompressionSoundness
  import opened Emission
  import opened Records
  import opened NormalForm
  import opened RdataRoundTrip
  import opened Codes
  import opened Messages
  import opened MessageRoundTrip

  /** The same result, or both an error. */
  ghost predicate Alike<T>(x: Result<T>, y: Result<T>) {
    x == y || (x.Err? && y.Err?)
  }

  // ---- Names

  /** A name whose pointers lead back decodes to its expansion, unless that takes too
      many hops or octets. */
  lemma DecodesByExpand(data: bytes, pos: nat)
    requires pos <= |data| && Expand(data, pos).Some?
    ensures ReadSegment(data, pos).Ok?
    ensures var x, d := Expand(data, pos).value, DecodeName(data, pos, data);
            && (d.Ok? <==> x.hops <= MAX_DEPTH && |x.labels| < MAX_NAME_LEN)
            && (d.Ok? ==> d == Ok(Decoded(x.labels + [0], ReadSegment(data, pos).value.End())))
  {
    hide Unpack, ReadSegment;
    DecodeNameExact(data, pos, data);
    var seg := ReadSegment(data, pos).value;
    if seg.tail.ToRoot? {
      assert data[pos..seg.litEnd] + [] == data[pos..seg.litEnd];
    }
  }

  lemma NamesAlike(more: bytes, pos: nat, a: bytes, b: bytes)
    requires pos <= |more| && more <= a && more <= b && Expand(more, pos).Some?
    ensures Alike(DecodeName(a, pos, a), DecodeName(b, pos, b))
    ensures ReadSegment(a, pos) == ReadSegment(more, pos) == ReadSegment(b, pos) && ReadSegment(more, pos).Ok?
  {
    hide DecodeName, Expand, ReadSegment;
    ExpandExtends(more, a, pos);
    ExpandExtends(more, b, pos);
    DecodesByExpand(a, pos);
    DecodesByExpand(b, pos);
    DecodesByExpand(more, pos);
  }

  /** `DecodeInSlice`, with the error when there is one. */
  lemma SliceDecodes(data: bytes, pos: nat, i: nat, j: nat)
    requires i <= pos <= j <= |data| && ReadSegment(data, pos).Ok? && ReadSegment(data, pos).value.End() <= j
    ensures DecodeName(data[i..j], pos - i, data)
            == match DecodeName(data, pos, data)
               case Ok(d) => Ok(Decoded(d.wire, d.next - i))
               case Err(e) => Err(e)
  {
    hide ReadSegment, Unpack;
    var seg, part := ReadSegment(data, pos).value, data[i..j];
    SegmentInSlice(data, pos, i, j);
    SliceOfSlice(data, i, j, pos - i, seg.litEnd - i);
    SliceOfSlice(data, i, j, pos - i, seg.End() - i);
    assert part[pos - i..seg.litEnd - i] == data[pos..seg.litEnd];
    assert part[pos - i..seg.End() - i] == data[pos..seg.End()];
  }

  /** Where a written name is and ends, in a message that goes on after it. */
  ghost predicate NamedAlike(pos: nat, next: nat, a: bytes, b: bytes) {
    && pos < next <= |a| && next <= |b|
    && Alike(DecodeName(a, pos, a), DecodeName(b, pos, b))
    && ReadSegment(a, pos).Ok? && ReadSegment(b, pos).Ok?
    && ReadSegment(a, pos).value.End() == next && ReadSegment(b, pos).value.End() == next
  }

  lemma WrittenAlike(t: Table, out: bytes, w: bytes, a: bytes, b: bytes)
    requires Sound(t, out) && Targets(t) && IsName(w)
    requires out + WriteName(t, w, |out|).octets <= a && out + WriteName(t, w, |out|).octets <= b
    ensures var c := WriteName(t, w, |out|);
            Sound(c.table, out + c.octets) && NamedAlike(|out|, |out| + |c.octets|, a, b)
  {
    hide Sound, Targets, WriteName, Expand, DecodeName, ReadSegment;
    WriteNameSound(t, out, w);
    NamesAlike(out + WriteName(t, w, |out|).octets, |out|, a, b);
  }

  /** The same name, read out of a slice both messages hold. */
  lemma AlikeInSlice(pos: nat, next: nat, i: nat, slice: bytes, a: bytes, b: bytes)
    requires NamedAlike(pos, next, a, b) && i <= pos && next <= i + |slice|
    requires i + |slice| <= |a| && i + |slice| <= |b| && a[i..i + |slice|] == slice && b[i..i + |slice|] == slice
    ensures Alike(DecodeName(slice, pos - i, a), DecodeName(slice, pos - i, b))
    ensures DecodeName(slice, pos - i, a).Ok? ==> DecodeName(slice, pos - i, a).value.next == next - i
  {
    hide ReadSegment, Unpack;
    SliceDecodes(a, pos, i, i + |slice|);
    SliceDecodes(b, pos, i, i + |slice|);
    if DecodeName(a, pos, a).Ok? {
      NextEnds(a, pos);
    }
  }

  lemma NextEnds(data: bytes, pos: nat)
    requires pos <= |data| && DecodeName(data, pos, data).Ok?
    ensures ReadSegment(data, pos).Ok? && DecodeName(data, pos, data).value.next == ReadSegment(data, pos).value.End()
  {
    hide ReadSegment, Unpack;
  }

  // ---- RDATA

  lemma OneNameAlike(cap: nat, t: Table, out: bytes, skip: nat, rdata: bytes, a: bytes, b: bytes)
    requires Sound(t, out) && Targets(t) && skip <= |rdata| && EmitOneName(cap, t, |out|, skip, rdata).Ok?
    requires out + EmitOneName(cap, t, |out|, skip, rdata).value.octets <= a
    requires out + EmitOneName(cap, t, |out|, skip, rdata).value.octets <= b
    ensures var c := EmitOneName(cap, t, |out|, skip, rdata).value;
            && skip <= |c.octets| && Sound(c.table, out + c.octets)
            && Alike(DecodeName(c.octets, skip, a), DecodeName(c.octets, skip, b))
  {
    hide Sound, Targets, WriteName, DecodePlain, DecodeName, NamedAlike;
    var n := DecodePlain(rdata, skip).value;
    var head, rest := rdata[..skip], rdata[n.next..];
    var c, o := EmitOneName(cap, t, |out|, skip, rdata).value, WriteName(t, n.wire, |out| + skip);
    assert c.octets == head + o.octets + rest;
    SoundExtends(t, out, out + head);
    NameAmong(t, out, head, n.wire, rest, c.octets, a, b);
  }

  /** A name written between other octets of one slice. */
  lemma NameAmong(t: Table, out: bytes, head: bytes, w: bytes, rest: bytes, octets: bytes, a: bytes, b: bytes)
    requires Sound(t, out + head) && Targets(t) && IsName(w)
    requires octets == head + WriteName(t, w, |out| + |head|).octets + rest && out + octets <= a && out + octets <= b
    ensures var o := WriteName(t, w, |out| + |head|);
            && Sound(o.table, out + octets)
            && Alike(DecodeName(octets, |head|, a), DecodeName(octets, |head|, b))
            && (DecodeName(octets, |head|, a).Ok? ==> DecodeName(octets, |head|, a).value.next == |head| + |o.octets|)
  {
    hide Sound, Targets, WriteName, DecodeName, NamedAlike;
    var o := WriteName(t, w, |out| + |head|);
    PartsInPlace(out, head, o.octets, rest, a);
    PartsInPlace(out, head, o.octets, rest, b);
    WrittenAlike(t, out + head, w, a, b);
    SoundExtends(o.table, out + head + o.octets, out + octets);
    AppendedSlice(out, octets, a);
    AppendedSlice(out, octets, b);
    AlikeInSlice(|out| + |head|, |out| + |head| + |o.octets|, |out|, octets, a, b);
  }

  lemma TwoNamesAlike(cap: nat, t: Table, out: bytes, rdata: bytes, a: bytes, b: bytes)
    requires Sound(t, out) && Targets(t) && EmitTwoNames(cap, t, |out|, rdata).Ok?
    requires out + EmitTwoNames(cap, t, |out|, rdata).value.octets <= a
    requires out + EmitTwoNames(cap, t, |out|, rdata).value.octets <= b
    ensures var c := EmitTwoNames(cap, t, |out|, rdata).value;
            Sound(c.table, out + c.octets) && Alike(DecodeSoa(c.octets, a), DecodeSoa(c.octets, b))
  {
    hide Sound, Targets, WriteName, DecodePlain, DecodeName, DecodeSoa, IsName;
    var m := DecodePlain(rdata, 0).value;
    var n := DecodePlain(rdata, m.next).value;
    var c, x := EmitTwoNames(cap, t, |out|, rdata).value, WriteName(t, m.wire, |out|);
    WriteNameTargets(t, m.wire, |out|);
    var y, f := WriteName(x.table, n.wire, |out| + |x.octets|), rdata[n.next..];
    assert c == Chunk(y.table, x.octets + y.octets + f);
    hide EmitTwoNames;
    FirstAmong(t, out, m.wire, y.octets, f, c.octets, a, b);
    NameAmong(x.table, out, x.octets, n.wire, f, c.octets, a, b);
    SoaAlike(c.octets, |x.octets|, a, b);
  }

  lemma FirstAmong(t: Table, out: bytes, m: bytes, y: bytes, f: bytes, octets: bytes, a: bytes, b: bytes)
    requires Sound(t, out) && Targets(t) && IsName(m)
    requires octets == WriteName(t, m, |out|).octets + y + f && out + octets <= a && out + octets <= b
    ensures var x := WriteName(t, m, |out|);
            && Sound(x.table, out + x.octets) && |x.octets| <= |octets|
            && Alike(DecodeName(octets, 0, a), DecodeName(octets, 0, b))
            && (DecodeName(octets, 0, a).Ok? ==> DecodeName(octets, 0, a).value.next == |x.octets|)
  {
    hide Sound, Targets, WriteName, DecodeName, IsName;
    WriteNameSound(t, out, m);
    NothingBefore(out, WriteName(t, m, |out|).octets, y, f);
    NameAmong(t, out, [], m, y + f, octets, a, b);
  }

  lemma NothingBefore(out: bytes, x: bytes, y: bytes, f: bytes)
    ensures out + [] == out && [] + x + (y + f) == x + y + f
  {
  }

  lemma SoaAlike(octets: bytes, p: nat, a: bytes, b: bytes)
    requires p <= |octets| && Alike(DecodeName(octets, 0, a), DecodeName(octets, 0, b))
    requires DecodeName(octets, 0, a).Ok? ==> DecodeName(octets, 0, a).value.next == p
    requires Alike(DecodeName(octets, p, a), DecodeName(octets, p, b))
    ensures Alike(DecodeSoa(octets, a), DecodeSoa(octets, b))
  {
    hide DecodeName, ReadU32;
  }

  /** Where the name is in RDATA that goes out octet for octet, if there is one. */
  function CopiedName(rtype: u16): Option<nat> {
    if rtype == DNAME || rtype == NSEC then Some(0)
    else if rtype == SVCB || rtype == HTTPS then Some(2)
    else if rtype == RRSIG then Some(18)
    else None
  }

  /** A name that goes out as it stands holds no pointer. */
  predicate Settled(d: RecordData) {
    CopiedName(d.rtype).Some? && CopiedName(d.rtype).value <= |d.octets| ==>
      var seg := ReadSegment(d.octets, CopiedName(d.rtype).value);
      seg.Ok? ==> seg.value.tail.ToRoot?
  }

  /** All that `from_wire` stores is such. */
  lemma StoredSettled(d: RecordData)
    requires Stored(d)
    ensures Settled(d)
  {
    hide ReadSegment, Encode;
    VerbatimBack(d, []);
    assert FromWire(d.rtype, d.octets, []).Ok?;
    if d.octets == [] {
      assert ReadSegment([], 0).Err? by { ReadNothing(); }
    }
  }

  lemma ReadNothing()
    ensures ReadSegment([], 0).Err?
  {
  }

  /** Such RDATA reads alike against every message. */
  lemma CopiedAlike(d: RecordData, a: bytes, b: bytes)
    requires Settled(d) && !HoldsNames(d.rtype)
    ensures FromWire(d.rtype, d.octets, a) == FromWire(d.rtype, d.octets, b)
  {
    hide ReadSegment, Unpack, Encode, DecodeNsec3, DecodeStrings, ReadU16, ReadU32;
  }

  lemma RdataAlike(cap: nat, t: Table, out: bytes, d: RecordData, a: bytes, b: bytes)
    requires Sound(t, out) && Targets(t) && Settled(d) && EmitRdata(cap, t, |out|, d.rtype, d.octets).Ok?
    requires out + EmitRdata(cap, t, |out|, d.rtype, d.octets).value.octets <= a
    requires out + EmitRdata(cap, t, |out|, d.rtype, d.octets).value.octets <= b
    ensures var c := EmitRdata(cap, t, |out|, d.rtype, d.octets).value;
            && Sound(c.table, out + c.octets)
            && Alike(FromWire(d.rtype, c.octets, a), FromWire(d.rtype, c.octets, b))
  {
    hide Sound, Targets, EmitOneName, EmitTwoNames, DecodeName, DecodeSoa, Encode, Settled;
    if d.rtype == NS || d.rtype == CNAME || d.rtype == PTR {
      OneNameAlike(cap, t, out, 0, d.octets, a, b);
    } else if d.rtype == SOA {
      TwoNamesAlike(cap, t, out, d.octets, a, b);
    } else if d.rtype == MX {
      OneNameAlike(cap, t, out, 2, d.octets, a, b);
    } else {
      SoundExtends(t, out, out + d.octets);
      CopiedAlike(d, a, b);
    }
  }

  // ---- The parts of a message

  lemma QueryAlike(cap: nat, t: Table, out: bytes, q: Query, a: bytes, b: bytes)
    requires Sound(t, out) && Targets(t) && IsName(q.qname) && EmitQuery(cap, t, |out|, q).Ok?
    requires out + EmitQuery(cap, t, |out|, q).value.octets <= a && out + EmitQuery(cap, t, |out|, q).value.octets <= b
    ensures var c := EmitQuery(cap, t, |out|, q).value;
            && Sound(c.table, out + c.octets) && Alike(ParseQuery(a, |out|), ParseQuery(b, |out|))
            && (ParseQuery(a, |out|).Ok? ==> ParseQuery(a, |out|).value.next == |out| + |c.octets|)
  {
    hide Sound, Targets, WriteName, U16, ReadU16, DecodeName, ClassFrom, ClassTo, ReadSegment;
    var o := WriteName(t, q.qname, |out|);
    var x, y := U16(q.qtype), U16(ClassTo(q.qclass));
    PartsInPlace(out, o.octets, x, y, a);
    PartsInPlace(out, o.octets, x, y, b);
    Assoc(o.octets, x, y);
    WrittenAlike(t, out, q.qname, a, b);
    SoundExtends(o.table, out + o.octets, out + o.octets + x + y);
    var p := |out| + |o.octets|;
    ReadU16Back(a, p, q.qtype);
    ReadU16Back(a, p + 2, ClassTo(q.qclass));
    ReadU16Back(b, p, q.qtype);
    ReadU16Back(b, p + 2, ClassTo(q.qclass));
    if DecodeName(a, |out|, a).Ok? {
      NextEnds(a, |out|);
    }
  }

  lemma PartsAt(data: bytes, pos: nat, p: nat, rr: Record, len: nat)
    requires pos <= |data| && ReadSegment(data, pos).Ok? && ReadSegment(data, pos).value.End() == p && len < TWO_16
    requires p + 10 + len <= |data| && data[p..p + 10] == FixedFields(rr, len)
    ensures ReadParts(data, pos) == Ok(Parts(rr.rdata.rtype, rr.class_, rr.ttl, p + 10, p + 10 + len))
  {
    hide ReadSegment, FixedFields, ReadU16, ReadU32;
    FixedReads(data, p, rr, len);
  }

  /** The fields of a written record, and what it is made from them. */
  ghost predicate RecordedAlike(pos: nat, next: nat, a: bytes, b: bytes) {
    && pos <= |a| && pos <= |b| && ReadParts(a, pos).Ok? && ReadParts(b, pos) == ReadParts(a, pos)
    && var p := ReadParts(a, pos).value;
       && p.to == next && a[p.from..p.to] == b[p.from..p.to]
       && Alike(FromParts(a, pos, p), FromParts(b, pos, p))
  }

  lemma RecordAlike(cap: nat, t: Table, out: bytes, rr: Record, a: bytes, b: bytes)
    requires Sound(t, out) && Targets(t) && IsName(rr.name) && Settled(rr.rdata) && EmitRecord(cap, t, |out|, rr).Ok?
    requires out + EmitRecord(cap, t, |out|, rr).value.octets <= a
    requires out + EmitRecord(cap, t, |out|, rr).value.octets <= b
    ensures var c := EmitRecord(cap, t, |out|, rr).value;
            Sound(c.table, out + c.octets) && RecordedAlike(|out|, |out| + |c.octets|, a, b)
  {
    hide Sound, Targets, WriteName, EmitRdata, FromWire, FixedFields, ReadParts, DecodeName, ReadSegment, Settled;
    var c := EmitRecord(cap, t, |out|, rr).value;
    var o := WriteName(t, rr.name, |out|);
    var p := |out| + |o.octets|;
    var d := EmitRdata(cap, o.table, p + 10, rr.rdata.rtype, rr.rdata.octets).value;
    var fixed := FixedFields(rr, |d.octets|);
    assert c == Chunk(d.table, o.octets + fixed + d.octets);
    PartsInPlace(out, o.octets, fixed, d.octets, a);
    PartsInPlace(out, o.octets, fixed, d.octets, b);
    WrittenAlike(t, out, rr.name, a, b);
    SoundExtends(o.table, out + o.octets, out + o.octets + fixed);
    RdataAlike(cap, o.table, out + o.octets + fixed, rr.rdata, a, b);
    PartsAt(a, |out|, p, rr, |d.octets|);
    PartsAt(b, |out|, p, rr, |d.octets|);
  }

  lemma {:induction false} QueriesAlike(cap: nat, t: Table, out: bytes, qs: seq<Query>, a: bytes, b: bytes)
    requires Sound(t, out) && Targets(t) && forall i :: 0 <= i < |qs| ==> IsName(qs[i].qname)
    requires EmitQueries(cap, t, |out|, qs).Ok?
    requires out + EmitQueries(cap, t, |out|, qs).value.octets <= a && out + EmitQueries(cap, t, |out|, qs).value.octets <= b
    ensures var c := EmitQueries(cap, t, |out|, qs).value;
            && |out| <= |a| && |out| <= |b| && Sound(c.table, out + c.octets)
            && Alike(ParseQueries(a, |out|, |qs|), ParseQueries(b, |out|, |qs|))
            && (ParseQueries(a, |out|, |qs|).Ok? ==> ParseQueries(a, |out|, |qs|).value.next == |out| + |c.octets|)
    decreases |qs|
  {
    hide Sound, Targets, EmitQuery, ParseQuery, IsName;
    if qs == [] {
      assert out + [] == out;
    } else {
      var c := EmitQuery(cap, t, |out|, qs[0]).value;
      var rest := EmitQueries(cap, c.table, |out| + |c.octets|, qs[1..]).value;
      Assoc(out, c.octets, rest.octets);
      PrefixOfSum(out + c.octets, rest.octets, a);
      PrefixOfSum(out + c.octets, rest.octets, b);
      QueryAlike(cap, t, out, qs[0], a, b);
      QueriesAlike(cap, c.table, out + c.octets, qs[1..], a, b);
    }
  }

  predicate AllSettled(rrs: seq<Record>) {
    forall i :: 0 <= i < |rrs| ==> IsName(rrs[i].name) && Settled(rrs[i].rdata)
  }

  lemma NoRecords(cap: nat, t: Table, pos: nat)
    requires Targets(t)
    ensures EmitRecords(cap, t, pos, []) == Ok(Chunk(t, []))
  {
  }

  /** The first of the records, in place, and the rest after it. */
  lemma OneThenRest(cap: nat, t: Table, out: bytes, rrs: seq<Record>, data: bytes) returns (c: Chunk)
    requires Targets(t) && AllSettled(rrs) && rrs != [] && EmitRecords(cap, t, |out|, rrs).Ok?
    requires out + EmitRecords(cap, t, |out|, rrs).value.octets <= data
    ensures IsName(rrs[0].name) && Settled(rrs[0].rdata) && AllSettled(rrs[1..])
    ensures EmitRecord(cap, t, |out|, rrs[0]) == Ok(c) && Targets(c.table) && out + c.octets <= data
    ensures var rest := EmitRecords(cap, c.table, |out + c.octets|, rrs[1..]);
            && rest.Ok? && out + c.octets + rest.value.octets == out + EmitRecords(cap, t, |out|, rrs).value.octets
            && EmitRecords(cap, t, |out|, rrs).value.table == rest.value.table
  {
    hide Targets, EmitRecord, IsName, Settled;
    c := EmitRecord(cap, t, |out|, rrs[0]).value;
    var rest := EmitRecords(cap, c.table, |out| + |c.octets|, rrs[1..]).value;
    Assoc(out, c.octets, rest.octets);
    PrefixOfSum(out + c.octets, rest.octets, data);
  }

  lemma {:induction false} RecordsAlike(cap: nat, t: Table, out: bytes, rrs: seq<Record>, a: bytes, b: bytes)
    requires Sound(t, out) && Targets(t) && AllSettled(rrs) && EmitRecords(cap, t, |out|, rrs).Ok?
    requires out + EmitRecords(cap, t, |out|, rrs).value.octets <= a && out + EmitRecords(cap, t, |out|, rrs).value.octets <= b
    ensures var c := EmitRecords(cap, t, |out|, rrs).value;
            && |out| <= |a| && |out| <= |b| && Sound(c.table, out + c.octets)
            && Alike(ParseRecords(a, |out|, |rrs|), ParseRecords(b, |out|, |rrs|))
            && (ParseRecords(a, |out|, |rrs|).Ok? ==> ParseRecords(a, |out|, |rrs|).value.next == |out| + |c.octets|)
    decreases |rrs|
  {
    hide Sound, Targets, EmitRecord, EmitRecords, AllSettled, ReadParts, FromParts, IsName, Settled;
    if rrs == [] {
      NoRecords(cap, t, |out|);
      assert out + [] == out;
    } else {
      var c := OneThenRest(cap, t, out, rrs, a);
      var d := OneThenRest(cap, t, out, rrs, b);
      RecordAlike(cap, t, out, rrs[0], a, b);
      RecordsAlike(cap, c.table, out + c.octets, rrs[1..], a, b);
    }
  }

  /** The additional sections of two messages that differ in their last record, an OPT:
      both fail, or both hold the same records and each its own OPT. */
  ghost predicate ExtrasAlike(x: Result<At<Extras>>, y: Result<At<Extras>>, e: (Edns, u32), f: (Edns, u32)) {
    || (x.Err? && y.Err?)
    || (&& x.Ok? && y.Ok? && x.value.item.records == y.value.item.records
        && x.value.item.opt == Some(e) && y.value.item.opt == Some(f))
  }

  lemma AdditionalAlike(pos: nat, next: nat, a: bytes, b: bytes)
    requires RecordedAlike(pos, next, a, b)
    ensures Alike(ParseAdditional(a, pos), ParseAdditional(b, pos))
    ensures ParseAdditional(a, pos).Ok? ==> ParseAdditional(a, pos).value.next == next
  {
    hide ReadParts, FromParts;
  }

  lemma {:induction false} AdditionalsAlike(cap: nat, t: Table, out: bytes, rrs: seq<Record>, a: bytes, b: bytes,
                                            e: (Edns, u32), f: (Edns, u32), end: nat, seen: bool)
    requires Sound(t, out) && Targets(t) && AllSettled(rrs) && EmitRecords(cap, t, |out|, rrs).Ok?
    requires out + EmitRecords(cap, t, |out|, rrs).value.octets <= a && out + EmitRecords(cap, t, |out|, rrs).value.octets <= b
    requires end == |out| + |EmitRecords(cap, t, |out|, rrs).value.octets| && end <= |a| && end <= |b|
    requires ParseAdditional(a, end) == Ok(At(Opt(e.0, e.1), |a|)) && ParseAdditional(b, end) == Ok(At(Opt(f.0, f.1), |b|))
    ensures |out| <= |a| && |out| <= |b|
    ensures ExtrasAlike(ParseAdditionals(a, |out|, |rrs| + 1, seen), ParseAdditionals(b, |out|, |rrs| + 1, seen), e, f)
    ensures seen ==> ParseAdditionals(a, |out|, |rrs| + 1, seen).Err?
    decreases |rrs|
  {
    hide Sound, Targets, EmitRecord, EmitRecords, AllSettled, IsName, Settled, ParseAdditional, RecordedAlike;
    if rrs == [] {
      NoRecords(cap, t, |out|);
      LastOf(a, end, e, seen);
      LastOf(b, end, f, seen);
    } else {
      var c := OneThenRest(cap, t, out, rrs, a);
      var d := OneThenRest(cap, t, out, rrs, b);
      RecordAlike(cap, t, out, rrs[0], a, b);
      AdditionalAlike(|out|, |out| + |c.octets|, a, b);
      var x := ParseAdditional(a, |out|);
      AdditionalsAlike(cap, c.table, out + c.octets, rrs[1..], a, b, e, f, end, seen || (x.Ok? && x.value.item.Opt?));
    }
  }
}
