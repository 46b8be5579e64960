/** Padding a finished reply (RFC 7830), and the walk over its octets that finds the
    OPT to grow. */
module Padding {
  import opened Octets
  import opened Names
  import opened DName
  import opened Compression
  import opened CompressionSoundness
  import opened Emission
  import opened MessageRoundTrip
  import opened EdnsOptions
  import opened Codes
  import opened Messages
  import opened SizeBound
  import opened WriterRefinement
  import opened ParsePrefix
  import opened ParseAlike
  import opened WireLayout

  // ---- The walk

  /** `skip_name`: where the octets after a name begin. */
  function SkipName(msg: bytes, pos: nat): (r: Option<nat>)
    decreases |msg| - pos
  {
    if pos >= |msg| then None
    else
      var len := msg[pos];
      if len == 0 then Some(pos + 1)
      else if len >= 0xc0 then if pos + 2 <= |msg| then Some(pos + 2) else None
      else if len < 0x40 then SkipName(msg, pos + 1 + len)
      else None
  }

  method SkipNameLoop(msg: bytes, start: nat) returns (r: Option<nat>)
    ensures r == SkipName(msg, start)
  {
    var pos := start;
    while true
      invariant SkipName(msg, start) == SkipName(msg, pos)
      decreases |msg| - pos
    {
      if pos >= |msg| { return None; }
      var len := msg[pos];
      if len == 0 { return Some(pos + 1); }
      if len >= 0xc0 { return if pos + 2 <= |msg| then Some(pos + 2) else None; }
      if len >= 0x40 { return None; }
      pos := pos + 1 + len;
    }
  }

  /** `skip_name` agrees with the name parser on every octet string: it succeeds just
      when that does, and ends where that ends. */
  lemma {:induction false} SkipIsSegment(msg: bytes, pos: nat)
    requires pos <= |msg|
    ensures SkipName(msg, pos)
            == match ReadSegment(msg, pos) case Ok(s) => Some(s.End()) case Err(_) => None
    decreases |msg| - pos
  {
    if pos < |msg| && 0 < msg[pos] < 0x40 && pos + 1 + msg[pos] <= |msg| {
      SkipIsSegment(msg, pos + 1 + msg[pos]);
    }
  }

  /** A record the walk has passed: its start, type, and where its RDLENGTH is. */
  datatype Seen = Seen(start: nat, rtype: nat, rdlen: nat)

  function SkipQueries(msg: bytes, pos: nat, n: nat): (r: Option<nat>)
    decreases n
  {
    if n == 0 then Some(pos)
    else match SkipName(msg, pos)
      case None => None
      case Some(p) => SkipQueries(msg, p + 4, n - 1)
  }

  function WalkRecords(msg: bytes, pos: nat, n: nat, last: Option<Seen>): (r: Option<(Option<Seen>, nat)>)
    ensures r.Some? && (last.Some? ==> last.value.rdlen + 2 <= |msg|) && r.value.0.Some? ==> r.value.0.value.rdlen + 2 <= |msg|
    decreases n
  {
    if n == 0 then Some((last, pos))
    else match SkipName(msg, pos)
      case None => None
      case Some(p) =>
        if p + 10 > |msg| then None
        else WalkRecords(msg, p + 10 + ReadU16(msg, p + 8), n - 1, Some(Seen(pos, ReadU16(msg, p), p + 8)))
  }

  predicate EndsInOpt(msg: bytes, last: Option<Seen>, pos: nat) {
    && last.Some? && pos == |msg| && last.value.rtype == OPT
    && last.value.start < |msg| && msg[last.value.start] == 0
  }

  /** `last_record_is_opt`: where the OPT's RDLENGTH sits, if the OPT is last. */
  function LastOpt(msg: bytes): (r: Option<nat>)
    ensures r.Some? ==> r.value + 2 <= |msg|
  {
    if |msg| < HEADER_LEN || ReadU16(msg, 10) == 0 then None
    else match SkipQueries(msg, HEADER_LEN, ReadU16(msg, 4))
      case None => None
      case Some(p) =>
        match WalkRecords(msg, p, ReadU16(msg, 6) + ReadU16(msg, 8) + ReadU16(msg, 10), None)
        case None => None
        case Some((last, end)) => if EndsInOpt(msg, last, end) then Some(last.value.rdlen) else None
  }

  /** What the walk keeps of the record it has just passed. */
  ghost predicate Passed(msg: bytes, last: Option<Seen>, pos: nat) {
    last.Some? ==>
      var s := last.value;
      && s.rdlen >= 8 && s.rdlen + 2 <= |msg| && SkipName(msg, s.start) == Some(s.rdlen - 8)
      && s.rtype == Word(msg, s.rdlen - 8) && pos == s.rdlen + 2 + Word(msg, s.rdlen)
  }

  lemma {:induction false} WalkPasses(msg: bytes, pos: nat, n: nat, last: Option<Seen>)
    requires Passed(msg, last, pos) && WalkRecords(msg, pos, n, last).Some?
    ensures var r := WalkRecords(msg, pos, n, last).value; Passed(msg, r.0, r.1)
    decreases n
  {
    hide SkipName;
    if n > 0 {
      var p := SkipName(msg, pos).value;
      WalkPasses(msg, p + 10 + ReadU16(msg, p + 8), n - 1, Some(Seen(pos, ReadU16(msg, p), p + 8)));
    }
  }

  /** On any octets: what the walk finds is an additional record with a zero octet for
      its owner and the type 41, whose RDATA ends where the message ends. */
  lemma OptIsLast(msg: bytes)
    requires LastOpt(msg).Some?
    ensures var at := LastOpt(msg).value;
            && |msg| >= 12 && Word(msg, 10) > 0 && at >= 9 && at + 2 <= |msg|
            && msg[at - 9] == 0 && Word(msg, at - 8) == 41 && at + 2 + Word(msg, at) == |msg|
  {
    hide WalkRecords, SkipQueries;
    var p := SkipQueries(msg, HEADER_LEN, ReadU16(msg, 4)).value;
    WalkPasses(msg, p, ReadU16(msg, 6) + ReadU16(msg, 8) + ReadU16(msg, 10), None);
  }

  method FindLastOpt(msg: bytes) returns (r: Option<nat>)
    ensures r == LastOpt(msg)
  {
    hide SkipName, ReadU16, U16;
    if |msg| < HEADER_LEN { return None; }
    var qd, an, ns, ar := ReadU16(msg, 4), ReadU16(msg, 6), ReadU16(msg, 8), ReadU16(msg, 10);
    if ar == 0 { return None; }
    var pos: nat, left: nat := HEADER_LEN, qd;
    while left > 0
      invariant SkipQueries(msg, HEADER_LEN, qd) == SkipQueries(msg, pos, left)
    {
      var p := SkipNameLoop(msg, pos);
      if p.None? { return None; }
      pos, left := p.value + 4, left - 1;
    }
    ghost var first := pos;
    var last: Option<Seen> := None;
    left := an + ns + ar;
    while left > 0
      invariant WalkRecords(msg, first, an + ns + ar, None) == WalkRecords(msg, pos, left, last)
    {
      var p := SkipNameLoop(msg, pos);
      if p.None? || p.value + 10 > |msg| { return None; }
      last := Some(Seen(pos, ReadU16(msg, p.value), p.value + 8));
      pos, left := p.value + 10 + ReadU16(msg, p.value + 8), left - 1;
    }
    r := if EndsInOpt(msg, last, pos) then Some(last.value.rdlen) else None;
  }

  // ---- The walk over what the serializer wrote

  function NameTail(pointer: Option<nat>): bytes
    requires pointer.Some? ==> pointer.value <= POINTER_MASK
  {
    if pointer.Some? then PointerTo(pointer.value) else [0]
  }

  lemma TailReads(data: bytes, at: nat, pointer: Option<nat>)
    requires pointer.Some? ==> pointer.value <= POINTER_MASK
    requires at + |NameTail(pointer)| <= |data| && data[at..at + |NameTail(pointer)|] == NameTail(pointer)
    ensures ReadLabel(data, at) == Ok(if pointer.Some? then Pointer(pointer.value) else Root)
  {
    hide PointerTo;
    if pointer.Some? {
      PointerReads(data, at, pointer.value);
    } else {
      assert data[at] == data[at..at + 1][0];
    }
  }

  lemma LabelEnds(data: bytes, at: nat, pointer: Option<nat>)
    requires at < |data| && ReadLabel(data, at) == Ok(if pointer.Some? then Pointer(pointer.value) else Root)
    ensures ReadSegment(data, at) == Ok(Segment(at, if pointer.Some? then ToPointer(pointer.value) else ToRoot))
  {
    hide ReadLabel;
  }

  lemma FirstOctet(data: bytes, at: nat, w: bytes, end: nat)
    requires NameAt(w, 0) && |w| > 1 && end < |w| && at + end < |data| && data[at..at + end] == w[..end]
    requires end == 0 ==> ReadLabel(data, at).Ok? && ReadLabel(data, at).value.Pointer?
    ensures data[at] != 0
  {
    if end > 0 {
      assert data[at] == data[at..at + end][0] == w[0];
    }
  }

  /** Literal labels and what ends them, wherever they were written. */
  lemma SpelledAt(data: bytes, at: nat, w: bytes, end: nat, pointer: Option<nat>)
    requires NameAt(w, 0) && |w| > 1 && end < |w| && Reaches(w, 0, end) && (pointer.None? ==> end > 0)
    requires pointer.Some? ==> pointer.value <= POINTER_MASK
    requires Has(data, at, w[..end]) && Has(data, at + end, NameTail(pointer))
    ensures at < |data| && data[at] != 0 && SkipName(data, at) == Some(at + end + |NameTail(pointer)|)
  {
    hide ReadLabel, ReadSegment, SkipName, NameAt, Reaches, PointerTo;
    TailReads(data, at + end, pointer);
    LabelEnds(data, at + end, pointer);
    CopiedSegment(data, at, w, 0, end);
    SkipIsSegment(data, at);
    FirstOctet(data, at, w, end);
  }

  /** How a name came out: its literal labels and what ends them. */
  lemma WrittenAs(t: Table, w: bytes, pos: nat) returns (end: nat, pointer: Option<nat>)
    requires Targets(t) && IsName(w) && !IsRoot(w)
    ensures end < |w| && NameAt(w, 0) && Reaches(w, 0, end) && (pointer.None? ==> end > 0)
    ensures pointer.Some? ==> pointer.value <= POINTER_MASK
    ensures WriteName(t, w, pos).octets == w[..end] + NameTail(pointer)
    ensures |NameTail(pointer)| > 0
  {
    hide Lookup, Fresh, Compression.Record;
    var m := FindMatch(t, w, 0);
    end := MatchEnd(t, w);
    LookupTarget(t, w[end..]);
    MatchBoundary(t, w);
    pointer := if m.Some? then Some(m.value.1) else None;
  }

  /** A written name is one the walk steps over, and it begins with a zero octet
      only if it is the root. */
  lemma NameStepped(data: bytes, at: nat, t: Table, w: bytes, pos: nat)
    requires Targets(t) && IsName(w)
    requires Has(data, at, WriteName(t, w, pos).octets)
    ensures at < |data| && SkipName(data, at) == Some(at + |WriteName(t, w, pos).octets|)
    ensures data[at] == 0 <==> IsRoot(w)
  {
    hide WriteName, NameTail, SkipName, NameAt, Targets, Has;
    if IsRoot(w) {
      RootOctets(t, w, pos);
      RootHere(data, at);
    } else {
      var end, pointer := WrittenAs(t, w, pos);
      HasParts(data, at, w[..end], NameTail(pointer));
      SpelledAt(data, at, w, end, pointer);
    }
  }

  lemma RootOctets(t: Table, w: bytes, pos: nat)
    requires Targets(t) && IsName(w) && IsRoot(w)
    ensures WriteName(t, w, pos).octets == [0]
  {
  }

  lemma {:induction false} QueriesStepped(data: bytes, at: nat, cap: nat, t: Table, qs: seq<Query>)
    requires Targets(t) && forall i :: 0 <= i < |qs| ==> IsName(qs[i].qname)
    requires EmitQueries(cap, t, at, qs).Ok? && Has(data, at, EmitQueries(cap, t, at, qs).value.octets)
    ensures SkipQueries(data, at, |qs|) == Some(at + |EmitQueries(cap, t, at, qs).value.octets|)
    decreases |qs|
  {
    hide Targets, IsName, WriteName, Has, SkipName;
    if qs != [] {
      var c := EmitQuery(cap, t, at, qs[0]).value;
      var o := WriteName(t, qs[0].qname, at);
      HasParts(data, at, c.octets, EmitQueries(cap, c.table, at + |c.octets|, qs[1..]).value.octets);
      HasParts(data, at, o.octets, U16(qs[0].qtype) + U16(ClassTo(qs[0].qclass)));
      NameStepped(data, at, t, qs[0].qname, at);
      QueriesStepped(data, at + |c.octets|, cap, c.table, qs[1..]);
    }
  }

  /** What the walk keeps of a record. */
  ghost predicate Noted(data: bytes, rr: Record, seen: Seen) {
    && seen.rtype == rr.rdata.rtype && seen.start < |data| && (data[seen.start] == 0 <==> IsRoot(rr.name))
    && seen.rdlen + 2 <= |data|
    && (rr.rdata.rtype == OPT ==> ReadU16(data, seen.rdlen) == |rr.rdata.octets|)
  }

  lemma RecordStepped(data: bytes, at: nat, cap: nat, t: Table, rr: Record, n: nat, last: Option<Seen>) returns (seen: Seen)
    requires Targets(t) && IsName(rr.name)
    requires EmitRecord(cap, t, at, rr).Ok? && Has(data, at, EmitRecord(cap, t, at, rr).value.octets)
    ensures Noted(data, rr, seen)
    ensures WalkRecords(data, at, n + 1, last)
            == WalkRecords(data, at + |EmitRecord(cap, t, at, rr).value.octets|, n, Some(seen))
  {
    hide Targets, IsName, WriteName, Has, SkipName, EmitRdata, FixedFields, ReadU16;
    var o := WriteName(t, rr.name, at);
    var p := at + |o.octets|;
    var d := EmitRdata(cap, o.table, p + 10, rr.rdata.rtype, rr.rdata.octets).value;
    OptCopied(cap, o.table, p + 10, rr.rdata.rtype, rr.rdata.octets);
    var fixed := FixedFields(rr, |d.octets|);
    assert EmitRecord(cap, t, at, rr).value.octets == o.octets + fixed + d.octets;
    hide EmitRecord;
    HasParts(data, at, o.octets + fixed, d.octets);
    HasParts(data, at, o.octets, fixed);
    NameStepped(data, at, t, rr.name, at);
    FixedStepped(data, p, rr, |d.octets|);
    seen := Seen(at, rr.rdata.rtype, p + 8);
    OneStep(data, at, p, n, last);
  }

  lemma OptCopied(cap: nat, t: Table, pos: nat, rtype: u16, octets: bytes)
    requires Targets(t) && EmitRdata(cap, t, pos, rtype, octets).Ok?
    ensures rtype == OPT ==> EmitRdata(cap, t, pos, rtype, octets).value.octets == octets
  {
    hide Targets, EmitOneName, EmitTwoNames;
  }

  lemma OneStep(data: bytes, at: nat, p: nat, n: nat, last: Option<Seen>)
    requires SkipName(data, at) == Some(p) && p + 10 <= |data|
    ensures WalkRecords(data, at, n + 1, last)
            == WalkRecords(data, p + 10 + ReadU16(data, p + 8), n, Some(Seen(at, ReadU16(data, p), p + 8)))
  {
    hide SkipName, ReadU16;
  }

  lemma FixedStepped(data: bytes, p: nat, rr: Record, len: nat)
    requires len < TWO_16 && Has(data, p, FixedFields(rr, len))
    ensures p + 10 <= |data| && ReadU16(data, p) == rr.rdata.rtype && ReadU16(data, p + 8) == len
  {
    FixedReads(data, p, rr, len);
  }

  lemma {:induction false} RecordsStepped(data: bytes, at: nat, cap: nat, t: Table, rrs: seq<Record>, n: nat, last: Option<Seen>)
      returns (seen: Option<Seen>)
    requires Targets(t) && forall i :: 0 <= i < |rrs| ==> IsName(rrs[i].name)
    requires EmitRecords(cap, t, at, rrs).Ok? && Has(data, at, EmitRecords(cap, t, at, rrs).value.octets)
    ensures WalkRecords(data, at, |rrs| + n, last)
            == WalkRecords(data, at + |EmitRecords(cap, t, at, rrs).value.octets|, n, seen)
    ensures if rrs == [] then seen == last else seen.Some? && Noted(data, rrs[|rrs| - 1], seen.value)
    decreases |rrs|
  {
    hide Targets, IsName, Has, EmitRecord, WalkRecords, Noted;
    seen := last;
    if rrs != [] {
      var c := EmitRecord(cap, t, at, rrs[0]).value;
      HasParts(data, at, c.octets, EmitRecords(cap, c.table, at + |c.octets|, rrs[1..]).value.octets);
      var first := RecordStepped(data, at, cap, t, rrs[0], |rrs| - 1 + n, last);
      seen := RecordsStepped(data, at + |c.octets|, cap, c.table, rrs[1..], n, Some(first));
      assert |rrs| > 1 ==> rrs[1..][|rrs| - 2] == rrs[|rrs| - 1];
    }
  }

  lemma OptStepped(data: bytes, at: nat, edns: Edns, rcode: nat, last: Option<Seen>)
    requires rcode < 0x1000 && |edns.rdata| < TWO_16 && Has(data, at, OptOctets(edns, rcode))
    ensures data[at] == 0
    ensures WalkRecords(data, at, 1, last) == Some((Some(Seen(at, OPT, at + 9)), at + 11 + |edns.rdata|))
  {
    hide FixedFields, OptOctets, Has;
    var rr := OptRecord(edns, rcode);
    var fixed := FixedFields(rr, |edns.rdata|);
    OptAsRecord(edns, rcode);
    HasParts(data, at, [0] + fixed, edns.rdata);
    HasParts(data, at, [0], fixed);
    RootHere(data, at);
    FixedStepped(data, at + 1, rr, |edns.rdata|);
    assert WalkRecords(data, at + 11 + |edns.rdata|, 0, Some(Seen(at, OPT, at + 9)))
           == Some((Some(Seen(at, OPT, at + 9)), at + 11 + |edns.rdata|));
  }

  lemma RootHere(data: bytes, at: nat)
    requires Has(data, at, [0])
    ensures at < |data| && data[at] == 0 && SkipName(data, at) == Some(at + 1)
  {
    assert data[at] == data[at..at + 1][0];
  }

  /** An OPT-typed record where the OPT would be. */
  predicate LooksLikeOpt(m: DnsMessage) {
    |m.additionals| > 0 && m.additionals[|m.additionals| - 1].rdata.rtype == OPT
    && IsRoot(m.additionals[|m.additionals| - 1].name)
  }

  /** With no OPT of its own, a message shows one to the walk exactly when its last
      additional record looks like it. */
  ghost predicate FoundIffLooks(m: DnsMessage, data: bytes) {
    && (LastOpt(data).Some? <==> LooksLikeOpt(m))
    && (LastOpt(data).Some? ==> ReadU16(data, LastOpt(data).value) == |m.additionals[|m.additionals| - 1].rdata.octets|)
  }

  /** On whatever the serializer wrote, the walk finds the OPT exactly where it is. */
  lemma LastOptFound(cap: nat, m: DnsMessage)
    requires NamesOk(m) && ToBytes(cap, m).Ok?
    ensures m.edns.Some? ==>
      LastOpt(ToBytes(cap, m).value) == Some(|ToBytes(cap, m).value| - |m.edns.value.rdata| - 2)
    ensures m.edns.None? ==> FoundIffLooks(m, ToBytes(cap, m).value)
  {
    hide EmitBody, OptOctets, CodeTo, HeaderOctets, LastOpt, LooksLikeOpt, LaidOut;
    var rcode := WireRcode(m.rcode, m.edns.Some?).value;
    var l := BodyLaidOut(cap, m, rcode);
    LayoutWalked(cap, m, rcode, l, ToBytes(cap, m).value);
  }

  lemma CountsRead(m: DnsMessage, rcode: nat, data: bytes)
    requires CountsFit(m) && MessageHeader(m, rcode) <= data
    ensures ReadU16(data, 4) == |m.queries| && ReadU16(data, 6) == |m.answers|
    ensures ReadU16(data, 8) == |m.authorities| && ReadU16(data, 10) == ArCount(m)
  {
    hide HeaderOctets, FlagOctets, ReadU16;
    assert data == MessageHeader(m, rcode) + data[HEADER_LEN..];
    HeaderReads(m.id, m.flags, rcode, |m.queries|, |m.answers|, |m.authorities|, ArCount(m), data[HEADER_LEN..]);
  }

  lemma LayoutWalked(cap: nat, m: DnsMessage, rcode: nat, l: Layout, data: bytes)
    requires NamesOk(m) && rcode < 0x1000 && CountsFit(m) && LaidOut(cap, m, rcode, l)
    requires data == MessageHeader(m, rcode) + (l.q.octets + l.an.octets + l.ns.octets + l.ar.octets + l.tail)
    ensures m.edns.Some? ==> LastOpt(data) == Some(|data| - |m.edns.value.rdata| - 2)
    ensures m.edns.None? ==> FoundIffLooks(m, data)
  {
    hide EmitQueries, EmitRecords, OptOctets, MessageHeader, IsName, Has, SkipQueries, WalkRecords, ReadU16, LastOpt, Noted;
    var p := HEADER_LEN + |l.q.octets|;
    var end := p + |l.an.octets| + |l.ns.octets| + |l.ar.octets|;
    CountsRead(m, rcode, data);
    LayoutPlaced(MessageHeader(m, rcode), l, data);
    QueriesStepped(data, HEADER_LEN, cap, EMPTY_TABLE, m.queries);
    var last := SectionsWalked(cap, m, rcode, l, data, if m.edns.Some? then 1 else 0);
    hide LaidOut;
    if m.edns.Some? {
      OptStepped(data, end, m.edns.value, rcode, last);
      WalkTells(data, p, Some(Seen(end, OPT, end + 9)), end + 11 + |m.edns.value.rdata|);
    } else {
      WalkEnds(data, end, last);
      WalkTells(data, p, last, end);
      NotedTells(m, data, last, end);
    }
  }

  /** The three record sections, one after another. */
  lemma SectionsWalked(cap: nat, m: DnsMessage, rcode: nat, l: Layout, data: bytes, extra: nat) returns (last: Option<Seen>)
    requires NamesOk(m) && rcode < 0x1000 && LaidOut(cap, m, rcode, l)
    requires var p := HEADER_LEN + |l.q.octets|;
             && Has(data, p, l.an.octets) && Has(data, p + |l.an.octets|, l.ns.octets)
             && Has(data, p + |l.an.octets| + |l.ns.octets|, l.ar.octets)
    ensures var p := HEADER_LEN + |l.q.octets|;
            WalkRecords(data, p, |m.answers| + |m.authorities| + |m.additionals| + extra, None)
            == WalkRecords(data, p + |l.an.octets| + |l.ns.octets| + |l.ar.octets|, extra, last)
    ensures m.additionals != [] ==> last.Some? && Noted(data, m.additionals[|m.additionals| - 1], last.value)
  {
    hide EmitQueries, EmitRecords, OptOctets, IsName, Has, WalkRecords, Noted;
    var p, n := HEADER_LEN + |l.q.octets|, |m.additionals| + extra;
    var s1 := RecordsStepped(data, p, cap, l.q.table, m.answers, |m.authorities| + n, None);
    p := p + |l.an.octets|;
    var s2 := RecordsStepped(data, p, cap, l.an.table, m.authorities, n, s1);
    last := RecordsStepped(data, p + |l.ns.octets|, cap, l.ns.table, m.additionals, extra, s2);
  }

  /** What the walk comes to, from where its two parts end. */
  lemma WalkTells(data: bytes, p: nat, last: Option<Seen>, end: nat)
    requires |data| >= HEADER_LEN && SkipQueries(data, HEADER_LEN, ReadU16(data, 4)) == Some(p)
    requires WalkRecords(data, p, ReadU16(data, 6) + ReadU16(data, 8) + ReadU16(data, 10), None) == Some((last, end))
    ensures LastOpt(data)
            == if ReadU16(data, 10) > 0 && EndsInOpt(data, last, end) then Some(last.value.rdlen) else None
  {
    hide SkipQueries, WalkRecords, ReadU16;
  }

  lemma NotedTells(m: DnsMessage, data: bytes, last: Option<Seen>, end: nat)
    requires end == |data|
    requires m.additionals != [] ==> last.Some? && Noted(data, m.additionals[|m.additionals| - 1], last.value)
    ensures m.additionals != [] && EndsInOpt(data, last, end) <==> LooksLikeOpt(m)
    ensures LooksLikeOpt(m) ==> ReadU16(data, last.value.rdlen) == |m.additionals[|m.additionals| - 1].rdata.octets|
  {
    hide ReadU16;
  }

  lemma WalkEnds(data: bytes, pos: nat, last: Option<Seen>)
    ensures WalkRecords(data, pos, 0, last) == Some((last, pos))
  {
  }

  lemma LayoutPlaced(head: bytes, l: Layout, data: bytes)
    requires |head| == HEADER_LEN
    requires data == head + (l.q.octets + l.an.octets + l.ns.octets + l.ar.octets + l.tail)
    ensures var p := HEADER_LEN + |l.q.octets|;
            && head <= data && Has(data, HEADER_LEN, l.q.octets) && Has(data, p, l.an.octets)
            && Has(data, p + |l.an.octets|, l.ns.octets)
            && Has(data, p + |l.an.octets| + |l.ns.octets|, l.ar.octets)
            && Has(data, p + |l.an.octets| + |l.ns.octets| + |l.ar.octets|, l.tail)
  {
    hide Has;
    var all := l.q.octets + l.an.octets + l.ns.octets + l.ar.octets + l.tail;
    HasTail(head, all, data);
    HasParts(data, HEADER_LEN, l.q.octets + l.an.octets + l.ns.octets + l.ar.octets, l.tail);
    HasParts(data, HEADER_LEN, l.q.octets + l.an.octets + l.ns.octets, l.ar.octets);
    HasParts(data, HEADER_LEN, l.q.octets + l.an.octets, l.ns.octets);
    HasParts(data, HEADER_LEN, l.q.octets, l.an.octets);
  }

  lemma HasTail(head: bytes, all: bytes, data: bytes)
    requires data == head + all
    ensures head <= data && Has(data, |head|, all)
  {
  }

  // ---- Growing the OPT

  /** RFC 8467 section 4.1. */
  const PADDING_BLOCK := 468

  /** The octets `extra` added to the OPT whose RDLENGTH is at `at`. */
  function Grown(msg: bytes, at: nat, extra: bytes): (r: Option<bytes>)
    requires at + 2 <= |msg|
  {
    var rdlen := ReadU16(msg, at) + |extra|;
    if rdlen >= TWO_16 then None else Some(msg[..at] + U16(rdlen) + msg[at + 2..] + extra)
  }

  function Blocks(n: nat): nat {
    (n + PADDING_BLOCK - 1) / PADDING_BLOCK * PADDING_BLOCK
  }

  /** The least multiple of the block size that holds `n` octets. */
  lemma BlocksLeast(n: nat, k: nat)
    ensures n <= Blocks(n) < n + 468 && Blocks(n) % 468 == 0
    ensures n <= k * 468 ==> Blocks(n) <= k * 468
  {
    var b := (n + PADDING_BLOCK - 1) / PADDING_BLOCK;
    assert k <= b - 1 ==> k * PADDING_BLOCK <= (b - 1) * PADDING_BLOCK;
  }

  function PadTarget(len: nat, payload: nat, frame: nat): nat {
    var limit := if len <= payload then payload else frame;
    if Blocks(len + 4) <= limit then Blocks(len + 4) else limit
  }

  /** The target: the least multiple of 468 that holds the reply and an empty option,
      if it is within the limit, else the limit; which is `payload` for a reply that is
      within that, and `frame` for one already past it. */
  lemma PadTargetExact(len: nat, payload: nat, frame: nat, k: nat)
    ensures var target, limit := PadTarget(len, payload, frame), if len <= payload then payload else frame;
            && target <= limit
            && (target == limit || (len + 4 <= target && target % 468 == 0))
            && (len + 4 <= k * 468 <= limit ==> target <= k * 468 && target % 468 == 0)
  {
    BlocksLeast(len + 4, k);
    hide Blocks;
  }

  function PaddingOption(n: nat): (r: EdnsOption)
    ensures r.code == PADDING && |r.data| == n
  {
    EdnsOption(PADDING, seq(n, _ => 0))
  }

  /** `pad_reply`: whether it padded, and what the reply then holds. */
  function PadReply(reply: bytes, payload: nat, frame: nat): (r: (bool, bytes)) {
    var at, target := LastOpt(reply), PadTarget(|reply|, payload, frame);
    if at.None? || target < |reply| + 4 then (false, reply)
    else
      var pad := target - |reply| - 4;
      if ReadU16(reply, at.value) + 4 + pad >= TWO_16 || pad >= TWO_16 then (false, reply)
      else
        var out := Grown(reply, at.value, OptionOctets(PaddingOption(pad)));
        (true, out.value)
  }

  /** `append_option`. */
  function AppendOption(msg: bytes, o: EdnsOption): (r: (bool, bytes)) {
    var at := LastOpt(msg);
    if at.None? || |o.data| >= TWO_16 then (false, msg)
    else match Grown(msg, at.value, OptionOctets(o))
      case None => (false, msg)
      case Some(out) => (true, out)
  }

  /** The reply with one more option in its OPT. */
  function WithOption(m: DnsMessage, o: EdnsOption): DnsMessage
    requires m.edns.Some? && |o.data| < TWO_16
  {
    m.(edns := Some(m.edns.value.(rdata := m.edns.value.rdata + OptionOctets(o))))
  }

  lemma OptGrows(before: bytes, edns: Edns, rcode: nat, extra: bytes)
    requires rcode < 0x1000 && |edns.rdata| + |extra| < TWO_16
    ensures var msg := before + OptOctets(edns, rcode);
            Grown(msg, |msg| - |edns.rdata| - 2, extra)
            == Some(before + OptOctets(edns.(rdata := edns.rdata + extra), rcode))
  {
    hide OptBits, U16, U32, ReadU16;
    var a: bytes := [0] + U16(OPT) + U16(edns.payloadSize) + U32(OptBits(edns, rcode));
    var grown := edns.(rdata := edns.rdata + extra);
    assert OptBits(grown, rcode) == OptBits(edns, rcode) by { SameBits(edns, grown, rcode); }
    var n, m := |edns.rdata|, |edns.rdata| + |extra|;
    var msg := before + OptOctets(edns, rcode);
    OptPlaces(before, a, U16(n), edns.rdata, msg);
    ReadU16Back(msg, |before| + 9, n);
    Grouped(before, a, U16(m), edns.rdata, extra);
  }

  lemma SameBits(a: Edns, b: Edns, rcode: nat)
    requires rcode < 0x1000 && a.version == b.version && a.doBit == b.doBit
    ensures OptBits(a, rcode) == OptBits(b, rcode)
  {
  }

  lemma OptPlaces(before: bytes, a: bytes, len: bytes, rdata: bytes, msg: bytes)
    requires msg == before + (a + len + rdata)
    ensures |msg| == |before| + |a| + |len| + |rdata|
    ensures msg[..|before| + |a|] == before + a && msg[|before| + |a|..|before| + |a| + |len|] == len
    ensures msg[|before| + |a| + |len|..] == rdata
  {
    assert msg == (before + a) + (len + rdata) && msg == (before + a + len) + rdata;
  }

  lemma Grouped(before: bytes, a: bytes, len: bytes, rdata: bytes, extra: bytes)
    ensures (before + a) + len + rdata + extra == before + (a + len + (rdata + extra))
  {
  }

  /** What the serializer wrote for a message with an OPT: the rest, then the OPT. */
  lemma EndsWithOpt(cap: nat, m: DnsMessage) returns (before: bytes, code: nat)
    requires NamesOk(m) && m.edns.Some? && ToBytes(cap, m).Ok?
    ensures code < 0x1000 && WireRcode(m.rcode, true) == Ok(code) && |m.edns.value.rdata| < TWO_16 && CountsFit(m)
    ensures EmitBody(cap, m, code).Ok? && EmitBody(cap, m.(edns := None), code).Ok? && HEADER_LEN <= cap
    ensures before == MessageHeader(m, code) + EmitBody(cap, m.(edns := None), code).value
    ensures ToBytes(cap, m).value == before + OptOctets(m.edns.value, code)
  {
    hide EmitBody, OptOctets, CodeTo, HeaderOctets, IsName;
    code := WireRcode(m.rcode, true).value;
    BodyThenOpt(m, cap, code);
    var body := EmitBody(cap, m.(edns := None), code).value;
    before := MessageHeader(m, code) + body;
    Assoc(MessageHeader(m, code), body, OptOctets(m.edns.value, code));
  }

  /** Serializing the message with one more option, in room enough. */
  lemma WrittenWithOption(cap: nat, more: nat, m: DnsMessage, o: EdnsOption, before: bytes, code: nat)
    requires NamesOk(m) && m.edns.Some? && |o.data| < TWO_16 && cap <= more && HEADER_LEN <= cap
    requires WireRcode(m.rcode, true) == Ok(code) && CountsFit(m)
    requires EmitBody(cap, m.(edns := None), code).Ok?
    requires before == MessageHeader(m, code) + EmitBody(cap, m.(edns := None), code).value
    requires |m.edns.value.rdata| + 4 + |o.data| < TWO_16
    requires |before| + 11 + |m.edns.value.rdata| + 4 + |o.data| <= more
    ensures ToBytes(more, WithOption(m, o)) == Ok(before + OptOctets(WithOption(m, o).edns.value, code))
  {
    hide EmitBody, OptOctets, CodeTo, HeaderOctets, IsName, OptionOctets;
    var grown := WithOption(m, o);
    assert grown.(edns := None) == m.(edns := None);
    BodySame(cap, more, m.(edns := None), code);
    BodyThenOpt(grown, more, code);
    var body := EmitBody(cap, m.(edns := None), code).value;
    Assoc(MessageHeader(m, code), body, OptOctets(grown.edns.value, code));
  }

  /** Appending an option to a finished message leaves exactly the octets the
      serializer gives for the message with that option. */
  lemma AppendedIsSerialized(cap: nat, more: nat, m: DnsMessage, o: EdnsOption)
    requires NamesOk(m) && m.edns.Some? && ToBytes(cap, m).Ok? && |o.data| < TWO_16
    requires |m.edns.value.rdata| + 4 + |o.data| < TWO_16
    requires cap <= more && |ToBytes(cap, m).value| + 4 + |o.data| <= more
    ensures var reply := ToBytes(cap, m).value;
            var at := LastOpt(reply);
            && at.Some? && ReadU16(reply, at.value) == |m.edns.value.rdata|
            && Grown(reply, at.value, OptionOctets(o)).Some?
            && |Grown(reply, at.value, OptionOctets(o)).value| == |reply| + 4 + |o.data|
            && ToBytes(more, WithOption(m, o)) == Ok(Grown(reply, at.value, OptionOctets(o)).value)
            && AppendOption(reply, o) == (true, ToBytes(more, WithOption(m, o)).value)
  {
    hide ToBytes, LastOpt, Grown, OptOctets, EmitBody, CodeTo, IsName, OptionOctets, ReadU16;
    LastOptFound(cap, m);
    var before, code := EndsWithOpt(cap, m);
    OptGrows(before, m.edns.value, code, OptionOctets(o));
    OptLength(before, m.edns.value, code);
    WrittenWithOption(cap, more, m, o, before, code);
  }

  lemma OptLength(before: bytes, edns: Edns, rcode: nat)
    requires rcode < 0x1000 && |edns.rdata| < TWO_16
    ensures var msg := before + OptOctets(edns, rcode); ReadU16(msg, |msg| - |edns.rdata| - 2) == |edns.rdata|
  {
    hide OptBits, U16, U32, ReadU16;
    var a: bytes := [0] + U16(OPT) + U16(edns.payloadSize) + U32(OptBits(edns, rcode));
    var n, msg := |edns.rdata|, before + OptOctets(edns, rcode);
    OptPlaces(before, a, U16(n), edns.rdata, msg);
    ReadU16Back(msg, |before| + 9, n);
  }

  /** What `pad_reply` leaves, octet for octet: the OPT's RDLENGTH raised, then option 12,
      its length, and zeros up to the target. */
  lemma PaddedOctets(reply: bytes, payload: nat, frame: nat)
    requires PadReply(reply, payload, frame).0
    ensures LastOpt(reply).Some? && LastOpt(reply).value + 2 <= |reply| && PadTarget(|reply|, payload, frame) >= |reply| + 4
    ensures var at, n := LastOpt(reply).value, PadTarget(|reply|, payload, frame) - |reply| - 4;
            var rdlen := Word(reply, at) + 4 + n;
            && rdlen < 0x1_0000
            && PadReply(reply, payload, frame).1
               == reply[..at] + [rdlen / 256, rdlen % 256] + reply[at + 2..] + [0, 12, n / 256, n % 256] + seq(n, _ => 0)
  {
    hide LastOpt, PadTarget;
    var at, n := LastOpt(reply).value, PadTarget(|reply|, payload, frame) - |reply| - 4;
    assert U16(12) + U16(n) == [0, 12, n / 256, n % 256];
    Assoc(reply[..at] + U16(ReadU16(reply, at) + 4 + n) + reply[at + 2..], U16(12) + U16(n), PaddingOption(n).data);
  }

  /** Padding preserves meaning. On any reply the serializer wrote with an OPT,
      `pad_reply` either changes nothing, exactly when there is no room for an empty
      option or the RDATA would outgrow its length field, or leaves what the
      serializer gives for the same message with one all-zero Padding option more,
      at the target length. */
  lemma PaddedIsSerialized(cap: nat, more: nat, m: DnsMessage, payload: nat, frame: nat)
    requires NamesOk(m) && m.edns.Some? && ToBytes(cap, m).Ok? && cap <= more
    requires PadTarget(|ToBytes(cap, m).value|, payload, frame) <= more
    ensures var reply := ToBytes(cap, m).value;
            var target := PadTarget(|reply|, payload, frame);
            if target < |reply| + 4 || |m.edns.value.rdata| + target - |reply| >= TWO_16
            then PadReply(reply, payload, frame) == (false, reply)
            else
              var padded := WithOption(m, PaddingOption(target - |reply| - 4));
              && PadReply(reply, payload, frame).0
              && |PadReply(reply, payload, frame).1| == target
              && ToBytes(more, padded) == Ok(PadReply(reply, payload, frame).1)
  {
    hide ToBytes, LastOpt, Grown, OptOctets, EmitBody, CodeTo, IsName, OptionOctets, ReadU16, PadTarget;
    var reply := ToBytes(cap, m).value;
    var target := PadTarget(|reply|, payload, frame);
    LastOptFound(cap, m);
    var before, code := EndsWithOpt(cap, m);
    OptLength(before, m.edns.value, code);
    if target >= |reply| + 4 && |m.edns.value.rdata| + target - |reply| < TWO_16 {
      AppendedIsSerialized(cap, more, m, PaddingOption(target - |reply| - 4));
    }
  }

  // ---- Reading a padded reply

  /** No RDATA that goes out octet for octet holds a pointer. */
  predicate SettledThroughout(m: DnsMessage) {
    AllSettled(m.answers) && AllSettled(m.authorities) && AllSettled(m.additionals)
  }

  /** Both messages fail to parse, or the second parses as the first with one option
      more in its OPT. */
  ghost predicate OneOptionApart(was: Result<DnsMessage>, now: Result<DnsMessage>, o: EdnsOption)
    requires |o.data| < TWO_16
  {
    || (was.Err? && now.Err?)
    || (was.Ok? && was.value.edns.Some? && now == Ok(WithOption(was.value, o)))
  }

  /** Two messages whose sections start at the same places and read alike there, up to
      their own OPTs. */
  ghost predicate SectionsAlike(m: DnsMessage, i: nat, j: nat, k: nat, a: bytes, b: bytes, e: (Edns, u32), f: (Edns, u32)) {
    && HEADER_LEN <= |a| && HEADER_LEN <= |b| && i <= |a| && i <= |b| && j <= |a| && j <= |b| && k <= |a| && k <= |b|
    && Alike(ParseQueries(a, HEADER_LEN, |m.queries|), ParseQueries(b, HEADER_LEN, |m.queries|))
    && (ParseQueries(a, HEADER_LEN, |m.queries|).Ok? ==> ParseQueries(a, HEADER_LEN, |m.queries|).value.next == i)
    && Alike(ParseRecords(a, i, |m.answers|), ParseRecords(b, i, |m.answers|))
    && (ParseRecords(a, i, |m.answers|).Ok? ==> ParseRecords(a, i, |m.answers|).value.next == j)
    && Alike(ParseRecords(a, j, |m.authorities|), ParseRecords(b, j, |m.authorities|))
    && (ParseRecords(a, j, |m.authorities|).Ok? ==> ParseRecords(a, j, |m.authorities|).value.next == k)
    && ExtrasAlike(ParseAdditionals(a, k, |m.additionals| + 1, false), ParseAdditionals(b, k, |m.additionals| + 1, false), e, f)
  }

  lemma WrittenSections(cap: nat, m: DnsMessage, code: nat, l: Layout, before: bytes, e: Edns, f: Edns, a: bytes, b: bytes)
    requires NamesOk(m) && SettledThroughout(m) && code < 0x1000 && CountsFit(m) && LaidOut(cap, m, code, l)
    requires before == MessageHeader(m, code) + (l.q.octets + l.an.octets + l.ns.octets + l.ar.octets)
    requires |e.rdata| < TWO_16 && |f.rdata| < TWO_16 && a == before + OptOctets(e, code) && b == before + OptOctets(f, code)
    ensures var i := HEADER_LEN + |l.q.octets|;
            var j := i + |l.an.octets|;
            SectionsAlike(m, i, j, j + |l.ns.octets|, a, b, (e, OptBits(e, code)), (f, OptBits(f, code)))
  {
    hide EmitQueries, EmitRecords, AllSettled, ParseQueries, ParseRecords, ParseAdditionals, MessageHeader, Sound,
         OptOctets, OptBits, ParseAdditional, IsName, Alike, ExtrasAlike;
    var head := MessageHeader(m, code);
    var p := head + l.q.octets;
    var r := p + l.an.octets;
    var s := r + l.ns.octets;
    FrontChain(head, l.q.octets, l.an.octets, l.ns.octets, l.ar.octets, before, a);
    FrontChain(head, l.q.octets, l.an.octets, l.ns.octets, l.ar.octets, before, b);
    EmptySound(head);
    QueriesAlike(cap, EMPTY_TABLE, head, m.queries, a, b);
    RecordsAlike(cap, l.q.table, p, m.answers, a, b);
    RecordsAlike(cap, l.an.table, r, m.authorities, a, b);
    OptBack(before, e, code, a);
    OptBack(before, f, code, b);
    AdditionalsAlike(cap, l.ns.table, s, m.additionals, a, b, (e, OptBits(e, code)), (f, OptBits(f, code)), |before|, false);
  }

  lemma FrontChain(h: bytes, q: bytes, an: bytes, ns: bytes, ar: bytes, before: bytes, data: bytes)
    requires before == h + (q + an + ns + ar) && before <= data
    ensures h + q <= data && h + q + an <= data && h + q + an + ns <= data && h + q + an + ns + ar <= data
    ensures before == h + q + an + ns + ar
  {
    assert before == h + q + an + ns + ar;
    Chain(h, q, an, ns, ar, [], before);
    assert q + an + ns + ar + [] == q + an + ns + ar;
  }

  /** The header is read from the part two messages share. */
  lemma AssembledAlike(before: bytes, a: bytes, b: bytes, q: seq<Query>, an: seq<Record>, ns: seq<Record>, ar: seq<Record>,
                       e: Edns, f: Edns, code: nat, o: EdnsOption)
    requires |before| >= HEADER_LEN && before <= a && before <= b && code < 0x1000 && |o.data| < TWO_16
    requires f == e.(rdata := e.rdata + OptionOctets(o))
    ensures Assemble(a, q, an, ns, Extras(ar, Some((e, OptBits(e, code))))).edns == Some(e)
    ensures Assemble(b, q, an, ns, Extras(ar, Some((f, OptBits(f, code)))))
            == WithOption(Assemble(a, q, an, ns, Extras(ar, Some((e, OptBits(e, code))))), o)
  {
    hide OptBits, OptionOctets, CodeFrom, OpFrom, ReadU16;
    SameBits(e, f, code);
    NumbersExtend(before, a, 0);
    NumbersExtend(before, b, 0);
    assert a[2] == before[2] == b[2] && a[3] == before[3] == b[3];
  }

  lemma ClosedAlike(cap: nat, m: DnsMessage, code: nat, l: Layout, before: bytes, o: EdnsOption, e: Edns, f: Edns, a: bytes, b: bytes)
    requires NamesOk(m) && SettledThroughout(m) && code < 0x1000 && CountsFit(m) && m.edns.Some? && LaidOut(cap, m, code, l)
    requires before == MessageHeader(m, code) + (l.q.octets + l.an.octets + l.ns.octets + l.ar.octets)
    requires |o.data| < TWO_16 && f == e.(rdata := e.rdata + OptionOctets(o)) && |e.rdata| < TWO_16 && |f.rdata| < TWO_16
    requires a == before + OptOctets(e, code) && b == before + OptOctets(f, code)
    ensures OneOptionApart(ParseMessage(a), ParseMessage(b), o)
  {
    hide ParseQueries, ParseRecords, ParseAdditionals, MessageHeader, OptOctets, OptBits, ReadU16, Assemble, LaidOut,
         SettledThroughout, OptionOctets, IsName;
    WrittenSections(cap, m, code, l, before, e, f, a, b);
    HeaderLeads(m, code, before, l.q.octets + l.an.octets + l.ns.octets + l.ar.octets);
    PrefixOfSum(before, OptOctets(e, code), a);
    PrefixOfSum(before, OptOctets(f, code), b);
    CountsRead(m, code, a);
    CountsRead(m, code, b);
    var q := ParseQueries(a, HEADER_LEN, |m.queries|);
    if q.Ok? {
      var an := ParseRecords(a, q.value.next, |m.answers|);
      if an.Ok? {
        var ns := ParseRecords(a, an.value.next, |m.authorities|);
        if ns.Ok? {
          var ar := ParseAdditionals(a, ns.value.next, ArCount(m), false);
          if ar.Ok? {
            AssembledAlike(before, a, b, q.value.item, an.value.item, ns.value.item, ar.value.item.records, e, f, code, o);
          }
        }
      }
    }
  }

  /** Two serializations that differ in one option parse alike but for that option, not
      a name's case and not an octet of RDATA besides; or neither parses. */
  lemma WithOptionParses(cap: nat, more: nat, m: DnsMessage, o: EdnsOption)
    requires NamesOk(m) && m.edns.Some? && SettledThroughout(m) && ToBytes(cap, m).Ok? && |o.data| < TWO_16
    requires |m.edns.value.rdata| + 4 + |o.data| < TWO_16
    requires cap <= more && |ToBytes(cap, m).value| + 4 + |o.data| <= more
    ensures ToBytes(more, WithOption(m, o)).Ok?
    ensures OneOptionApart(ParseMessage(ToBytes(cap, m).value), ParseMessage(ToBytes(more, WithOption(m, o)).value), o)
  {
    hide EmitBody, ToBytes, ParseMessage, OptOctets, OptionOctets, CodeTo, SettledThroughout, IsName, LaidOut, OneOptionApart;
    var before, code := EndsWithOpt(cap, m);
    WrittenWithOption(cap, more, m, o, before, code);
    var e, f := m.edns.value, WithOption(m, o).edns.value;
    var l := LaidBefore(cap, m, code, before);
    ClosedAlike(cap, m, code, l, before, o, e, f, ToBytes(cap, m).value, ToBytes(more, WithOption(m, o)).value);
  }

  lemma HeaderLeads(m: DnsMessage, code: nat, before: bytes, rest: bytes)
    requires CountsFit(m) && before == MessageHeader(m, code) + rest
    ensures MessageHeader(m, code) <= before
  {
  }

  /** The sections of the part before the OPT. */
  lemma LaidBefore(cap: nat, m: DnsMessage, code: nat, before: bytes) returns (l: Layout)
    requires NamesOk(m) && m.edns.Some? && code < 0x1000 && CountsFit(m)
    requires EmitBody(cap, m, code).Ok? && EmitBody(cap, m.(edns := None), code).Ok?
    requires before == MessageHeader(m, code) + EmitBody(cap, m.(edns := None), code).value
    ensures LaidOut(cap, m, code, l)
    ensures before == MessageHeader(m, code) + (l.q.octets + l.an.octets + l.ns.octets + l.ar.octets)
  {
    hide EmitQueries, EmitRecords, OptOctets, IsName, MessageHeader;
    l := BodyLaidOut(cap, m, code);
    var plain := BodyLaidOut(cap, m.(edns := None), code);
    assert plain.q == l.q && plain.an == l.an && plain.ns == l.ns && plain.ar == l.ar && plain.tail == [];
    var body := l.q.octets + l.an.octets + l.ns.octets + l.ar.octets;
    assert body + [] == body;
  }

  /** How a reply to `m` and its padded form read. */
  ghost predicate PaddedAlike(m: DnsMessage, reply: bytes, padded: bytes) {
    && |reply| + 4 <= |padded| < |reply| + 4 + TWO_16
    && var o := PaddingOption(|padded| - |reply| - 4);
       var was, now := ParseMessage(reply), ParseMessage(padded);
       && OneOptionApart(was, now, o)
       && (was.Ok? && WalkOptions(was.value.edns.value.rdata).Ok? ==>
             WalkOptions(now.value.edns.value.rdata) == Ok(WalkOptions(was.value.edns.value.rdata).value + [o]))
       && (Sendable(m) ==> was.Ok? && m.edns.Some? && SameMessage(WithOption(m, o), now.value))
  }

  /** A padded reply parses exactly as the reply did, but for one all-zero Padding
      option at the end of its OPT: its options read as they did, and then that one. A
      reply that does not parse, for a name past the decoder's caps say, does not parse
      padded either. What can be sent parses as what was meant. */
  lemma PaddedReads(cap: nat, m: DnsMessage, payload: nat, frame: nat)
    requires NamesOk(m) && m.edns.Some? && SettledThroughout(m) && ToBytes(cap, m).Ok?
    requires PadReply(ToBytes(cap, m).value, payload, frame).0
    ensures PaddedAlike(m, ToBytes(cap, m).value, PadReply(ToBytes(cap, m).value, payload, frame).1)
  {
    hide ToBytes, PadReply, ParseMessage, EmitBody, CodeTo, OptionOctets, PadTarget, PaddingOption, SettledThroughout,
         GoodRecords, GoodQueries, SameRecords, SameQueries, WalkOptions, Named, IsName;
    var reply := ToBytes(cap, m).value;
    var target := PadTarget(|reply|, payload, frame);
    var more := cap + target;
    PaddedIsSerialized(cap, more, m, payload, frame);
    var o := PaddingOption(target - |reply| - 4);
    WithOptionParses(cap, more, m, o);
    var was := ParseMessage(reply);
    if was.Ok? && WalkOptions(was.value.edns.value.rdata).Ok? {
      AppendedReads(was.value.edns.value.rdata, o);
    }
    if Sendable(m) {
      RoundTrip(cap, m);
      RoundTrip(more, WithOption(m, o));
    }
  }

  /** With no OPT of its own a reply is padded exactly when its last additional record
      is typed and owned as one, within the same two limits; otherwise it is left alone. */
  lemma PaddedWithoutOptIff(cap: nat, m: DnsMessage, payload: nat, frame: nat)
    requires NamesOk(m) && m.edns.None? && ToBytes(cap, m).Ok?
    ensures var reply := ToBytes(cap, m).value;
            var target := PadTarget(|reply|, payload, frame);
            && (PadReply(reply, payload, frame).0 <==>
                  && LooksLikeOpt(m) && target >= |reply| + 4
                  && |m.additionals[|m.additionals| - 1].rdata.octets| + target - |reply| < TWO_16)
            && (!PadReply(reply, payload, frame).0 ==> PadReply(reply, payload, frame).1 == reply)
  {
    hide ToBytes, LastOpt, Grown, PadTarget, LooksLikeOpt, ReadU16;
    LastOptFound(cap, m);
  }

  /** `pad_reply` on the reply's own octets. */
  method PadInPlace(reply: bytes, payload: nat, frame: nat) returns (padded: bool, out: bytes)
    ensures (padded, out) == PadReply(reply, payload, frame)
  {
    hide LastOpt, PadTarget, ReadU16, U16;
    padded, out := false, reply;
    var at := FindLastOpt(reply);
    if at.None? { return; }
    var target := PadTarget(|reply|, payload, frame);
    if target < |reply| + 4 { return; }
    var pad := target - |reply| - 4;
    var rdlen := ReadU16(reply, at.value) + 4 + pad;
    if rdlen >= TWO_16 || pad >= TWO_16 { return; }
    out := out[..at.value] + U16(rdlen) + out[at.value + 2..];
    ghost var patched := out;
    out := out + U16(PADDING);
    out := out + U16(pad);
    out := out + seq(target - |out|, _ => 0);
    AppendedInTurn(patched, U16(PADDING), U16(pad), PaddingOption(pad).data);
    padded := true;
  }

  lemma AppendedInTurn(a: bytes, b: bytes, c: bytes, d: bytes)
    ensures a + b + c + d == a + (b + c + d)
  {
  }
}
