/** The streaming writer leaves exactly the octets the simple serializer gives. */
module WriterRefinement {
  import opened Octets
  import opened Names
  import opened Compression
  import opened CompressionRuns
  import opened Emission
  import opened Records
  import opened Codes
  import opened Messages
  import opened SizeBound
  import opened Replies

  // ---- The simple serializer, without its buffer sizing

  lemma RecordsFitCap(cap: nat, t: Table, pos: nat, rrs: seq<Record>)
    requires Targets(t) && forall i :: 0 <= i < |rrs| ==> IsName(rrs[i].name)
    requires pos <= cap && EmitRecords(cap, t, pos, rrs).Ok?
    ensures pos + |EmitRecords(cap, t, pos, rrs).value.octets| <= cap
    decreases |rrs|
  {
    hide EmitRecord, Targets, IsName;
    if rrs != [] {
      var c := EmitRecord(cap, t, pos, rrs[0]).value;
      RecordsFitCap(cap, c.table, pos + |c.octets|, rrs[1..]);
    }
  }

  lemma BytesFitCap(cap: nat, m: DnsMessage)
    requires NamesOk(m) && ToBytes(cap, m).Ok?
    ensures |ToBytes(cap, m).value| <= cap
  {
    hide EmitQueries, EmitRecords, IsName, HeaderOctets, OptOctets, CodeTo;
    var q := EmitQueries(cap, EMPTY_TABLE, HEADER_LEN, m.queries).value;
    QueriesFitCap(cap, EMPTY_TABLE, HEADER_LEN, m.queries);
    var p := HEADER_LEN + |q.octets|;
    RecordsFitCap(cap, q.table, p, m.answers);
    var an := EmitRecords(cap, q.table, p, m.answers).value;
    RecordsFitCap(cap, an.table, p + |an.octets|, m.authorities);
    var ns := EmitRecords(cap, an.table, p + |an.octets|, m.authorities).value;
    RecordsFitCap(cap, ns.table, p + |an.octets| + |ns.octets|, m.additionals);
  }

  /** The grow-and-rewrite branch is unreachable, and the outcome is that of a
      buffer of exactly `maxLen` octets: the message if it fits, else its truncated
      form, which is never refused for want of room. */
  lemma WithinExact(m: DnsMessage, maxLen: nat)
    requires NamesOk(m) && NamesOk(Truncate(m))
    ensures WireSizeBound(m) < maxLen ==> ToBytes(WireSizeBound(m), m) != Err(OutputFull)
    ensures ToBytesWithin(m, maxLen)
            == if ToBytes(maxLen, m) == Err(OutputFull)
               then ToBytes(WireSizeBound(Truncate(m)), Truncate(m))
               else ToBytes(maxLen, m)
    ensures ToBytesWithin(m, maxLen) != Err(OutputFull)
  {
    hide ToBytes, WireSizeBound, NamesOk, Truncate;
    var bound, t := WireSizeBound(m), Truncate(m);
    var tBound := WireSizeBound(t);
    if bound < maxLen {
      BoundHolds(bound, m);
      MoreRoomSame(bound, maxLen, m);
    }
    if ToBytes(maxLen, m).Ok? {
      BytesFitCap(maxLen, m);
    }
    BoundHolds(tBound, t);
    MoreRoomSame(tBound, Max(tBound, Min(maxLen, CLASSIC_UDP_SIZE)), t);
  }

  // ---- The writer's pushes

  /** `n` records more in `section`, written as `c`. */
  function Added(w: Writer, section: Section, n: nat, c: Chunk): Writer {
    var counted := match section
      case Answer => w.(an := w.an + n)
      case Authority => w.(ns := w.ns + n)
      case Additional => w.(ar := w.ar + n);
    counted.(table := c.table, octets := w.octets + c.octets)
  }

  lemma {:induction false} PushedNothing(w: Writer, section: Section, rrs: seq<Record>)
    requires Targets(w.table) && forall i :: 0 <= i < |rrs| ==> IsName(rrs[i].name)
    requires w.truncated
    ensures PushAll(w, section, rrs) == Ok(w)
    decreases |rrs|
  {
    if rrs != [] {
      PushedNothing(w, section, rrs[1..]);
    }
  }

  /** What pushing `rrs` comes to, given what emitting them in one go comes to. */
  ghost predicate Pushed(w: Writer, section: Section, n: nat, e: Result<Chunk>, r: Result<Writer>) {
    match e
    case Ok(c) => r == Ok(Added(w, section, n, c))
    case Err(x) => if x == OutputFull then r.Ok? && r.value == DropRecords(w, r.value.table) else r == Err(x)
  }

  lemma PushedMore(w: Writer, section: Section, n: nat, c: Chunk, rest: Result<Chunk>, r: Result<Writer>)
    requires Pushed(Added(w, section, 1, c), section, n, rest, r)
    ensures Pushed(w, section, n + 1,
                   match rest case Ok(d) => Ok(Chunk(d.table, c.octets + d.octets)) case Err(e) => Err(e), r)
  {
    if rest.Ok? {
      Assoc(w.octets, c.octets, rest.value.octets);
    }
  }

  /** Pushing records one by one is emitting them in one go, until the buffer runs
      out; then it is the empty truncated reply. */
  lemma {:induction false} PushAllIsEmit(w: Writer, section: Section, rrs: seq<Record>)
    requires Targets(w.table) && forall i :: 0 <= i < |rrs| ==> IsName(rrs[i].name)
    requires !w.truncated && w.cap == w.limit
    ensures Pushed(w, section, |rrs|, EmitRecords(w.cap, w.table, w.Pos(), rrs), PushAll(w, section, rrs))
    decreases |rrs|
  {
    hide EmitRecord, Targets, IsName;
    if rrs == [] {
      assert w.octets + [] == w.octets;
    } else {
      var c, next := EmitRecord(w.cap, w.table, w.Pos(), rrs[0]), PushRecord(w, section, rrs[0]);
      if c.Ok? {
        assert next == Ok(Added(w, section, 1, c.value));
        PushAllIsEmit(next.value, section, rrs[1..]);
        PushedMore(w, section, |rrs| - 1, c.value,
                   EmitRecords(w.cap, c.value.table, w.Pos() + |c.value.octets|, rrs[1..]),
                   PushAll(next.value, section, rrs[1..]));
      } else if c.error == OutputFull {
        PushedNothing(next.value, section, rrs[1..]);
      }
    }
  }

  // ---- The truncated reply

  predicate QuestionFits(m: DnsMessage, limit: nat)
    requires NamesOk(m)
  {
    && EmitQueries(limit, EMPTY_TABLE, HEADER_LEN, m.queries).Ok?
    && HEADER_LEN + |EmitQueries(limit, EMPTY_TABLE, HEADER_LEN, m.queries).value.octets| + OptBound(m.edns) <= limit
  }

  /** A reply whose header, question and OPT fit can be cut to those. */
  lemma TruncatedFits(m: DnsMessage, limit: nat, code: nat)
    requires NamesOk(m) && NamesOk(Truncate(m)) && CountsFit(Truncate(m)) && QuestionFits(m, limit)
    requires WireRcode(m.rcode, m.edns.Some?) == Ok(code)
    ensures var t := Truncate(m);
            var q := EmitQueries(limit, EMPTY_TABLE, HEADER_LEN, m.queries).value;
            ToBytes(WireSizeBound(t), t)
            == match m.edns
               case None => Ok(MessageHeader(t, code) + q.octets)
               case Some(e) =>
                 match EmitOpt(limit, HEADER_LEN + |q.octets|, e, code)
                 case Ok(opt) => Ok(MessageHeader(t, code) + (q.octets + opt))
                 case Err(x) => Err(x)
  {
    hide EmitQueries, IsName, HeaderOctets, OptOctets, CodeTo, WireSizeBound;
    var t := Truncate(m);
    var q := EmitQueries(limit, EMPTY_TABLE, HEADER_LEN, m.queries).value;
    assert q.octets + [] + [] + [] == q.octets;
    assert EmitRecords(limit, q.table, HEADER_LEN + |q.octets|, []) == Ok(Chunk(q.table, []));
    BoundHolds(WireSizeBound(t), t);
    if limit <= WireSizeBound(t) {
      MoreRoomSame(limit, WireSizeBound(t), t);
    } else {
      MoreRoomSame(WireSizeBound(t), limit, t);
    }
  }

  /** A writer that has dropped its records finishes as the truncated reply. */
  lemma FinishDropped(m: DnsMessage, limit: nat, code: nat, w: Writer)
    requires NamesOk(m) && NamesOk(Truncate(m)) && CountsFit(Truncate(m)) && QuestionFits(m, limit)
    requires WireRcode(m.rcode, m.edns.Some?) == Ok(code)
    requires var q := EmitQueries(limit, EMPTY_TABLE, HEADER_LEN, m.queries).value;
             w == Writer(limit, limit, w.table, q.octets, q.octets, |m.queries|, 0, 0, 0, true)
    ensures FinishWriter(w, m.id, m.flags, m.rcode, m.edns) == ToBytes(WireSizeBound(Truncate(m)), Truncate(m))
  {
    hide EmitQueries, IsName, HeaderOctets, OptOctets, CodeTo, WireSizeBound, ToBytes;
    TruncatedFits(m, limit, code);
  }

  /** The whole reply, if the OPT still fits after it. */
  lemma FinishWhole(m: DnsMessage, limit: nat, code: nat, w: Writer, q: bytes)
    requires NamesOk(m) && NamesOk(Truncate(m)) && CountsFit(m) && QuestionFits(m, limit)
    requires WireRcode(m.rcode, m.edns.Some?) == Ok(code) && HEADER_LEN <= limit && !m.flags.truncation
    requires q == EmitQueries(limit, EMPTY_TABLE, HEADER_LEN, m.queries).value.octets
    requires w == Writer(limit, limit, w.table, q, w.octets, |m.queries|, |m.answers|, |m.authorities|, |m.additionals|, false)
    requires Counted(w)
    requires EmitBody(limit, m.(edns := None), code) == Ok(w.octets)
    requires EmitBody(limit, m, code)
             == match m.edns
                case None => Ok(w.octets)
                case Some(e) => match EmitOpt(limit, HEADER_LEN + |w.octets|, e, code)
                  case Ok(opt) => Ok(w.octets + opt)
                  case Err(x) => Err(x)
    ensures FinishWriter(w, m.id, m.flags, m.rcode, m.edns)
            == if ToBytes(limit, m) == Err(OutputFull)
               then ToBytes(WireSizeBound(Truncate(m)), Truncate(m))
               else ToBytes(limit, m)
  {
    hide EmitBody, EmitQueries, IsName, HeaderOctets, OptOctets, CodeTo, WireSizeBound;
    if ToBytes(limit, m) == Err(OutputFull) {
      FinishDropped(m, limit, code, DropRecords(w, w.table));
      hide ToBytes;
    }
  }

  // ---- The refinement

  /** The writer `start` leaves: the question, and nothing else. */
  function Started(limit: nat, q: Chunk, n: nat): Writer {
    Writer(limit, limit, q.table, q.octets, q.octets, n, 0, 0, 0, false)
  }

  /** What the three sections come to, given what emitting them comes to. */
  ghost predicate Gathered(w: Writer, m: DnsMessage, body: Result<bytes>, r: Result<Writer>) {
    match body
    case Ok(octets) =>
      && r.Ok?
      && r.value == w.(table := r.value.table, octets := octets,
                       an := |m.answers|, ns := |m.authorities|, ar := |m.additionals|)
    case Err(x) => if x == OutputFull then r.Ok? && r.value == DropRecords(w, r.value.table) else r == Err(x)
  }

  lemma SectionsAreBody(m: DnsMessage, limit: nat, code: nat)
    requires NamesOk(m) && code < 0x1000 && EmitQueries(limit, EMPTY_TABLE, HEADER_LEN, m.queries).Ok?
    ensures var w := Started(limit, EmitQueries(limit, EMPTY_TABLE, HEADER_LEN, m.queries).value, |m.queries|);
            Gathered(w, m, EmitBody(limit, m.(edns := None), code),
                     PushSections(w, m.answers, m.authorities, m.additionals))
  {
    hide EmitQueries, EmitRecords, IsName, PushAll;
    var q := EmitQueries(limit, EMPTY_TABLE, HEADER_LEN, m.queries).value;
    var w := Started(limit, q, |m.queries|);
    PushAllIsEmit(w, Answer, m.answers);
    var an := EmitRecords(limit, q.table, w.Pos(), m.answers);
    var w1 := PushAll(w, Answer, m.answers);
    if an.Ok? {
      PushAllIsEmit(w1.value, Authority, m.authorities);
      var ns := EmitRecords(limit, an.value.table, w1.value.Pos(), m.authorities);
      var w2 := PushAll(w1.value, Authority, m.authorities);
      if ns.Ok? {
        PushAllIsEmit(w2.value, Additional, m.additionals);
      } else if ns.error == OutputFull {
        PushedNothing(w2.value, Additional, m.additionals);
      }
    } else if an.error == OutputFull {
      PushedNothing(w1.value, Authority, m.authorities);
      PushedNothing(w1.value, Additional, m.additionals);
    }
  }

  /** The OPT comes after everything else, and changes none of it. */
  lemma BodyThenOpt(m: DnsMessage, limit: nat, code: nat)
    requires NamesOk(m) && code < 0x1000
    ensures EmitBody(limit, m, code)
            == match EmitBody(limit, m.(edns := None), code)
               case Err(x) => Err(x)
               case Ok(body) => match m.edns
                 case None => Ok(body)
                 case Some(e) => match EmitOpt(limit, HEADER_LEN + |body|, e, code)
                   case Ok(opt) => Ok(body + opt)
                   case Err(x) => Err(x)
  {
    hide EmitQueries, EmitRecords, EmitOpt, IsName;
  }

  /** The simple serializer at `limit`, from the body it emits. */
  lemma WithinByBody(m: DnsMessage, limit: nat, code: nat)
    requires NamesOk(m) && CountsFit(m) && WireRcode(m.rcode, m.edns.Some?) == Ok(code) && HEADER_LEN <= limit
    ensures NamesOk(Truncate(m))
    ensures EmitBody(limit, m, code).Err?
            ==> ToBytesWithin(m, limit) == if EmitBody(limit, m, code) == Err(OutputFull)
                  then ToBytes(WireSizeBound(Truncate(m)), Truncate(m))
                  else Err(EmitBody(limit, m, code).error)
    ensures ToBytesWithin(m, limit) == if ToBytes(limit, m) == Err(OutputFull)
              then ToBytes(WireSizeBound(Truncate(m)), Truncate(m))
              else ToBytes(limit, m)
  {
    hide EmitBody, IsName, WireSizeBound, HeaderOctets, ToBytesWithin;
    WithinExact(m, limit);
  }

  /** The streaming writer refines the simple serializer. For a limit a message can
      have, with header, question and OPT fitting in it and no section over 65535
      records, the octets it leaves are those of `to_bytes_within` on the same
      reply, whether or not the records fit; and it fails just when that does. */
  lemma WriterRefines(request: DnsMessage, limit: nat, aa: bool, rcode: ResponseCode, an: seq<Record>,
                      ns: seq<Record>, ar: seq<Record>, edns: Option<Edns>)
    requires 512 <= limit <= 65535
    requires NamesOk(request) && NamesOk(Reply(request, aa, rcode, an, ns, ar, edns))
    requires CountsFit(Reply(request, aa, rcode, an, ns, ar, edns))
    requires QuestionFits(Reply(request, aa, rcode, an, ns, ar, edns), limit)
    ensures var run := RunWriter(request, limit, aa, rcode, an, ns, ar, edns);
            var simple := ToBytesWithin(Reply(request, aa, rcode, an, ns, ar, edns), limit);
            if WireRcode(rcode, edns.Some?).Ok? then run == simple else run.Err? && simple.Err?
  {
    hide EmitBody, EmitQueries, PushSections, IsName, WireSizeBound, HeaderOctets, OptOctets, CodeTo;
    var m := Reply(request, aa, rcode, an, ns, ar, edns);
    var code := WireRcode(rcode, edns.Some?);
    if code.Ok? {
      WithinByBody(m, limit, code.value);
      hide ToBytesWithin;
      SectionsAreBody(m, limit, code.value);
      BodyThenOpt(m, limit, code.value);
      var q := EmitQueries(limit, EMPTY_TABLE, HEADER_LEN, m.queries).value;
      var w := PushSections(Started(limit, q, |m.queries|), an, ns, ar);
      var body := EmitBody(limit, m.(edns := None), code.value);
      if body.Ok? {
        FinishWhole(m, limit, code.value, w.value, q.octets);
      } else if body.error == OutputFull {
        FinishDropped(m, limit, code.value, w.value);
      }
    }
  }

  // ---- The size bound is reached

  /** Names that are all the root, and RDATA that is copied: nothing to compress. */
  predicate RootRecords(rrs: seq<Record>) {
    forall i :: 0 <= i < |rrs| ==> rrs[i].name == [0] && !HoldsNames(rrs[i].rdata.rtype)
  }

  lemma {:induction false} RecordsReach(cap: nat, t: Table, pos: nat, rrs: seq<Record>)
    requires Targets(t) && (forall i :: 0 <= i < |rrs| ==> IsName(rrs[i].name)) && RootRecords(rrs)
    requires EmitRecords(cap, t, pos, rrs).Ok?
    ensures |EmitRecords(cap, t, pos, rrs).value.octets| == RecordsBound(rrs)
    decreases |rrs|
  {
    hide Targets, IsName, FixedFields;
    if rrs != [] {
      var c := EmitRecord(cap, t, pos, rrs[0]).value;
      assert WriteName(t, rrs[0].name, pos).octets == [0];
      RecordsReach(cap, c.table, pos + |c.octets|, rrs[1..]);
    }
  }

  lemma {:induction false} QueriesReach(cap: nat, t: Table, pos: nat, qs: seq<Query>)
    requires Targets(t) && (forall i :: 0 <= i < |qs| ==> IsName(qs[i].qname) && qs[i].qname == [0])
    requires EmitQueries(cap, t, pos, qs).Ok?
    ensures |EmitQueries(cap, t, pos, qs).value.octets| == QueriesBound(qs)
    decreases |qs|
  {
    hide Targets, IsName;
    if qs != [] {
      var c := EmitQuery(cap, t, pos, qs[0]).value;
      QueriesReach(cap, c.table, pos + |c.octets|, qs[1..]);
    }
  }

  /** A message with nothing to compress takes all of `wire_size_bound`. */
  lemma BoundReached(cap: nat, m: DnsMessage)
    requires NamesOk(m) && ToBytes(cap, m).Ok?
    requires forall i :: 0 <= i < |m.queries| ==> m.queries[i].qname == [0]
    requires RootRecords(m.answers) && RootRecords(m.authorities) && RootRecords(m.additionals)
    ensures |ToBytes(cap, m).value| == WireSizeBound(m)
  {
    hide EmitQueries, EmitRecords, IsName, HeaderOctets, OptOctets, CodeTo, RootRecords;
    var q := EmitQueries(cap, EMPTY_TABLE, HEADER_LEN, m.queries).value;
    QueriesReach(cap, EMPTY_TABLE, HEADER_LEN, m.queries);
    var p := HEADER_LEN + |q.octets|;
    RecordsReach(cap, q.table, p, m.answers);
    var an := EmitRecords(cap, q.table, p, m.answers).value;
    RecordsReach(cap, an.table, p + |an.octets|, m.authorities);
    var ns := EmitRecords(cap, an.table, p + |an.octets|, m.authorities).value;
    RecordsReach(cap, ns.table, p + |an.octets| + |ns.octets|, m.additionals);
  }

  // ---- More records than a count can say

  /** A record takes at least eleven octets: a root owner and the fixed fields. */
  lemma {:induction false} RecordsLong(cap: nat, t: Table, pos: nat, rrs: seq<Record>)
    requires Targets(t) && forall i :: 0 <= i < |rrs| ==> IsName(rrs[i].name)
    requires EmitRecords(cap, t, pos, rrs).Ok?
    ensures |EmitRecords(cap, t, pos, rrs).value.octets| >= 11 * |rrs|
    decreases |rrs|
  {
    hide EmitRecord, Targets, IsName;
    if rrs != [] {
      var c := EmitRecord(cap, t, pos, rrs[0]).value;
      RecordLong(cap, t, pos, rrs[0]);
      RecordsLong(cap, c.table, pos + |c.octets|, rrs[1..]);
    }
  }

  lemma RecordLong(cap: nat, t: Table, pos: nat, rr: Record)
    requires Targets(t) && IsName(rr.name) && EmitRecord(cap, t, pos, rr).Ok?
    ensures |EmitRecord(cap, t, pos, rr).value.octets| >= 11
  {
    hide WriteName, EmitRdata, Targets, IsName, FixedFields;
    WriteNameOctets(t, rr.name, pos);
  }

  /** So a body that fits a message has no more records than a count can say. */
  lemma BodyCounts(cap: nat, m: DnsMessage, code: nat)
    requires NamesOk(m) && code < 0x1000 && HEADER_LEN <= cap <= MAX_MESSAGE && EmitBody(cap, m, code).Ok?
    ensures |m.answers| + |m.authorities| + |m.additionals| < TWO_16 - 1
  {
    hide EmitQueries, EmitRecords, IsName, EmitOpt;
    var q := EmitQueries(cap, EMPTY_TABLE, HEADER_LEN, m.queries).value;
    QueriesFitCap(cap, EMPTY_TABLE, HEADER_LEN, m.queries);
    var p := HEADER_LEN + |q.octets|;
    RecordsFitCap(cap, q.table, p, m.answers);
    RecordsLong(cap, q.table, p, m.answers);
    var an := EmitRecords(cap, q.table, p, m.answers).value;
    p := p + |an.octets|;
    RecordsFitCap(cap, an.table, p, m.authorities);
    RecordsLong(cap, an.table, p, m.authorities);
    var ns := EmitRecords(cap, an.table, p, m.authorities).value;
    p := p + |ns.octets|;
    RecordsFitCap(cap, ns.table, p, m.additionals);
    RecordsLong(cap, ns.table, p, m.additionals);
  }

  /** With more records in a section than its count can say, the serializer refuses
      outright. The writer stops at its limit first: it sends the truncated reply
      exactly when the records run out of room before one of them fails to encode,
      and otherwise reports that failure. */
  lemma TooManyRecords(request: DnsMessage, limit: nat, aa: bool, rcode: ResponseCode, an: seq<Record>,
                       ns: seq<Record>, ar: seq<Record>, edns: Option<Edns>)
    requires 512 <= limit <= 65535 && |request.queries| < TWO_16
    requires NamesOk(request) && NamesOk(Reply(request, aa, rcode, an, ns, ar, edns))
    requires !CountsFit(Reply(request, aa, rcode, an, ns, ar, edns))
    requires QuestionFits(Reply(request, aa, rcode, an, ns, ar, edns), limit) && WireRcode(rcode, edns.Some?).Ok?
    ensures var m := Reply(request, aa, rcode, an, ns, ar, edns);
            var body := EmitBody(limit, m.(edns := None), WireRcode(rcode, edns.Some?).value);
            var run := RunWriter(request, limit, aa, rcode, an, ns, ar, edns);
            && ToBytesWithin(m, limit) == Err(TooLong) && body.Err? && NamesOk(Truncate(m))
            && (body.error == OutputFull ==> run.Ok? && run == ToBytes(WireSizeBound(Truncate(m)), Truncate(m)))
            && (body.error != OutputFull ==> run == Err(body.error))
  {
    hide EmitBody, EmitQueries, PushSections, IsName, WireSizeBound, HeaderOctets, OptOctets, CodeTo;
    var m := Reply(request, aa, rcode, an, ns, ar, edns);
    var code := WireRcode(rcode, edns.Some?).value;
    var q := EmitQueries(limit, EMPTY_TABLE, HEADER_LEN, m.queries).value;
    var w := PushSections(Started(limit, q, |m.queries|), an, ns, ar);
    var body := EmitBody(limit, m.(edns := None), code);
    SectionsAreBody(m, limit, code);
    if body.Ok? {
      BodyCounts(limit, m.(edns := None), code);
    } else if body.error == OutputFull {
      FinishDropped(m, limit, code, w.value);
      CutIsSent(m, limit, code);
    }
  }

  lemma CutIsSent(m: DnsMessage, limit: nat, code: nat)
    requires NamesOk(m) && NamesOk(Truncate(m)) && CountsFit(Truncate(m)) && QuestionFits(m, limit)
    requires limit <= MAX_MESSAGE && WireRcode(m.rcode, m.edns.Some?) == Ok(code)
    ensures ToBytes(WireSizeBound(Truncate(m)), Truncate(m)).Ok?
  {
    hide EmitQueries, IsName, HeaderOctets, OptOctets, CodeTo, WireSizeBound, ToBytes;
    TruncatedFits(m, limit, code);
  }

  /** RDATA that is copied and fits its length field. */
  predicate PlainRecord(rr: Record) {
    !HoldsNames(rr.rdata.rtype) && |rr.rdata.octets| < TWO_16
  }

  predicate PlainRecords(rrs: seq<Record>) {
    forall i :: 0 <= i < |rrs| ==> PlainRecord(rrs[i])
  }

  /** Such records only ever fail for want of room. */
  lemma {:induction false} PlainOnlyFull(cap: nat, t: Table, pos: nat, rrs: seq<Record>)
    requires Targets(t) && forall i :: 0 <= i < |rrs| ==> IsName(rrs[i].name)
    requires PlainRecords(rrs)
    ensures EmitRecords(cap, t, pos, rrs).Ok? || EmitRecords(cap, t, pos, rrs) == Err(OutputFull)
    decreases |rrs|
  {
    hide Targets, IsName, WriteName, FixedFields;
    if rrs != [] {
      assert PlainRecord(rrs[0]);
      var c := EmitRecord(cap, t, pos, rrs[0]);
      if c.Ok? {
        hide EmitRecord;
        PlainOnlyFull(cap, c.value.table, pos + |c.value.octets|, rrs[1..]);
      }
    }
  }

  /** With copied RDATA throughout the writer always sends the truncated reply, where
      the serializer never sends anything. */
  lemma PlainRecordsDiffer(request: DnsMessage, limit: nat, aa: bool, rcode: ResponseCode, an: seq<Record>,
                           ns: seq<Record>, ar: seq<Record>, edns: Option<Edns>)
    requires 512 <= limit <= 65535 && |request.queries| < TWO_16
    requires NamesOk(request) && NamesOk(Reply(request, aa, rcode, an, ns, ar, edns))
    requires !CountsFit(Reply(request, aa, rcode, an, ns, ar, edns))
    requires QuestionFits(Reply(request, aa, rcode, an, ns, ar, edns), limit) && WireRcode(rcode, edns.Some?).Ok?
    requires PlainRecords(an) && PlainRecords(ns) && PlainRecords(ar)
    ensures RunWriter(request, limit, aa, rcode, an, ns, ar, edns).Ok?
    ensures ToBytesWithin(Reply(request, aa, rcode, an, ns, ar, edns), limit) == Err(TooLong)
  {
    hide EmitBody, EmitQueries, RunWriter, IsName, WireSizeBound, CodeTo, ToBytesWithin, PlainRecords, ToBytes;
    var m := Reply(request, aa, rcode, an, ns, ar, edns);
    var code := WireRcode(rcode, edns.Some?).value;
    TooManyRecords(request, limit, aa, rcode, an, ns, ar, edns);
    PlainBody(m.(edns := None), limit, code);
  }

  lemma PlainBody(m: DnsMessage, cap: nat, code: nat)
    requires NamesOk(m) && m.edns.None? && code < 0x1000 && EmitQueries(cap, EMPTY_TABLE, HEADER_LEN, m.queries).Ok?
    requires PlainRecords(m.answers) && PlainRecords(m.authorities) && PlainRecords(m.additionals)
    ensures EmitBody(cap, m, code).Ok? || EmitBody(cap, m, code) == Err(OutputFull)
  {
    hide EmitQueries, EmitRecords, IsName, PlainRecords;
    var q := EmitQueries(cap, EMPTY_TABLE, HEADER_LEN, m.queries).value;
    var p := HEADER_LEN + |q.octets|;
    PlainOnlyFull(cap, q.table, p, m.answers);
    var an := EmitRecords(cap, q.table, p, m.answers);
    if an.Ok? {
      p := p + |an.value.octets|;
      PlainOnlyFull(cap, an.value.table, p, m.authorities);
      var ns := EmitRecords(cap, an.value.table, p, m.authorities);
      if ns.Ok? {
        PlainOnlyFull(cap, ns.value.table, p + |ns.value.octets|, m.additionals);
      }
    }
  }

  const ADDRESS := Record([0], 1, 0, RecordData(1, [127, 0, 0, 1]))

  /** One such input: 65536 address records in answer to an empty question. */
  lemma ManyAddressesDiffer(request: DnsMessage, limit: nat)
    requires 512 <= limit <= 65535 && request.queries == [] && NamesOk(request)
    ensures var an := seq(TWO_16, _ => ADDRESS);
            && NamesOk(Reply(request, true, NoError, an, [], [], None))
            && RunWriter(request, limit, true, NoError, an, [], [], None).Ok?
            && ToBytesWithin(Reply(request, true, NoError, an, [], [], None), limit).Err?
  {
    hide RunWriter, ToBytesWithin;
    var an := seq(TWO_16, _ => ADDRESS);
    assert IsName([0]);
    PlainRecordsDiffer(request, limit, true, NoError, an, [], [], None);
  }

  // ---- When the limit is not kept

  lemma {:induction false} QueriesTight(cap: nat, more: nat, t: Table, pos: nat, qs: seq<Query>)
    requires Targets(t) && forall i :: 0 <= i < |qs| ==> IsName(qs[i].qname)
    requires EmitQueries(more, t, pos, qs).Ok?
    requires pos + |EmitQueries(more, t, pos, qs).value.octets| <= cap
    ensures EmitQueries(cap, t, pos, qs) == EmitQueries(more, t, pos, qs)
    decreases |qs|
  {
    hide WriteName, Targets, IsName;
    if qs != [] {
      var c := EmitQuery(more, t, pos, qs[0]).value;
      assert EmitQuery(cap, t, pos, qs[0]) == Ok(c);
      QueriesTight(cap, more, c.table, pos + |c.octets|, qs[1..]);
    }
  }

  /** The length of a reply cut to header, question and OPT. */
  lemma TruncatedLength(m: DnsMessage, cap: nat)
    requires NamesOk(m) && NamesOk(Truncate(m)) && ToBytes(cap, Truncate(m)).Ok?
    ensures EmitQueries(cap, EMPTY_TABLE, HEADER_LEN, m.queries).Ok?
    ensures |ToBytes(cap, Truncate(m)).value|
            == HEADER_LEN + |EmitQueries(cap, EMPTY_TABLE, HEADER_LEN, m.queries).value.octets| + OptBound(m.edns)
  {
    hide EmitQueries, IsName, HeaderOctets, OptOctets, CodeTo;
    var q := EmitQueries(cap, EMPTY_TABLE, HEADER_LEN, m.queries).value;
    assert q.octets + [] + [] + [] == q.octets;
  }

  /** A whole message holds at least its header, question and OPT. */
  lemma WholeHoldsQuestion(m: DnsMessage, cap: nat)
    requires NamesOk(m) && ToBytes(cap, m).Ok?
    ensures QuestionFits(m, cap) && |ToBytes(cap, m).value| <= cap
  {
    hide EmitQueries, EmitRecords, IsName, HeaderOctets, OptOctets, CodeTo;
    var code := CodeTo(m.rcode);
    var q := EmitQueries(cap, EMPTY_TABLE, HEADER_LEN, m.queries).value;
    assert |ToBytes(cap, m).value| == HEADER_LEN + |EmitBody(cap, m, code).value|;
    assert |q.octets| + OptBound(m.edns) <= |EmitBody(cap, m, code).value|;
    hide ToBytes, EmitBody, NamesOk;
    BytesFitCap(cap, m);
  }

  /** The reply is over its limit exactly when header, question and OPT alone are. */
  lemma OverLimitIff(m: DnsMessage, limit: nat)
    requires NamesOk(m) && ToBytesWithin(m, limit).Ok?
    ensures |ToBytesWithin(m, limit).value| <= limit <==> QuestionFits(m, limit)
  {
    hide EmitQueries, EmitBody, IsName, WireSizeBound, HeaderOctets, OptOctets, CodeTo, QuestionFits, ToBytes;
    var t := Truncate(m);
    WithinExact(m, limit);
    if ToBytes(limit, m).Ok? {
      WholeHoldsQuestion(m, limit);
    } else {
      hide ToBytesWithin;
      var b := WireSizeBound(t);
      TruncatedLength(m, b);
      OverLimitCut(m, limit, b);
    }
  }

  lemma OverLimitCut(m: DnsMessage, limit: nat, b: nat)
    requires NamesOk(m) && EmitQueries(b, EMPTY_TABLE, HEADER_LEN, m.queries).Ok?
    ensures HEADER_LEN + |EmitQueries(b, EMPTY_TABLE, HEADER_LEN, m.queries).value.octets| + OptBound(m.edns) <= limit
            <==> QuestionFits(m, limit)
  {
    hide EmitQueries, IsName;
    var q := EmitQueries(b, EMPTY_TABLE, HEADER_LEN, m.queries).value;
    if HEADER_LEN + |q.octets| <= limit {
      QueriesTight(limit, b, EMPTY_TABLE, HEADER_LEN, m.queries);
    } else if EmitQueries(limit, EMPTY_TABLE, HEADER_LEN, m.queries).Ok?
              && HEADER_LEN + |EmitQueries(limit, EMPTY_TABLE, HEADER_LEN, m.queries).value.octets| <= limit {
      if b <= limit {
        QueriesSame(b, limit, EMPTY_TABLE, HEADER_LEN, m.queries);
      } else {
        QueriesSame(limit, b, EMPTY_TABLE, HEADER_LEN, m.queries);
      }
    }
  }
}
