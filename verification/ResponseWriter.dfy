/** The reply writer as it runs: an object over the send buffer and a kept
    compressor. */
module ResponseWriters {
  import opened Octets
  import opened Names
  import opened Compression
  import opened NameCompressors
  import opened Codes
  import opened EdnsOptions
  import opened Messages
  import opened Replies
  import opened WriterRefinement
  import opened ReplyHeaders
  import opened Serializer

  // ---- What truncation rewinds to

  ghost predicate Below(t: Table, at: nat) {
    forall i :: 0 <= i < |t.entries| ==> t.entries[i].offset < at
  }

  lemma NameBelow(t: Table, w: bytes, pos: nat)
    requires Targets(t) && IsName(w) && Below(t, pos)
    ensures var c := Compression.WriteName(t, w, pos); Below(c.table, pos + |c.octets|)
  {
    if !IsRoot(w) && MatchEnd(t, w) > 0 {
      CompressionRuns.FreshAscends(w, pos, 0, MatchEnd(t, w));
      hide Fresh, FindMatch;
      CompressionRuns.WriteNameOctets(t, w, pos);
    }
  }

  /** The question's suffixes all lie before its end. */
  lemma {:induction false} QueriesBelow(cap: nat, t: Table, pos: nat, qs: seq<Query>)
    requires Targets(t) && Below(t, pos) && forall i :: 0 <= i < |qs| ==> IsName(qs[i].qname)
    requires EmitQueries(cap, t, pos, qs).Ok?
    ensures var c := EmitQueries(cap, t, pos, qs).value; Below(c.table, pos + |c.octets|)
    decreases |qs|
  {
    hide Compression.WriteName, Targets, IsName;
    if qs != [] {
      NameBelow(t, qs[0].qname, pos);
      var c := EmitQuery(cap, t, pos, qs[0]).value;
      QueriesBelow(cap, c.table, pos + |c.octets|, qs[1..]);
    }
  }

  /** The table divides at `at`: everything recorded before it, then the rest. */
  ghost predicate SplitAt(t: Table, at: nat) {
    forall i, j :: 0 <= i < j < |t.entries| && t.entries[j].offset < at ==> t.entries[i].offset < at
  }

  lemma SplitStays(t: Table, u: Table, at: nat, pos: nat)
    requires SplitAt(t, at) && Extends(t, u, pos) && at <= pos
    ensures SplitAt(u, at)
  {
    forall i, j | 0 <= i < j < |u.entries| && u.entries[j].offset < at
      ensures u.entries[i].offset < at
    {
      assert j < |t.entries| && t.entries[j] == u.entries[j] && t.entries[i] == u.entries[i];
    }
  }

  lemma SplitPartitions(arena: bytes, seen: seq<Suffix>, index: map<nat, nat>, at: nat)
    requires SpansOk(arena, seen) && SplitAt(Table(EntriesOf(arena, seen), index), at)
    ensures Partitioned(seen, at)
  {
    var entries := EntriesOf(arena, seen);
    forall i, j | 0 <= i < j < |seen| && seen[j].offset < at
      ensures seen[i].offset < at
    {
      assert entries[i].offset == seen[i].offset && entries[j].offset == seen[j].offset;
    }
  }

  lemma RewindTargets(t: Table, at: nat)
    requires Targets(t)
    ensures Targets(Compression.Rewind(t, at)) && SplitAt(Compression.Rewind(t, at), at)
  {
  }

  // ---- The octets written so far

  lemma KeptSlice(a: bytes, b: bytes, lo: nat, hi: nat, pos: nat)
    requires Kept(a, b, pos) && lo <= hi <= pos <= |a|
    ensures b[lo..hi] == a[lo..hi]
  {
    assert a[lo..hi] == a[..pos][lo..hi] && b[lo..hi] == b[..pos][lo..hi];
  }

  lemma LandedSlice(a: bytes, b: bytes, lo: nat, pos: nat, octets: bytes, end: nat)
    requires Landed(a, b, pos, octets, Ok(end)) && lo <= pos
    ensures pos + |octets| == end <= |b| && b[lo..end] == a[lo..pos] + octets
  {
    assert b == (a[..pos] + octets) + a[end..];
    assert b[..end] == a[..pos] + octets;
    assert b[lo..end] == b[..end][lo..];
  }

  /** What a write at `pos` leaves of the octets before it, and of the table's
      division at `body`, whether or not it succeeded. */
  lemma Survives(spec: Result<Chunk>, r: Result<nat>, a: bytes, b: bytes, lo: nat, body: nat, pos: nat, t: Table, u: Table)
    requires Emitted(spec, r, a, b, pos, t, u) && lo <= body <= pos <= |a| && SplitAt(t, body)
    requires spec.Ok? ==> Extends(t, spec.value.table, pos) && pos + |spec.value.octets| <= |a|
    ensures |b| == |a| && b[lo..body] == a[lo..body] && b[lo..pos] == a[lo..pos] && SplitAt(u, body)
    ensures match spec
            case Ok(c) => u == c.table && r == Ok(pos + |c.octets|)
                          && b[lo..pos + |c.octets|] == a[lo..pos] + c.octets
            case Err(e) => r == Err(e)
  {
    hide Landed, Kept, SplitAt, Extends;
    if spec.Ok? {
      LandedOutcome(a, b, pos, spec.value.octets, r);
      LandedSlice(a, b, lo, pos, spec.value.octets, r.value);
    }
    assert |b| == |a| by { KeptLength(a, b, pos); }
    KeptSlice(a, b, lo, body, pos);
    KeptSlice(a, b, lo, pos, pos);
    SplitStays(t, u, body, pos);
  }

  lemma KeptLength(a: bytes, b: bytes, pos: nat)
    requires Kept(a, b, pos)
    ensures |b| == |a|
  {
  }

  /** `with_extended_error` (RFC 8914 section 2): the reason joins the option list. */
  function Annotated(edns: Option<Edns>, reason: Option<bytes>): (r: Result<Option<Edns>>) {
    if edns.None? || reason.None? then Ok(edns)
    else if |reason.value| >= TWO_16 then Err(TooLong)
    else
      var option := OptionOctets(EdnsOption(EXTENDED_ERROR, reason.value));
      Ok(Some(edns.value.(rdata := edns.value.rdata + option)))
  }

  /** `finish`, with the reason the writer was given. */
  function FinishReply(w: Writer, id: u16, flags: Flags, rcode: ResponseCode, edns: Option<Edns>,
                       reason: Option<bytes>): (r: Result<bytes>)
    requires Counted(w)
  {
    var code :- WireRcode(rcode, edns.Some?);
    var opt :- Annotated(edns, reason);
    FinishWriter(w, id, flags, rcode, opt)
  }

  /** With an OPT to carry it, the reason goes out as option 15 after the others; without
      one it is dropped. */
  lemma ReasonSent(w: Writer, id: u16, flags: Flags, rcode: ResponseCode, edns: Option<Edns>, reason: bytes)
    requires Counted(w) && WireRcode(rcode, edns.Some?).Ok? && |reason| < TWO_16
    ensures FinishReply(w, id, flags, rcode, edns, Some(reason))
            == FinishWriter(w, id, flags, rcode,
                            match edns
                            case None => None
                            case Some(e) =>
                              Some(e.(rdata := e.rdata + ([0, 15, |reason| / 256, |reason| % 256] + reason))))
  {
    hide FinishWriter, OptionOctets, CodeTo;
    OptionLayout(EdnsOption(EXTENDED_ERROR, reason));
  }

  lemma HeaderOver(a: bytes, b: bytes, header: bytes, r: Result<nat>, pos: nat)
    requires |header| == HEADER_LEN <= pos <= |a| && Landed(a, b, 0, header, r)
    ensures |b| == |a| && b[..pos] == header + a[HEADER_LEN..pos]
  {
    assert b == header + a[HEADER_LEN..];
    assert b[..pos] == header + a[HEADER_LEN..][..pos - HEADER_LEN];
  }

  function Rank(s: Section): nat {
    match s
    case Answer => 1
    case Authority => 2
    case Additional => 3
  }

  class ResponseWriter {
    const out: array<byte>
    const compressor: NameCompressor
    /** The most octets the reply may have. */
    const limit: nat
    /** Where the records begin. */
    const body: nat
    const qd: nat
    const id: u16
    var pos: nat
    var an: nat
    var ns: nat
    var ar: nat
    var section: Section
    var flags: Flags
    var rcode: ResponseCode
    var edns: Option<Edns>
    var extendedError: Option<bytes>
    var truncated: bool

    ghost predicate Shape()
      reads this, compressor
    {
      HEADER_LEN <= body <= pos <= out.Length && compressor.Spans()
    }

    /** The writer this object stands for. */
    ghost function Model(): Writer
      requires Shape()
      reads this, out, compressor
    {
      Writer(out.Length, limit, compressor.Contents(), out[HEADER_LEN..body], out[HEADER_LEN..pos],
             qd, an, ns, ar, truncated)
    }

    ghost predicate Valid()
      reads this, out, compressor
    {
      && Shape() && compressor.Valid() && SplitAt(compressor.Contents(), body)
      && limit <= out.Length && WriterOk(Model())
    }

    /** Stands for `w`, up to a table no longer used once records are dropped. */
    ghost predicate StandsFor(w: Writer)
      requires Shape()
      reads this, out, compressor
    {
      Model() == w.(table := Model().table) && (!truncated ==> Model() == w)
    }

    constructor (out: array<byte>, compressor: NameCompressor, limit: nat, pos: nat, request: DnsMessage)
      ensures this.out == out && this.compressor == compressor && this.limit == limit && body == this.pos == pos
      ensures qd == |request.queries| && an == ns == ar == 0 && !truncated && section == Answer
      ensures id == request.id && flags == ReplyFlags(request, false) && rcode == NoError
      ensures edns == None && extendedError == None
    {
      this.out, this.compressor, this.limit, this.body, this.pos := out, compressor, limit, pos, pos;
      qd, an, ns, ar, truncated, section := |request.queries|, 0, 0, 0, false, Answer;
      id, flags, rcode := request.id, ReplyFlags(request, false), NoError;
      edns, extendedError := None, None;
    }

    /** The writer becomes its `DropRecords`, its table divided at `body`. */
    method Truncate()
      requires Valid()
      modifies this`truncated, this`pos, this`an, this`ns, this`ar, compressor
      ensures Valid() && Model() == DropRecords(old(Model()), Model().table)
    {
      hide Coherent, Targets, Compression.Rewind, SplitAt;
      SplitPartitions(compressor.arena, compressor.seen, compressor.index, body);
      RewindTargets(compressor.Contents(), body);
      truncated, pos, an, ns, ar := true, body, 0, 0, 0;
      compressor.Rewind(body);
    }

    method Tally(sec: Section)
      requires Shape()
      modifies this`an, this`ns, this`ar
      ensures Shape() && Model() == Count(old(Model()), sec)
    {
      match sec
      case Answer => an := an + 1;
      case Authority => ns := ns + 1;
      case Additional => ar := ar + 1;
    }

    /** Write a record past `pos`, without yet counting it in. */
    method Attempt(rr: Record) returns (end: Result<nat>)
      requires Valid() && IsName(rr.name)
      modifies out, compressor
      ensures Valid() && Model() == old(Model()).(table := Model().table)
      ensures match old(EmitRecord(out.Length, compressor.Contents(), pos, rr))
              case Err(e) => end == Err(e)
              case Ok(c) =>
                && end == Ok(pos + |c.octets|) && pos + |c.octets| <= out.Length && compressor.Contents() == c.table
                && out[HEADER_LEN..pos + |c.octets|] == Model().octets + c.octets
      ensures compressor.Contents() == old(TableAfterRecord(out.Length, compressor.Contents(), pos, rr))
    {
      hide Coherent, Targets, SplitAt, EmitRecord, TableAfterRecord, IsName, Landed, Kept, Extends;
      ghost var a, t := out[..], compressor.Contents();
      ghost var spec := EmitRecord(out.Length, t, pos, rr);
      end := WriteRecord(compressor, out, pos, rr);
      if spec.Ok? {
        RecordExtends(out.Length, t, pos, rr);
      }
      Survives(spec, end, a, out[..], HEADER_LEN, body, pos, t, compressor.Contents());
    }

    /** The writer becomes its `PushRecord`: one record longer, or cut, or already cut
        and unchanged. A record that does not encode is an error, and no octet up to
        `pos` changes, but its names stay in the table. */
    method Push(sec: Section, rr: Record) returns (r: Result<()>)
      requires Valid() && IsName(rr.name) && (truncated || Rank(section) <= Rank(sec))
      modifies this`truncated, this`pos, this`an, this`ns, this`ar, this`section, out, compressor
      ensures Valid() && section == if old(truncated) then old(section) else sec
      ensures match PushRecord(old(Model()), sec, rr)
              case Err(e) => r == Err(e) && Model() == AfterFailure(old(Model()), rr)
              case Ok(w) => r.Ok? && StandsFor(w)
    {
      hide Coherent, Targets, SplitAt, EmitRecord, TableAfterRecord, IsName, WriterOk;
      if truncated {
        return Ok(());
      }
      section := sec;
      ghost var w := PushRecord(Model(), sec, rr);
      ghost var spec := EmitRecord(out.Length, compressor.Contents(), pos, rr);
      var end := Attempt(rr);
      if end.Ok? && end.value <= limit {
        Tally(sec);
        pos := end.value;
        assert Model() == w.value;
      } else if end.Ok? || end.error == OutputFull {
        Truncate();
      } else {
        return Err(end.error);
      }
      r := Ok(());
    }

    /** The OPT's octets past `pos`, not yet counted in. */
    method PutOpt(opt: Edns, code: nat) returns (end: Result<nat>)
      requires Valid() && code < 0x1000
      modifies out
      ensures Valid() && Model() == old(Model())
      ensures match EmitOpt(out.Length, pos, opt, code)
              case Err(e) => end == Err(e)
              case Ok(octets) =>
                && end == Ok(pos + |octets|) && pos + |octets| <= out.Length
                && out[HEADER_LEN..pos + |octets|] == Model().octets + octets
    {
      hide Coherent, Targets, SplitAt, EmitOpt, Landed, Kept, WriterOk;
      ghost var a, spec := out[..], EmitOpt(out.Length, pos, opt, code);
      end := WriteOpt(out, pos, opt, code);
      OptSurvives(spec, end, a, out[..], HEADER_LEN, body, pos);
    }

    /** The OPT after everything else, records dropped if that is what it takes. */
    method FinishOpt(opt: Edns, code: nat) returns (r: Result<()>)
      requires Valid() && code < 0x1000
      modifies this`truncated, this`pos, this`an, this`ns, this`ar, out, compressor
      ensures Shape()
      ensures var w := old(Model());
              var first := EmitOpt(w.cap, w.Pos(), opt, code);
              if first.Ok? && w.Pos() + |first.value| <= limit then
                r.Ok? && Model() == w.(ar := w.ar + 1, octets := w.octets + first.value)
              else if first.Ok? || first.error == OutputFull then
                var again := EmitOpt(w.cap, HEADER_LEN + |w.question|, opt, code);
                match again
                case Err(e) => r == Err(e)
                case Ok(octets) =>
                  r.Ok? && Model() == DropRecords(w, Model().table).(ar := 1, octets := w.question + octets)
              else r == Err(first.error)
    {
      hide Coherent, Targets, SplitAt, EmitOpt, WriterOk;
      var end := PutOpt(opt, code);
      if end.Ok? && end.value <= limit {
        pos, ar := end.value, ar + 1;
        return Ok(());
      }
      if end.Err? && end.error != OutputFull {
        return Err(end.error);
      }
      Truncate();
      end := PutOpt(opt, code);
      if end.Err? {
        return Err(end.error);
      }
      pos, ar := end.value, 1;
      r := Ok(());
    }

    /** The OPT and the header; the reply is what `out` then holds up to `pos`. */
    method Finish() returns (r: Result<bytes>)
      requires Valid()
      modifies this`truncated, this`pos, this`an, this`ns, this`ar, this`flags, out, compressor
      ensures r == FinishReply(old(Model()), id, old(flags), rcode, edns, extendedError)
    {
      hide Coherent, Targets, SplitAt, EmitOpt, OptOctets, CodeTo, HeaderOctets, Landed;
      ghost var w := Model();
      var code := WireRcode(rcode, edns.Some?);
      if code.Err? { return Err(code.error); }
      var opt := Annotated(edns, extendedError);
      if opt.Err? { return Err(opt.error); }
      if opt.value.Some? {
        var done := FinishOpt(opt.value.value, code.value);
        if done.Err? { return Err(done.error); }
      }
      flags := flags.(truncation := truncated);
      ghost var a, octets := out[..], out[HEADER_LEN..pos];
      var end := WriteHeader(out, id, flags, code.value, qd, an, ns, ar);
      HeaderOver(a, out[..], HeaderOctets(id, flags, code.value, qd, an, ns, ar), end, pos);
      r := Ok(out[..pos]);
    }
  }

  lemma OptSurvives(spec: Result<bytes>, r: Result<nat>, a: bytes, b: bytes, lo: nat, body: nat, pos: nat)
    requires Put(spec, r, a, b, pos) && lo <= body <= pos <= |a|
    requires spec.Ok? ==> pos + |spec.value| <= |a|
    ensures |b| == |a| && b[lo..body] == a[lo..body] && b[lo..pos] == a[lo..pos]
    ensures match spec
            case Ok(octets) => r == Ok(pos + |octets|) && b[lo..pos + |octets|] == a[lo..pos] + octets
            case Err(e) => r == Err(e)
  {
    hide Landed, Kept;
    if spec.Ok? {
      LandedOutcome(a, b, pos, spec.value, r);
      LandedSlice(a, b, lo, pos, spec.value, r.value);
    }
    KeptLength(a, b, pos);
    KeptSlice(a, b, lo, body, pos);
    KeptSlice(a, b, lo, pos, pos);
  }

  // ---- A whole reply

  /** A writer that holds the request's question and no records. */
  method Start(compressor: NameCompressor, maxLen: nat, request: DnsMessage) returns (r: Result<ResponseWriter>)
    requires NamesOk(request) && maxLen <= MAX_MESSAGE
    modifies compressor
    ensures match StartWriter(request, maxLen)
            case Err(e) => r == Err(e)
            case Ok(w) =>
              && r.Ok? && fresh(r.value) && fresh(r.value.out) && r.value.compressor == compressor
              && r.value.Valid() && r.value.Model() == w
              && r.value.id == request.id && r.value.section == Answer
              && r.value.flags == Flags(true, request.flags.opcode, false, false, request.flags.recursion, false, false, request.flags.cd)
              && r.value.edns == None && r.value.extendedError == None && r.value.rcode == NoError
  {
    hide Coherent, SplitAt, Landed, Kept, EmitQueries, IsName;
    compressor.Clear();
    var cap := Max(maxLen, CLASSIC_UDP_SIZE);
    var out := new byte[cap](i => 0);
    if |request.queries| >= TWO_16 {
      return Err(TooLong);
    }
    ghost var a, q := out[..], EmitQueries(cap, EMPTY_TABLE, HEADER_LEN, request.queries);
    var end := WriteQueries(compressor, out, HEADER_LEN, request.queries);
    if end.Err? {
      return Err(end.error);
    }
    QueriesFitCap(cap, EMPTY_TABLE, HEADER_LEN, request.queries);
    QueriesBelow(cap, EMPTY_TABLE, HEADER_LEN, request.queries);
    LandedOutcome(a, out[..], HEADER_LEN, q.value.octets, end);
    LandedSlice(a, out[..], HEADER_LEN, HEADER_LEN, q.value.octets, end.value);
    assert SplitAt(q.value.table, end.value) by { BelowSplits(q.value.table, end.value); }
    var w := new ResponseWriter(out, compressor, maxLen, end.value, request);
    assert w.Model().octets == [] + q.value.octets == q.value.octets;
    r := Ok(w);
  }

  lemma BelowSplits(t: Table, at: nat)
    requires Below(t, at)
    ensures SplitAt(t, at)
  {
  }

  lemma PushAllStep(w: Writer, sec: Section, rrs: seq<Record>, i: nat)
    requires Targets(w.table) && i < |rrs| && forall j :: 0 <= j < |rrs| ==> IsName(rrs[j].name)
    ensures PushAll(w, sec, rrs[i..])
            == match PushRecord(w, sec, rrs[i])
               case Err(e) => Err(e)
               case Ok(next) => PushAll(next, sec, rrs[i + 1..])
  {
    hide PushRecord, Targets, IsName;
    assert rrs[i..][1..] == rrs[i + 1..];
  }

  /** Records pushed one by one. `w` is the writer the object stands for. */
  method PushSection(writer: ResponseWriter, sec: Section, rrs: seq<Record>, ghost w: Writer) returns (r: Result<()>)
    requires writer.Valid() && writer.StandsFor(w) && Targets(w.table)
    requires forall i :: 0 <= i < |rrs| ==> IsName(rrs[i].name)
    requires Rank(writer.section) <= Rank(sec)
    modifies writer`truncated, writer`pos, writer`an, writer`ns, writer`ar, writer`section, writer.out, writer.compressor
    ensures match PushAll(w, sec, rrs)
            case Err(e) => r == Err(e)
            case Ok(v) => r.Ok? && writer.Valid() && writer.StandsFor(v) && Rank(writer.section) <= Rank(sec)
  {
    hide Coherent, Targets, SplitAt, PushAll, IsName, EmitRecord, TableAfterRecord;
    ghost var v := w;
    assert rrs[0..] == rrs;
    var i := 0;
    while i < |rrs|
      invariant i <= |rrs| && writer.Valid() && writer.StandsFor(v) && Targets(v.table)
      invariant Rank(writer.section) <= Rank(sec)
      invariant PushAll(w, sec, rrs) == PushAll(v, sec, rrs[i..])
    {
      PushAllStep(v, sec, rrs, i);
      ghost var next := PushRecord(v, sec, rrs[i]);
      r := writer.Push(sec, rrs[i]);
      if r.Err? { return; }
      v := next.value;
      i := i + 1;
    }
    assert rrs[i..] == [];
    PushAllNone(v, sec);
    r := Ok(());
  }

  lemma PushAllNone(w: Writer, sec: Section)
    requires Targets(w.table)
    ensures PushAll(w, sec, []) == Ok(w)
  {
  }

  /** The table plays no part in finishing, and no reason adds nothing. */
  lemma FinishIgnoresTable(w: Writer, v: Writer, id: u16, flags: Flags, rcode: ResponseCode, edns: Option<Edns>)
    requires Counted(w) && v == w.(table := v.table)
    ensures FinishReply(v, id, flags, rcode, edns, None) == FinishWriter(w, id, flags, rcode, edns)
  {
    hide EmitOpt, HeaderOctets, CodeTo;
  }

  method PushReply(writer: ResponseWriter, an: seq<Record>, ns: seq<Record>, ar: seq<Record>, ghost w: Writer)
      returns (r: Result<()>)
    requires writer.Valid() && writer.Model() == w && writer.section == Answer
    requires forall i :: 0 <= i < |an| ==> IsName(an[i].name)
    requires forall i :: 0 <= i < |ns| ==> IsName(ns[i].name)
    requires forall i :: 0 <= i < |ar| ==> IsName(ar[i].name)
    modifies writer`truncated, writer`pos, writer`an, writer`ns, writer`ar, writer`section, writer.out, writer.compressor
    ensures match PushSections(w, an, ns, ar)
            case Err(e) => r == Err(e)
            case Ok(v) => r.Ok? && writer.Valid() && writer.StandsFor(v)
  {
    hide Coherent, Targets, SplitAt, PushAll, IsName;
    ghost var w1 := PushAll(w, Answer, an);
    r := PushSection(writer, Answer, an, w);
    if r.Err? { return; }
    ghost var w2 := PushAll(w1.value, Authority, ns);
    r := PushSection(writer, Authority, ns, w1.value);
    if r.Err? { return; }
    r := PushSection(writer, Additional, ar, w2.value);
  }

  /** The records and the end of a reply that `writer` has begun. */
  method Complete(writer: ResponseWriter, flags: Flags, rcode: ResponseCode, edns: Option<Edns>, an: seq<Record>,
                  ns: seq<Record>, ar: seq<Record>, ghost w: Writer) returns (r: Result<bytes>)
    requires writer.Valid() && writer.Model() == w && writer.section == Answer && writer.extendedError == None
    requires forall i :: 0 <= i < |an| ==> IsName(an[i].name)
    requires forall i :: 0 <= i < |ns| ==> IsName(ns[i].name)
    requires forall i :: 0 <= i < |ar| ==> IsName(ar[i].name)
    modifies writer, writer.out, writer.compressor
    ensures match PushSections(w, an, ns, ar)
            case Err(e) => r == Err(e)
            case Ok(v) => Counted(v) && r == FinishWriter(v, writer.id, flags, rcode, edns)
  {
    hide Coherent, Targets, SplitAt, PushSections, IsName, FinishWriter;
    ghost var v := PushSections(w, an, ns, ar);
    var pushed := PushReply(writer, an, ns, ar, w);
    if pushed.Err? { return Err(pushed.error); }
    FinishIgnoresTable(v.value, writer.Model(), writer.id, flags, rcode, edns);
    hide FinishReply;
    writer.flags, writer.rcode, writer.edns := flags, rcode, edns;
    r := writer.Finish();
  }

  method RunReply(compressor: NameCompressor, request: DnsMessage, limit: nat, aa: bool, rcode: ResponseCode,
                  an: seq<Record>, ns: seq<Record>, ar: seq<Record>, edns: Option<Edns>)
      returns (r: Result<bytes>)
    requires limit <= MAX_MESSAGE
    requires NamesOk(request) && NamesOk(Reply(request, aa, rcode, an, ns, ar, edns))
    modifies compressor
    ensures r == RunWriter(request, limit, aa, rcode, an, ns, ar, edns)
  {
    hide Coherent, Targets, SplitAt, PushSections, IsName, FinishWriter, StartWriter, WriterOk;
    ghost var w := StartWriter(request, limit);
    var started := Start(compressor, limit, request);
    if started.Err? { return Err(started.error); }
    r := Complete(started.value, ReplyFlags(request, aa), rcode, edns, an, ns, ar, w.value);
  }

  /** A whole reply through the object: exactly what the writer's specification
      gives, and so exactly what `to_bytes_within` gives for the same reply. */
  method WriteReply(compressor: NameCompressor, request: DnsMessage, limit: nat, aa: bool, rcode: ResponseCode,
                    an: seq<Record>, ns: seq<Record>, ar: seq<Record>, edns: Option<Edns>)
      returns (r: Result<bytes>)
    requires limit <= MAX_MESSAGE
    requires NamesOk(request) && NamesOk(Reply(request, aa, rcode, an, ns, ar, edns))
    modifies compressor
    ensures r == RunWriter(request, limit, aa, rcode, an, ns, ar, edns)
    ensures WireRcode(rcode, edns.Some?).Ok? && 512 <= limit ==>
      var reply := Reply(request, aa, rcode, an, ns, ar, edns);
      CountsFit(reply) && QuestionFits(reply, limit) ==> r == ToBytesWithin(reply, limit)
    ensures r.Ok? ==> && SaysReply(r.value, request, aa, rcode)
                      && SaysWhole(r.value, |request.queries|, |an|, |ns|, |ar|, if edns.Some? then 1 else 0)
  {
    assert limit <= 65535;
    hide *;
    r := RunReply(compressor, request, limit, aa, rcode, an, ns, ar, edns);
    WriterSays(request, limit, aa, rcode, an, ns, ar, edns);
    ghost var reply := Reply(request, aa, rcode, an, ns, ar, edns);
    if 512 <= limit && CountsFit(reply) && QuestionFits(reply, limit) {
      WriterRefines(request, limit, aa, rcode, an, ns, ar, edns);
    }
  }
}
