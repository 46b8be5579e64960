/** The two ways a reply reaches the wire: built as a message and serialized within
    a limit, or written record by record into the send buffer. */
module Replies {
  import opened Octets
  import opened Names
  import opened Compression
  import opened Codes
  import opened Messages
  import opened SizeBound

  const CLASSIC_UDP_SIZE := 512
  const MAX_MESSAGE := 65535

  function Min(a: nat, b: nat): nat { if a <= b then a else b }
  function Max(a: nat, b: nat): nat { if a <= b then b else a }

  // ---- Build, then serialize

  /** TC set, every record dropped, question and OPT kept (RFC 1035 section 4.2.1). */
  function Truncate(m: DnsMessage): DnsMessage {
    m.(flags := m.flags.(truncation := true), answers := [], authorities := [], additionals := [])
  }

  /** `to_bytes_within`: one pass into a buffer sized to the message, a second in
      case the size estimate was wrong, and the truncated form if it does not fit. */
  function ToBytesWithin(m: DnsMessage, maxLen: nat): (r: Result<bytes>)
    requires NamesOk(m)
  {
    var scratch := Min(WireSizeBound(m), maxLen);
    var first := ToBytes(scratch, m);
    var wrote := if scratch < maxLen && first == Err(OutputFull) then ToBytes(maxLen, m) else first;
    if wrote.Ok? && |wrote.value| <= maxLen then wrote
    else if wrote.Err? && wrote.error != OutputFull then wrote
    else
      var t := Truncate(m);
      ToBytes(Max(WireSizeBound(t), Min(maxLen, CLASSIC_UDP_SIZE)), t)
  }

  // ---- Write as records are found

  lemma QueriesFitCap(cap: nat, t: Table, pos: nat, qs: seq<Query>)
    requires Targets(t) && forall i :: 0 <= i < |qs| ==> IsName(qs[i].qname)
    requires pos <= cap && EmitQueries(cap, t, pos, qs).Ok?
    ensures pos + |EmitQueries(cap, t, pos, qs).value.octets| <= cap
    decreases |qs|
  {
    hide EmitQuery, Targets, IsName;
    if qs != [] {
      var c := EmitQuery(cap, t, pos, qs[0]).value;
      QueriesFitCap(cap, c.table, pos + |c.octets|, qs[1..]);
    }
  }

  datatype Section = Answer | Authority | Additional

  /** A `ResponseWriter` over a buffer of `cap` octets: `question` is what truncation
      goes back to, `octets` everything after the header. */
  datatype Writer = Writer(cap: nat, limit: nat, table: Table, question: bytes, octets: bytes,
                           qd: nat, an: nat, ns: nat, ar: nat, truncated: bool) {
    function Pos(): nat { HEADER_LEN + |octets| }
  }

  /** Kept by every writer operation when the limit is a message's: the counts
      cannot overflow, since every record takes octets. */
  predicate WriterOk(w: Writer) {
    && Targets(w.table) && w.cap <= MAX_MESSAGE && w.qd < TWO_16
    && w.Pos() <= w.cap && HEADER_LEN + |w.question| <= w.cap
    && w.an + w.ns + w.ar <= |w.octets|
  }

  function StartWriter(request: DnsMessage, maxLen: nat): (r: Result<Writer>)
    requires NamesOk(request)
    ensures r.Ok? ==> Targets(r.value.table) && !r.value.truncated
    ensures r.Ok? && maxLen <= MAX_MESSAGE ==> WriterOk(r.value)
  {
    var cap := Max(maxLen, CLASSIC_UDP_SIZE);
    if |request.queries| >= TWO_16 then Err(TooLong)
    else
      var q :- EmitQueries(cap, EMPTY_TABLE, HEADER_LEN, request.queries);
      QueriesFitCap(cap, EMPTY_TABLE, HEADER_LEN, request.queries);
      Ok(Writer(cap, maxLen, q.table, q.octets, q.octets, |request.queries|, 0, 0, 0, false))
  }

  /** The reply cut to its question, with TC set and no record counted. */
  function DropRecords(w: Writer, table: Table): Writer {
    w.(table := table, octets := w.question, an := 0, ns := 0, ar := 0, truncated := true)
  }

  function Count(w: Writer, section: Section): Writer {
    match section
    case Answer => w.(an := w.an + 1)
    case Authority => w.(ns := w.ns + 1)
    case Additional => w.(ar := w.ar + 1)
  }

  /** `push`. What the table holds after truncation no longer matters to the
      octets; the specification keeps what it held before the push. */
  function PushRecord(w: Writer, section: Section, rr: Record): (r: Result<Writer>)
    requires Targets(w.table) && IsName(rr.name)
    ensures r.Ok? ==> Targets(r.value.table)
    ensures r.Ok? && WriterOk(w) ==> WriterOk(r.value)
  {
    if w.truncated then Ok(w)
    else match EmitRecord(w.cap, w.table, w.Pos(), rr)
      case Ok(c) =>
        if w.Pos() + |c.octets| <= w.limit
        then Ok(Count(w, section).(table := c.table, octets := w.octets + c.octets))
        else Ok(DropRecords(w, w.table))
      case Err(e) => if e == OutputFull then Ok(DropRecords(w, w.table)) else Err(e)
  }

  /** The writer a record that does not encode leaves. */
  function AfterFailure(w: Writer, rr: Record): (v: Writer)
    requires Targets(w.table) && IsName(rr.name)
    ensures Targets(v.table)
  {
    w.(table := TableAfterRecord(w.cap, w.table, w.Pos(), rr))
  }

  function PushAll(w: Writer, section: Section, rrs: seq<Record>): (r: Result<Writer>)
    requires Targets(w.table) && forall i :: 0 <= i < |rrs| ==> IsName(rrs[i].name)
    ensures r.Ok? ==> Targets(r.value.table)
    ensures r.Ok? && WriterOk(w) ==> WriterOk(r.value)
    decreases |rrs|
  {
    if rrs == [] then Ok(w)
    else
      var next :- PushRecord(w, section, rrs[0]);
      PushAll(next, section, rrs[1..])
  }

  predicate Counted(w: Writer) {
    w.qd < TWO_16 && w.an < TWO_16 && w.ns < TWO_16 && w.ar < TWO_16 - 1
  }

  function ReplyHeader(w: Writer, id: u16, flags: Flags, rcode: nat): (r: bytes)
    requires w.qd < TWO_16 && w.an < TWO_16 && w.ns < TWO_16 && w.ar < TWO_16
    ensures |r| == HEADER_LEN
  {
    HeaderOctets(id, flags.(truncation := w.truncated), rcode, w.qd, w.an, w.ns, w.ar)
  }

  /** `finish`: the OPT, then the header over its placeholder. */
  function FinishWriter(w: Writer, id: u16, flags: Flags, rcode: ResponseCode, edns: Option<Edns>): (r: Result<bytes>)
    requires Counted(w)
  {
    var code :- WireRcode(rcode, edns.Some?);
    if edns.None? then Ok(ReplyHeader(w, id, flags, code) + w.octets)
    else
      var opt := EmitOpt(w.cap, w.Pos(), edns.value, code);
      if opt.Ok? && w.Pos() + |opt.value| <= w.limit then
        Ok(ReplyHeader(w.(ar := w.ar + 1), id, flags, code) + (w.octets + opt.value))
      else if opt.Ok? || opt.error == OutputFull then
        var d := DropRecords(w, w.table);
        var again :- EmitOpt(d.cap, d.Pos(), edns.value, code);
        Ok(ReplyHeader(d.(ar := 1), id, flags, code) + (d.octets + again))
      else Err(opt.error)
  }

  /** `reply_to`, with what the answering path decides: AA, RCODE, records, OPT. */
  function Reply(request: DnsMessage, aa: bool, rcode: ResponseCode, an: seq<Record>, ns: seq<Record>,
                 ar: seq<Record>, edns: Option<Edns>): DnsMessage {
    DnsMessage(request.id, ReplyFlags(request, aa), rcode, request.queries, an, ns, ar, edns)
  }

  function ReplyFlags(request: DnsMessage, aa: bool): Flags {
    Flags(true, request.flags.opcode, aa, false, request.flags.recursion, false, false, request.flags.cd)
  }

  /** Records pushed in section order. */
  function PushSections(w: Writer, an: seq<Record>, ns: seq<Record>, ar: seq<Record>): (r: Result<Writer>)
    requires Targets(w.table) && forall i :: 0 <= i < |an| ==> IsName(an[i].name)
    requires forall i :: 0 <= i < |ns| ==> IsName(ns[i].name)
    requires forall i :: 0 <= i < |ar| ==> IsName(ar[i].name)
    ensures r.Ok? && WriterOk(w) ==> WriterOk(r.value)
  {
    var w1 :- PushAll(w, Answer, an);
    var w2 :- PushAll(w1, Authority, ns);
    PushAll(w2, Additional, ar)
  }

  /** A whole reply through the writer. */
  function RunWriter(request: DnsMessage, limit: nat, aa: bool, rcode: ResponseCode, an: seq<Record>,
                     ns: seq<Record>, ar: seq<Record>, edns: Option<Edns>): (r: Result<bytes>)
    requires NamesOk(Reply(request, aa, rcode, an, ns, ar, edns)) && NamesOk(request)
    requires limit <= MAX_MESSAGE
  {
    var w0 :- StartWriter(request, limit);
    var w :- PushSections(w0, an, ns, ar);
    FinishWriter(w, request.id, ReplyFlags(request, aa), rcode, edns)
  }
}
