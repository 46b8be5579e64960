/** What the header of a reply says, on the octets that are sent. */
module ReplyHeaders {
  import opened Octets
  import opened Names
  import opened Compression
  import opened Codes
  import opened Messages
  import opened MessageRoundTrip
  import opened SizeBound
  import opened Replies
  import opened WriterRefinement
  import opened WireLayout

  /** The counts of a whole reply, or of one cut to its question and OPT. */
  ghost predicate SaysCounts(octets: bytes, cut: bool, qd: nat, an: nat, ns: nat, ar: nat, opt: nat)
    requires |octets| >= 12
  {
    && Word(octets, 4) == qd
    && Word(octets, 6) == (if cut then 0 else an) && Word(octets, 8) == (if cut then 0 else ns)
    && Word(octets, 10) == (if cut then 0 else ar) + opt
  }

  /** A reply to `request`: QR set, its identifier, opcode, RD and CD echoed, AA as
      decided, RA and AD clear. */
  ghost predicate SaysReply(octets: bytes, request: DnsMessage, aa: bool, rcode: ResponseCode) {
    && |octets| >= 12 && Word(octets, 0) == request.id
    && BitAt(octets[2], 7) && octets[2] / 8 % 16 == OpTo(request.flags.opcode) % 16
    && BitAt(octets[2], 2) == aa && BitAt(octets[2], 0) == request.flags.recursion
    && !BitAt(octets[3], 7) && !BitAt(octets[3], 5) && BitAt(octets[3], 4) == request.flags.cd
    && octets[3] % 16 == CodeTo(rcode) % 16
  }

  /** TC set with nothing but question and OPT counted, or clear with everything. */
  ghost predicate SaysWhole(octets: bytes, qd: nat, an: nat, ns: nat, ar: nat, opt: nat) {
    |octets| >= 12 && SaysCounts(octets, BitAt(octets[2], 1), qd, an, ns, ar, opt)
  }

  lemma HeaderSays(id: u16, f: Flags, rcode: nat, qd: u16, an: u16, ns: u16, ar: u16, body: bytes)
    ensures var x := HeaderOctets(id, f, rcode, qd, an, ns, ar) + body;
            && |x| >= 12 && Word(x, 0) == id
            && BitAt(x[2], 7) == f.response && x[2] / 8 % 16 == OpTo(f.opcode) % 16
            && BitAt(x[2], 2) == f.authoritative && BitAt(x[2], 1) == f.truncation && BitAt(x[2], 0) == f.recursion
            && BitAt(x[3], 7) == f.recursionOk && BitAt(x[3], 5) == f.ad && BitAt(x[3], 4) == f.cd
            && x[3] % 16 == rcode % 16
            && Word(x, 4) == qd && Word(x, 6) == an && Word(x, 8) == ns && Word(x, 10) == ar
  {
    hide HeaderOctets, OpTo, ReadU16, FlagOctets, BitAt, Word;
    var x := HeaderOctets(id, f, rcode, qd, an, ns, ar) + body;
    HeaderReads(id, f, rcode, qd, an, ns, ar, body);
    FlagsSay(f, rcode);
    Numbers(x, 0);
    Numbers(x, 4);
    Numbers(x, 6);
    Numbers(x, 8);
    Numbers(x, 10);
  }

  lemma FlagsSay(f: Flags, rcode: nat)
    ensures var o := FlagOctets(f, rcode);
            && BitAt(o[0], 7) == f.response && o[0] / 8 % 16 == OpTo(f.opcode) % 16
            && BitAt(o[0], 2) == f.authoritative && BitAt(o[0], 1) == f.truncation && BitAt(o[0], 0) == f.recursion
            && BitAt(o[1], 7) == f.recursionOk && BitAt(o[1], 5) == f.ad && BitAt(o[1], 4) == f.cd
            && o[1] % 16 == rcode % 16
  {
    hide OpTo, Bit;
    HighFlags(f, OpTo(f.opcode) % 16);
    LowFlags(f, rcode % 16);
    BitHalf(f.response);
  }

  /** The header of a reply, cut or whole. */
  lemma ReplySays(request: DnsMessage, aa: bool, rcode: ResponseCode, cut: bool, qd: u16, an: nat, ns: nat, ar: nat,
                  opt: nat, body: bytes)
    requires (cut || (an < TWO_16 && ns < TWO_16)) && (if cut then 0 else ar) + opt < TWO_16
    ensures var f := ReplyFlags(request, aa).(truncation := cut);
            var x := HeaderOctets(request.id, f, CodeTo(rcode), qd, if cut then 0 else an, if cut then 0 else ns,
                                  (if cut then 0 else ar) + opt) + body;
            SaysReply(x, request, aa, rcode) && SaysWhole(x, qd, an, ns, ar, opt)
  {
    hide HeaderOctets, CodeTo, OpTo, BitAt, Word;
    HeaderSays(request.id, ReplyFlags(request, aa).(truncation := cut), CodeTo(rcode), qd, if cut then 0 else an,
               if cut then 0 else ns, (if cut then 0 else ar) + opt, body);
  }

  // ---- The streaming writer

  /** What the pushes have counted: everything, or nothing once the reply is cut. */
  ghost predicate Tallied(w: Writer, qd: nat, an: nat, ns: nat, ar: nat) {
    w.qd == qd && if w.truncated then w.an == w.ns == w.ar == 0 else w.an == an && w.ns == ns && w.ar == ar
  }

  lemma {:induction false} PushAllTallies(w: Writer, section: Section, rrs: seq<Record>, qd: nat, an: nat, ns: nat, ar: nat)
    requires Targets(w.table) && (forall i :: 0 <= i < |rrs| ==> IsName(rrs[i].name)) && Tallied(w, qd, an, ns, ar)
    ensures var r, n := PushAll(w, section, rrs), |rrs|;
            r.Ok? ==> match section
                      case Answer => Tallied(r.value, qd, an + n, ns, ar)
                      case Authority => Tallied(r.value, qd, an, ns + n, ar)
                      case Additional => Tallied(r.value, qd, an, ns, ar + n)
    decreases |rrs|
  {
    hide EmitRecord, Targets, IsName;
    if rrs != [] {
      var next := PushRecord(w, section, rrs[0]);
      if next.Ok? {
        match section
        case Answer => PushAllTallies(next.value, section, rrs[1..], qd, an + 1, ns, ar);
        case Authority => PushAllTallies(next.value, section, rrs[1..], qd, an, ns + 1, ar);
        case Additional => PushAllTallies(next.value, section, rrs[1..], qd, an, ns, ar + 1);
      }
    }
  }

  lemma SectionsTally(w: Writer, an: seq<Record>, ns: seq<Record>, ar: seq<Record>)
    requires Targets(w.table) && (forall i :: 0 <= i < |an| ==> IsName(an[i].name))
    requires (forall i :: 0 <= i < |ns| ==> IsName(ns[i].name)) && (forall i :: 0 <= i < |ar| ==> IsName(ar[i].name))
    requires !w.truncated && w.an == w.ns == w.ar == 0
    ensures var r := PushSections(w, an, ns, ar); r.Ok? ==> Tallied(r.value, w.qd, |an|, |ns|, |ar|)
  {
    hide PushAll, Targets, IsName;
    PushAllTallies(w, Answer, an, w.qd, 0, 0, 0);
    var w1 := PushAll(w, Answer, an);
    if w1.Ok? {
      PushAllTallies(w1.value, Authority, ns, w.qd, |an|, 0, 0);
      var w2 := PushAll(w1.value, Authority, ns);
      if w2.Ok? {
        PushAllTallies(w2.value, Additional, ar, w.qd, |an|, |ns|, 0);
      }
    }
  }

  lemma FinishSays(w: Writer, request: DnsMessage, aa: bool, rcode: ResponseCode, edns: Option<Edns>, an: nat, ns: nat, ar: nat)
    requires Counted(w) && Tallied(w, w.qd, an, ns, ar)
    ensures var r := FinishWriter(w, request.id, ReplyFlags(request, aa), rcode, edns);
            r.Ok? ==> && SaysReply(r.value, request, aa, rcode)
                      && SaysWhole(r.value, w.qd, an, ns, ar, if edns.Some? then 1 else 0)
  {
    hide HeaderOctets, EmitOpt, CodeTo, ReplyFlags, SaysReply, SaysWhole;
    var code := WireRcode(rcode, edns.Some?);
    if code.Ok? {
      if edns.None? {
        ReplySays(request, aa, rcode, w.truncated, w.qd, an, ns, ar, 0, w.octets);
      } else {
        var opt := EmitOpt(w.cap, w.Pos(), edns.value, code.value);
        if opt.Ok? {
          ReplySays(request, aa, rcode, w.truncated, w.qd, an, ns, ar, 1, w.octets + opt.value);
        }
        var again := EmitOpt(w.cap, DropRecords(w, w.table).Pos(), edns.value, code.value);
        if again.Ok? {
          ReplySays(request, aa, rcode, true, w.qd, an, ns, ar, 1, w.question + again.value);
        }
      }
    }
  }

  /** Whatever the writer answers, its header says so. */
  lemma WriterSays(request: DnsMessage, limit: nat, aa: bool, rcode: ResponseCode, an: seq<Record>,
                   ns: seq<Record>, ar: seq<Record>, edns: Option<Edns>)
    requires NamesOk(Reply(request, aa, rcode, an, ns, ar, edns)) && NamesOk(request) && limit <= MAX_MESSAGE
    ensures var r := RunWriter(request, limit, aa, rcode, an, ns, ar, edns);
            r.Ok? ==> && SaysReply(r.value, request, aa, rcode)
                      && SaysWhole(r.value, |request.queries|, |an|, |ns|, |ar|, if edns.Some? then 1 else 0)
  {
    hide EmitQueries, PushSections, FinishWriter, IsName, SaysReply, SaysWhole, Tallied;
    var w0 := StartWriter(request, limit);
    if w0.Ok? {
      SectionsTally(w0.value, an, ns, ar);
      var w := PushSections(w0.value, an, ns, ar);
      if w.Ok? {
        QuestionsCounted(w0.value, w.value, request, an, ns, ar);
        FinishSays(w.value, request, aa, rcode, edns, |an|, |ns|, |ar|);
      }
    }
  }

  lemma QuestionsCounted(w0: Writer, w: Writer, request: DnsMessage, an: seq<Record>, ns: seq<Record>, ar: seq<Record>)
    requires w0.qd == |request.queries| && Tallied(w, w0.qd, |an|, |ns|, |ar|)
    ensures w.qd == |request.queries| && Tallied(w, w.qd, |an|, |ns|, |ar|)
  {
  }

  // ---- The simple serializer

  lemma BytesSay(cap: nat, m: DnsMessage)
    requires NamesOk(m) && ToBytes(cap, m).Ok?
    ensures var x := ToBytes(cap, m).value;
            && |x| >= 12 && Word(x, 0) == m.id
            && BitAt(x[2], 7) == m.flags.response && x[2] / 8 % 16 == OpTo(m.flags.opcode) % 16
            && BitAt(x[2], 2) == m.flags.authoritative && BitAt(x[2], 1) == m.flags.truncation && BitAt(x[2], 0) == m.flags.recursion
            && BitAt(x[3], 7) == m.flags.recursionOk && BitAt(x[3], 5) == m.flags.ad && BitAt(x[3], 4) == m.flags.cd
            && x[3] % 16 == CodeTo(m.rcode) % 16
            && Word(x, 4) == |m.queries| && Word(x, 6) == |m.answers| && Word(x, 8) == |m.authorities|
            && Word(x, 10) == |m.additionals| + if m.edns.Some? then 1 else 0
  {
    hide HeaderOctets, EmitBody, CodeTo, OpTo, BitAt, Word, IsName;
    var code := WireRcode(m.rcode, m.edns.Some?).value;
    HeaderSays(m.id, m.flags, code, |m.queries|, |m.answers|, |m.authorities|, ArCount(m), EmitBody(cap, m, code).value);
  }

  /** So does the header of `to_bytes_within` on the same reply; and TC is set exactly
      when the whole of it found no room in the limit. */
  lemma WithinSays(request: DnsMessage, limit: nat, aa: bool, rcode: ResponseCode, an: seq<Record>,
                   ns: seq<Record>, ar: seq<Record>, edns: Option<Edns>)
    requires NamesOk(Reply(request, aa, rcode, an, ns, ar, edns))
    ensures var m := Reply(request, aa, rcode, an, ns, ar, edns);
            var r := ToBytesWithin(m, limit);
            r.Ok? ==> && SaysReply(r.value, request, aa, rcode)
                      && SaysWhole(r.value, |request.queries|, |an|, |ns|, |ar|, if edns.Some? then 1 else 0)
                      && (BitAt(r.value[2], 1) <==> ToBytes(limit, m) == Err(OutputFull))
  {
    hide ToBytes, ToBytesWithin, WireSizeBound, CodeTo, OpTo, BitAt, Word, IsName;
    var m := Reply(request, aa, rcode, an, ns, ar, edns);
    WithinExact(m, limit);
    var t := Truncate(m);
    if ToBytes(limit, m) == Err(OutputFull) {
      if ToBytes(WireSizeBound(t), t).Ok? {
        BytesSay(WireSizeBound(t), t);
      }
    } else if ToBytes(limit, m).Ok? {
      BytesSay(limit, m);
    }
  }
}
