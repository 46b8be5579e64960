/** `to_bytes_with` and `to_bytes_within_buf_with` as they run, over the caller's
    buffer and compressor. */
module MessageWriter {
  import opened Octets
  import opened Names
  import opened Compression
  import opened NameCompressors
  import opened Codes
  import opened Messages
  import opened SizeBound
  import opened Replies
  import opened Serializer

  /** One more section, written where the last one ended. */
  method WriteSection(nc: NameCompressor, buf: array<byte>, ghost a: bytes, ghost done: bytes, pos: nat, rrs: seq<Record>)
      returns (r: Result<nat>)
    requires nc.Valid() && forall i :: 0 <= i < |rrs| ==> IsName(rrs[i].name)
    requires HEADER_LEN + |done| == pos <= buf.Length && Landed(a, buf[..], HEADER_LEN, done, Ok(pos))
    modifies nc, buf
    ensures nc.Valid()
    ensures match old(EmitRecords(buf.Length, nc.Contents(), pos, rrs))
            case Err(e) => r == Err(e)
            case Ok(c) => && nc.Contents() == c.table && r == Ok(pos + |c.octets|) && pos + |c.octets| <= buf.Length
                          && Landed(a, buf[..], HEADER_LEN, done + c.octets, r)
  {
    hide EmitRecords, Landed, Targets, Coherent, IsName, Extends, Kept;
    ghost var b := buf[..];
    ghost var spec := EmitRecords(buf.Length, nc.Contents(), pos, rrs);
    r := WriteRecords(nc, buf, pos, rrs);
    if r.Ok? {
      LandedOutcome(b, buf[..], pos, spec.value.octets, r);
      LandedTwice(a, b, buf[..], HEADER_LEN, done, spec.value.octets, r);
    }
  }

  /** Everything after the header. */
  method WriteBody(nc: NameCompressor, buf: array<byte>, m: DnsMessage, rcode: nat) returns (r: Result<nat>)
    requires NamesOk(m) && rcode < 0x1000 && HEADER_LEN <= buf.Length
    requires nc.Valid() && nc.Contents() == EMPTY_TABLE
    modifies nc, buf
    ensures nc.Valid()
    ensures match EmitBody(buf.Length, m, rcode)
            case Err(e) => r == Err(e)
            case Ok(body) => r.Ok? && Landed(old(buf[..]), buf[..], HEADER_LEN, body, r)
  {
    hide EmitRecords, EmitQueries, EmitOpt, Landed, Coherent, IsName, Extends, Kept;
    ghost var a, cap := buf[..], buf.Length;
    ghost var q := EmitQueries(cap, EMPTY_TABLE, HEADER_LEN, m.queries);
    r := WriteQueries(nc, buf, HEADER_LEN, m.queries);
    if r.Err? { return; }
    ghost var done := q.value.octets;
    LandedOutcome(a, buf[..], HEADER_LEN, done, r);

    ghost var an := EmitRecords(cap, q.value.table, HEADER_LEN + |done|, m.answers);
    r := WriteSection(nc, buf, a, done, r.value, m.answers);
    if r.Err? { return; }
    done := done + an.value.octets;

    ghost var ns := EmitRecords(cap, an.value.table, HEADER_LEN + |done|, m.authorities);
    r := WriteSection(nc, buf, a, done, r.value, m.authorities);
    if r.Err? { return; }
    done := done + ns.value.octets;

    ghost var ar := EmitRecords(cap, ns.value.table, HEADER_LEN + |done|, m.additionals);
    r := WriteSection(nc, buf, a, done, r.value, m.additionals);
    if r.Err? { return; }
    done := done + ar.value.octets;

    if m.edns.Some? {
      ghost var b, opt := buf[..], EmitOpt(cap, HEADER_LEN + |done|, m.edns.value, rcode);
      r := WriteOpt(buf, r.value, m.edns.value, rcode);
      if r.Ok? {
        LandedTwice(a, b, buf[..], HEADER_LEN, done, opt.value, r);
      }
    }
  }

  lemma LandedAtStart(before: bytes, after: bytes, octets: bytes, r: Result<nat>)
    requires Landed(before, after, 0, octets, r) && r.Ok?
    ensures r == Ok(|octets|) && |octets| <= |after| && after[..|octets|] == octets
  {
    assert before[..0] + octets == octets;
  }

  /** `to_bytes_with`: exactly the octets, and the errors, of the simple form. */
  method ToBytesWith(m: DnsMessage, buf: array<byte>, nc: NameCompressor) returns (r: Result<nat>)
    requires NamesOk(m)
    modifies nc, buf
    ensures nc.Valid()
    ensures match ToBytes(buf.Length, m)
            case Err(e) => r == Err(e)
            case Ok(octets) => r == Ok(|octets|) && |octets| <= buf.Length && buf[..|octets|] == octets
  {
    hide EmitBody, Landed, Coherent, IsName, CodeTo, HeaderOctets;
    nc.Clear();
    var rcode := WireRcode(m.rcode, m.edns.Some?);
    if rcode.Err? { return Err(rcode.error); }
    if !CountsFit(m) { return Err(TooLong); }
    ghost var a, header := buf[..], MessageHeader(m, rcode.value);
    r := WriteHeader(buf, m.id, m.flags, rcode.value, |m.queries|, |m.answers|, |m.authorities|, ArCount(m));
    LandedOutcome(a, buf[..], 0, header, r);
    if r.Err? { return; }
    ghost var b, body := buf[..], EmitBody(buf.Length, m, rcode.value);
    r := WriteBody(nc, buf, m, rcode.value);
    if r.Err? { return; }
    LandedTwice(a, b, buf[..], 0, header, body.value, r);
    LandedAtStart(a, buf[..], header + body.value, r);
  }

  /** `to_bytes_within_buf_with`. */
  method ToBytesWithinBuf(m: DnsMessage, maxLen: nat, nc: NameCompressor) returns (out: Result<bytes>)
    requires NamesOk(m)
    modifies nc
    ensures out == ToBytesWithin(m, maxLen)
  {
    hide ToBytes, WireSizeBound, IsName;
    var bound := ComputeWireSizeBound(m);
    var scratch := Min(bound, maxLen);
    var buf := new byte[scratch](i => 0);
    var wrote := ToBytesWith(m, buf, nc);
    if scratch < maxLen && wrote == Err(OutputFull) {
      buf := new byte[maxLen](i => 0);
      wrote := ToBytesWith(m, buf, nc);
    }
    if wrote.Ok? && wrote.value <= maxLen {
      return Ok(buf[..wrote.value]);
    }
    if wrote.Err? && wrote.error != OutputFull {
      return Err(wrote.error);
    }
    var truncated := Truncate(m);
    bound := ComputeWireSizeBound(truncated);
    buf := new byte[Max(bound, Min(maxLen, CLASSIC_UDP_SIZE))](i => 0);
    wrote := ToBytesWith(truncated, buf, nc);
    out := if wrote.Ok? then Ok(buf[..wrote.value]) else Err(wrote.error);
  }
}
