/** Names and RDATA written with compression into a message come back out of it. */
module RdataRoundTrip {
  import opened Octets
  import opened Names
  import opened DName
  import opened Compression
  import opened CompressionSoundness
  import opened CompressionRuns
  import opened Emission
  import opened Records
  import opened NormalForm

  /** The decoder's hop cap makes 50 labels the bound for a compressed name. */
  predicate ShortName(w: bytes) {
    IsName(w) && LabelCount(w, 0) <= MAX_DEPTH
  }

  predicate Compressible(rtype: u16) {
    rtype == NS || rtype == CNAME || rtype == PTR
  }

  /** The names of `p` that go out compressed are short. */
  predicate ShortNames(p: Parsed) {
    match p
    case Host(rtype, name) => Compressible(rtype) ==> ShortName(name)
    case Soa(m, n, _, _, _, _, _) => ShortName(m) && ShortName(n)
    case Mx(_, exchange) => ShortName(exchange)
    case _ => true
  }

  /** Equal, but for ASCII case in the names that may be compressed. */
  predicate SameParsed(p: Parsed, q: Parsed) {
    || p == q
    || match (p, q)
       case (Host(t, a), Host(u, b)) => t == u && Compressible(t) && SameName(a, b)
       case (Soa(a, b, s, r, y, e, m), Soa(a', b', s', r', y', e', m')) =>
         SameName(a, a') && SameName(b, b') && s == s' && r == r' && y == y' && e == e' && m == m'
       case (Mx(n, a), Mx(n', b)) => n == n' && SameName(a, b)
       case _ => false
  }

  /** The typed records whose RDATA the writer rewrites: those with names it may
      compress. All other RDATA goes out octet for octet. */
  predicate Rewritten(p: Parsed) {
    (p.Host? && Compressible(p.rtype)) || p.Soa? || p.Mx?
  }

  /** The same record: octet for octet, but for the case of names in the types the
      writer rewrites. */
  ghost predicate SameRdata(d: RecordData, e: RecordData) {
    && d.rtype == e.rtype && Parse(d).Ok? && Parse(e).Ok?
    && SameParsed(Parse(d).value, Parse(e).value)
    && (Rewritten(Parse(d).value) || d == e)
  }

  /** RDATA as `from_wire` stores it, with nothing the decoder would refuse. */
  ghost predicate GoodRdata(d: RecordData) {
    Stored(d) && Parse(d).Ok? && ShortNames(Parse(d).value)
  }

  // ---- One name

  /** The name at `pos` of the message is `w` up to case, and ends at `next`. */
  ghost predicate Returns(data: bytes, pos: nat, w: bytes, next: nat) {
    && pos <= |data| && DecodeName(data, pos, data).Ok?
    && SameName(DecodeName(data, pos, data).value.wire, w)
    && DecodeName(data, pos, data).value.next == next
  }

  lemma NameComesBack(t: Table, out: bytes, w: bytes, data: bytes)
    requires Sound(t, out) && Targets(t) && ShortName(w)
    requires out + WriteName(t, w, |out|).octets <= data
    ensures var c := WriteName(t, w, |out|);
            Sound(c.table, out + c.octets) && Returns(data, |out|, w, |out| + |c.octets|)
  {
    hide WriteName, Sound, Targets, DecodeName;
    WriteNameSound(t, out, w);
    var more := out + WriteName(t, w, |out|).octets;
    SpellsExtends(more, data, |out|, w, LabelCount(w, 0));
    ExpandExtends(more, data, |out|);
    SpellsDecodes(data, |out|, w, LabelCount(w, 0));
  }

  /** A name inside a slice of the message decodes as it does in the message. */
  lemma DecodeInSlice(data: bytes, pos: nat, i: nat, j: nat)
    requires i <= pos <= j <= |data|
    requires DecodeName(data, pos, data).Ok? && DecodeName(data, pos, data).value.next <= j
    ensures var d := DecodeName(data, pos, data).value;
            DecodeName(data[i..j], pos - i, data) == Ok(Decoded(d.wire, d.next - i))
  {
    hide ReadSegment, Unpack;
    var seg, part := ReadSegment(data, pos).value, data[i..j];
    SegmentInSlice(data, pos, i, j);
    SliceOfSlice(data, i, j, pos - i, seg.litEnd - i);
    SliceOfSlice(data, i, j, pos - i, seg.End() - i);
    assert part[pos - i..seg.litEnd - i] == data[pos..seg.litEnd];
    assert part[pos - i..seg.End() - i] == data[pos..seg.End()];
  }

  /** The slice that holds what was appended to `out`. */
  lemma AppendedSlice(out: bytes, octets: bytes, data: bytes)
    requires out + octets <= data
    ensures data[|out|..|out| + |octets|] == octets
  {
  }

  // ---- RDATA

  /** It is enough to decode to the same typed record up to case. */
  lemma DecodedSame(d: RecordData, slice: bytes, data: bytes)
    requires Parse(d).Ok? && Decode(d.rtype, slice, data).Ok?
    requires SameParsed(Parse(d).value, Decode(d.rtype, slice, data).value) && Rewritten(Parse(d).value)
    ensures FromWire(d.rtype, slice, data).Ok? && SameRdata(d, FromWire(d.rtype, slice, data).value)
  {
    hide Decode, SameParsed, Encode;
    StorageIsNormalForm(d.rtype, slice, data, data);
  }

  lemma VerbatimBack(d: RecordData, data: bytes)
    requires Stored(d)
    ensures FromWire(d.rtype, d.octets, data) == Ok(d)
  {
    StorageIsNormalForm(d.rtype, d.octets, d.octets, data);
  }

  lemma StoredHost(d: RecordData)
    requires Compressible(d.rtype) && Stored(d) && DecodePlain(d.octets, 0).Ok?
    ensures d.octets == DecodePlain(d.octets, 0).value.wire
    ensures Parse(d) == Ok(Host(d.rtype, d.octets))
    ensures DecodePlain(d.octets, 0).value.next == |d.octets|
  {
    DecodePlainIsDecode(d.octets, 0, d.octets);
    hide DecodeName, DecodePlain;
  }

  lemma HostBack(cap: nat, t: Table, out: bytes, d: RecordData, data: bytes)
    requires Sound(t, out) && Targets(t) && Compressible(d.rtype) && GoodRdata(d)
    requires EmitOneName(cap, t, |out|, 0, d.octets).Ok?
    requires out + EmitOneName(cap, t, |out|, 0, d.octets).value.octets <= data
    ensures var c := EmitOneName(cap, t, |out|, 0, d.octets).value;
            && Sound(c.table, out + c.octets)
            && FromWire(d.rtype, c.octets, data).Ok?
            && SameRdata(d, FromWire(d.rtype, c.octets, data).value)
  {
    hide Sound, Targets, WriteName, DecodeName, DecodePlain, Stored;
    StoredHost(d);
    var w := d.octets;
    var c := EmitOneName(cap, t, |out|, 0, w).value;
    assert c.octets == WriteName(t, w, |out|).octets;
    NameComesBack(t, out, w, data);
    AppendedSlice(out, c.octets, data);
    DecodeInSlice(data, |out|, |out|, |out| + |c.octets|);
    DecodedSame(d, c.octets, data);
  }

  lemma StoredMx(d: RecordData)
    requires d.rtype == MX && Stored(d) && |d.octets| >= 2 && DecodePlain(d.octets, 2).Ok?
    ensures var n := DecodePlain(d.octets, 2).value;
            && Parse(d) == Ok(Mx(ReadU16(d.octets, 0), n.wire))
            && n.next == |d.octets|
  {
    DecodePlainIsDecode(d.octets, 2, d.octets);
    hide DecodeName, DecodePlain;
    var n := DecodePlain(d.octets, 2).value;
    assert |d.octets| == |U16(ReadU16(d.octets, 0)) + n.wire|;
  }

  lemma PreferenceKept(octets: bytes, head: bytes, tail: bytes)
    requires |octets| >= 2 && head == octets[..2]
    ensures ReadU16(head + tail, 0) == ReadU16(octets, 0)
  {
  }

  lemma MxBack(cap: nat, t: Table, out: bytes, d: RecordData, data: bytes)
    requires Sound(t, out) && Targets(t) && d.rtype == MX && GoodRdata(d) && |d.octets| >= 2
    requires EmitOneName(cap, t, |out|, 2, d.octets).Ok?
    requires out + EmitOneName(cap, t, |out|, 2, d.octets).value.octets <= data
    ensures var c := EmitOneName(cap, t, |out|, 2, d.octets).value;
            && Sound(c.table, out + c.octets)
            && FromWire(d.rtype, c.octets, data).Ok?
            && SameRdata(d, FromWire(d.rtype, c.octets, data).value)
  {
    hide Sound, Targets, WriteName, DecodeName, DecodePlain, Stored, ReadU16;
    StoredMx(d);
    var w, head := DecodePlain(d.octets, 2).value.wire, d.octets[..2];
    var c := EmitOneName(cap, t, |out|, 2, d.octets).value;
    var tail := WriteName(t, w, |out| + 2).octets;
    assert c.octets == head + tail;
    var out2 := out + head;
    SoundExtends(t, out, out2);
    assert out2 + tail == out + c.octets;
    NameComesBack(t, out2, w, data);
    AppendedSlice(out, c.octets, data);
    DecodeInSlice(data, |out2|, |out|, |out| + |c.octets|);
    PreferenceKept(d.octets, head, tail);
    DecodedSame(d, c.octets, data);
  }

  /** An SOA whose five 32-bit fields are those at `at`. */
  function SoaFrom(m: bytes, n: bytes, data: bytes, at: nat): Parsed
    requires at + 20 <= |data|
  {
    Soa(m, n, ReadU32(data, at), ReadU32(data, at + 4), ReadU32(data, at + 8), ReadU32(data, at + 12), ReadU32(data, at + 16))
  }

  lemma StoredSoa(d: RecordData)
    requires d.rtype == SOA && Stored(d) && DecodePlain(d.octets, 0).Ok?
    requires DecodePlain(d.octets, DecodePlain(d.octets, 0).value.next).Ok?
    ensures var m := DecodePlain(d.octets, 0).value;
            var n := DecodePlain(d.octets, m.next).value;
            && |d.octets| == n.next + 20
            && Parse(d) == Ok(SoaFrom(m.wire, n.wire, d.octets, n.next))
  {
    hide DecodeName, DecodePlain, ReadU32, U32;
    var m := DecodePlain(d.octets, 0).value;
    DecodePlainIsDecode(d.octets, 0, d.octets);
    DecodePlainIsDecode(d.octets, m.next, d.octets);
    SoaSize(Parse(d).value);
  }

  lemma SoaSize(p: Parsed)
    requires p.Soa?
    ensures Encode(p).Ok? && |Encode(p).value| == |p.mname| + |p.rname| + 20
  {
  }

  /** The counters after the names are copied octet for octet. */
  lemma CountersKept(octets: bytes, at: nat, head: bytes, m: bytes, n: bytes)
    requires at + 20 == |octets|
    ensures |head + octets[at..]| == |head| + 20
    ensures SoaFrom(m, n, head + octets[at..], |head|) == SoaFrom(m, n, octets, at)
  {
    var x := head + octets[at..];
    assert forall j :: at <= j < at + 20 ==> octets[j] == x[j - at + |head|];
  }

  lemma SoaBack(cap: nat, t: Table, out: bytes, d: RecordData, data: bytes)
    requires Sound(t, out) && Targets(t) && d.rtype == SOA && GoodRdata(d)
    requires EmitTwoNames(cap, t, |out|, d.octets).Ok?
    requires out + EmitTwoNames(cap, t, |out|, d.octets).value.octets <= data
    ensures var c := EmitTwoNames(cap, t, |out|, d.octets).value;
            && Sound(c.table, out + c.octets)
            && FromWire(d.rtype, c.octets, data).Ok?
            && SameRdata(d, FromWire(d.rtype, c.octets, data).value)
  {
    hide Sound, Targets, WriteName, DecodeName, DecodePlain, Stored, ReadU32, SoaFrom;
    StoredSoa(d);
    var m := DecodePlain(d.octets, 0).value;
    var n := DecodePlain(d.octets, m.next).value;
    SoaFromNames(m.wire, n.wire, d.octets, n.next);
    var c := EmitTwoNames(cap, t, |out|, d.octets).value;
    var x := WriteName(t, m.wire, |out|);
    WriteNameTargets(t, m.wire, |out|);
    var y := WriteName(x.table, n.wire, |out| + |x.octets|);
    var f := d.octets[n.next..];
    assert c.octets == x.octets + y.octets + f;
    TwoNamesBack(t, out, m.wire, n.wire, x, y, f, data);
    var a, b := DecodeName(data, |out|, data).value, DecodeName(data, |out| + |x.octets|, data).value;
    AppendedSlice(out, c.octets, data);
    DecodeInSlice(data, |out|, |out|, |out| + |c.octets|);
    DecodeInSlice(data, |out| + |x.octets|, |out|, |out| + |c.octets|);
    CountersKept(d.octets, n.next, x.octets + y.octets, a.wire, b.wire);
    SoaDecodes(c.octets, data, a.wire, b.wire, |x.octets|, |x.octets + y.octets|);
    SoaFromSame(m.wire, n.wire, a.wire, b.wire, d.octets, n.next);
    DecodedSame(d, c.octets, data);
  }

  lemma SoaFromNames(m: bytes, n: bytes, data: bytes, at: nat)
    requires at + 20 <= |data|
    ensures var p := SoaFrom(m, n, data, at); p.Soa? && p.mname == m && p.rname == n
  {
  }

  lemma SoaFromSame(m: bytes, n: bytes, m': bytes, n': bytes, data: bytes, at: nat)
    requires at + 20 <= |data| && SameName(m, m') && SameName(n, n')
    ensures SameParsed(SoaFrom(m, n, data, at), SoaFrom(m', n', data, at))
  {
  }

  lemma SoaDecodes(slice: bytes, data: bytes, a: bytes, b: bytes, p: nat, q: nat)
    requires p <= |slice| && q + 20 == |slice|
    requires DecodeName(slice, 0, data) == Ok(Decoded(a, p)) && DecodeName(slice, p, data) == Ok(Decoded(b, q))
    ensures slice != [] && Decode(SOA, slice, data) == Ok(SoaFrom(a, b, slice, q))
  {
    hide DecodeName;
  }

  /** Two names written one after the other, the second against the first. */
  lemma TwoNamesBack(t: Table, out: bytes, m: bytes, n: bytes, x: Chunk, y: Chunk, f: bytes, data: bytes)
    requires Sound(t, out) && Targets(t) && ShortName(m) && ShortName(n) && Targets(x.table)
    requires x == WriteName(t, m, |out|) && y == WriteName(x.table, n, |out| + |x.octets|)
    requires out + (x.octets + y.octets + f) <= data
    ensures Sound(y.table, out + (x.octets + y.octets + f))
    ensures Returns(data, |out|, m, |out| + |x.octets|)
    ensures Returns(data, |out| + |x.octets|, n, |out| + |x.octets| + |y.octets|)
  {
    hide Sound, Targets, WriteName, Returns, IsName;
    var out1 := out + x.octets;
    var out2 := out1 + y.octets;
    assert out + (x.octets + y.octets + f) == out2 + f;
    Prefixes(out1, y.octets, f, data);
    NameComesBack(t, out, m, data);
    NameComesBack(x.table, out1, n, data);
    SoundExtends(y.table, out2, out2 + f);
  }

  lemma Prefixes(a: bytes, b: bytes, c: bytes, data: bytes)
    requires a + b + c <= data
    ensures a <= data && a + b <= data
  {
    assert data[..|a|] == (a + b + c)[..|a|] == a;
    assert data[..|a + b|] == (a + b + c)[..|a + b|] == a + b;
  }
}
