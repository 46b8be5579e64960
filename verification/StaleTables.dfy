/** Why runs stop at a failed write and rewind only between names: a table entry is
    worth what the octets at its offset spell, and nothing else. */
module StaleTables {
  import opened Octets
  import opened Names
  import opened DName
  import opened Compression
  import opened CompressionSoundness
  import opened CompressionRuns
  import opened Emission
  import opened Records
  import opened Codes
  import opened Messages
  import opened Replies
  import opened MessageRoundTrip
  import opened ParseAlike

  // ---- What a name that ends in a pointer reads as

  /** Whatever the table holds: a name it gives a match for reads as its own labels up
      to the match, then as what stands where the table points, as far as the caps
      allow; so as itself if and only if the matched suffix is what stands there. */
  lemma ReadsAsMatched(t: Table, w: bytes, pos: nat, data: bytes)
    requires Targets(t) && IsName(w) && !IsRoot(w) && FindMatch(t, w, 0).Some?
    requires Has(data, pos, WriteName(t, w, pos).octets)
    ensures var (end, target) := FindMatch(t, w, 0).value;
            var d := DecodeName(data, pos, data);
            && (d.Ok? <==> && target < |data| && Expand(data, target).Some? && Expand(data, target).value.hops < MAX_DEPTH
                           && end + |Expand(data, target).value.labels| < MAX_NAME_LEN)
            && (d.Ok? ==>
                  var stands := Expand(data, target).value.labels + [0];
                  && d == Ok(Decoded(w[..end] + stands, pos + end + 2))
                  && (SameName(d.value.wire, w) <==> SameName(stands, w[end..])))
  {
    hide Lookup, WriteName, Targets, NameAt, PointerTo, Expand, DecodeName, SameName, ReadSegment, Reaches;
    TargetsInRange(t);
    var (end, target) := FindMatch(t, w, 0).value;
    MatchWritten(t, pos, w, data);
    DecodeNameExact(data, pos, data);
    if DecodeName(data, pos, data).Ok? {
      var x := Expand(data, target).value.labels;
      assert w[..end] + x + [0] == w[..end] + (x + [0]);
      SameAfter(w, end, x + [0]);
    }
  }

  /** The literal labels of a matched name and its pointer, in place. */
  lemma MatchWritten(t: Table, pos: nat, w: bytes, data: bytes)
    requires Targets(t) && IsName(w) && !IsRoot(w) && FindMatch(t, w, 0).Some?
    requires Has(data, pos, WriteName(t, w, pos).octets)
    ensures var (end, target) := FindMatch(t, w, 0).value;
            && pos + end + 2 <= |data| && data[pos..pos + end] == w[..end]
            && ReadSegment(data, pos) == Ok(Segment(pos + end, ToPointer(target)))
  {
    hide Targets, WriteName, PointerTo, NameAt, Lookup, Reaches, ReadSegment, FindMatch, Has;
    TargetsInRange(t);
    var (end, target) := FindMatch(t, w, 0).value;
    MatchOctets(t, w, pos);
    HasParts(data, pos, w[..end], PointerTo(target));
    LiteralThenPointer(pos, w, end, target, data);
  }

  lemma LiteralThenPointer(pos: nat, w: bytes, end: nat, target: nat, data: bytes)
    requires NameAt(w, 0) && end < |w| && Reaches(w, 0, end) && target <= POINTER_MASK
    requires Has(data, pos, w[..end]) && Has(data, pos + end, PointerTo(target))
    ensures pos + end + 2 <= |data| && data[pos..pos + end] == w[..end]
    ensures ReadSegment(data, pos) == Ok(Segment(pos + end, ToPointer(target)))
  {
    hide PointerTo, ReadLabel, NameAt, Reaches, ReadSegment;
    PointerReads(data, pos + end, target);
    CopiedSegment(data, pos, w, 0, end);
    PointerEnds(data, pos + end, target);
  }

  lemma MatchOctets(t: Table, w: bytes, pos: nat)
    requires Targets(t) && IsName(w) && !IsRoot(w) && FindMatch(t, w, 0).Some?
    ensures var (end, target) := FindMatch(t, w, 0).value;
            && end < |w| && Reaches(w, 0, end) && target <= POINTER_MASK
            && WriteName(t, w, pos).octets == w[..end] + PointerTo(target)
  {
    hide Lookup, Fresh, Compression.Record, PointerTo;
    var (end, target) := FindMatch(t, w, 0).value;
    LookupTarget(t, w[end..]);
    MatchBoundary(t, w);
  }

  lemma PointerEnds(data: bytes, at: nat, target: nat)
    requires at <= |data| && ReadLabel(data, at) == Ok(Pointer(target))
    ensures ReadSegment(data, at) == Ok(Segment(at, ToPointer(target)))
  {
    hide ReadLabel;
  }

  lemma SameAfter(w: bytes, end: nat, rest: bytes)
    requires end <= |w|
    ensures SameName(w[..end] + rest, w) <==> SameName(rest, w[end..])
  {
    hide Fold;
    assert w == w[..end] + w[end..];
    FoldAppend(w[..end], rest);
    FoldAppend(w[..end], w[end..]);
  }

  const A: bytes := [1, 97, 0]
  const B: bytes := [1, 98, 0]
  const AB: bytes := [1, 97, 1, 98, 0]

  lemma Spelled()
    ensures IsName(A) && IsName(B) && IsName(AB) && !IsRoot(A) && !IsRoot(B) && !IsRoot(AB)
  {
    assert NameAt(A, 2) && NameAt(B, 2) && NameAt(AB, 4) && NameAt(AB, 2);
  }

  lemma Different(x: bytes, y: bytes)
    requires (x == A || x == AB) && (y == A || y == B) && x != y
    ensures !SameName(y, x)
  {
    if |x| == |y| {
      assert Fold(x)[1] == 97 && Fold(y)[1] == 98;
    } else {
      assert |Fold(x)| == |x| && |Fold(y)| == |y|;
    }
  }

  /** A one-label name where it is written out. */
  lemma Stands(y: bytes, at: nat, data: bytes)
    requires (y == A || y == B) && Has(data, at, y)
    ensures Expand(data, at) == Some(Expansion(y[..2], 0)) && y[..2] + [0] == y
    ensures DecodeName(data, at, data) == Ok(Decoded(y, at + 3))
  {
    assert data[at] == data[at..at + 3][0] && data[at + 2] == data[at..at + 3][2];
    assert ReadSegment(data, at + 2) == Ok(Segment(at + 2, ToRoot));
    assert ReadSegment(data, at) == ReadSegment(data, at + 2);
    SliceOfSlice(data, at, at + 3, 0, 2);
  }

  /** The table gives for `x` the offset of `y`. */
  lemma Misread(t: Table, x: bytes, pos: nat, y: bytes, at: nat, data: bytes)
    requires (x == A || x == AB) && (y == A || y == B) && IsName(x) && Targets(t) && Lookup(t, x) == Some(at)
    requires Has(data, at, y) && Has(data, pos, WriteName(t, x, pos).octets)
    ensures DecodeName(data, pos, data) == Ok(Decoded(y, pos + 2))
  {
    hide Lookup, WriteName, Targets, DecodeName, Expand, Has, FindMatch, NameAt;
    TargetsInRange(t);
    MatchedWhole(t, x, at);
    Stands(y, at, data);
    ReadsAsMatched(t, x, pos, data);
    assert x[..0] + y == y;
  }

  lemma MatchedWhole(t: Table, x: bytes, at: nat)
    requires IndexInRange(t) && NameAt(x, 0) && x[0] != 0 && Lookup(t, x) == Some(at)
    ensures FindMatch(t, x, 0) == Some((0, at))
  {
    hide Lookup;
    assert x[0..] == x;
  }

  // ---- Writing on after a failed write

  /** A record whose RDATA holds no name where one must be fails and leaves its owner in
      the table, as a name that found no room: `LoseName`, in a run. */
  lemma FailedRecordIsLostName(cap: nat, s: Session, rr: Record)
    requires Targets(s.table) && IsName(rr.name)
    requires (rr.rdata.rtype == NS || rr.rdata.rtype == CNAME || rr.rdata.rtype == PTR) && DecodePlain(rr.rdata.octets, 0).Err?
    requires |s.out| + |WriteName(s.table, rr.name, |s.out|).octets| + 10 <= cap
    ensures EmitRecord(cap, s.table, |s.out|, rr) == Err(DecodePlain(rr.rdata.octets, 0).error)
    ensures TableAfterRecord(cap, s.table, |s.out|, rr) == Step(s, LoseName(rr.name)).table
  {
    hide WriteName, Targets, IsName, DecodePlain;
  }

  const LOST := Record(A, 1, 0, RecordData(NS, []))

  function HostRecord(x: bytes): Record {
    Record(x, 1, 0, RecordData(1, [127, 0, 0, 1]))
  }

  /** A reply with no question, in 512 octets. */
  const FRESH := Writer(512, 512, EMPTY_TABLE, [], [], 0, 0, 0, 0, false)

  /** The table and the octets after a record of `a.` fails and one of `b.` is pushed. */
  const AFTER_B := Writer(512, 512, Table([Entry(A, 12), Entry(B, 12)], map[]), [], B + FixedFields(HostRecord(B), 4) + [127, 0, 0, 1],
                          0, 1, 0, 0, false)

  /** Pushing on after a record that does not encode: a record of `a.` fails, one of
      `b.` goes where it would have gone, and when `a.` is pushed again the finished
      reply holds two records of `b.`. */
  lemma PushingOnMisleads(request: DnsMessage, id: u16, flags: Flags)
    requires NamesOk(request) && request.queries == []
    ensures StartWriter(request, 512) == Ok(FRESH)
    ensures IsName(A) && IsName(B) && !SameName(B, A)
    ensures PushRecord(FRESH, Answer, LOST).Err?
    ensures var b := PushRecord(AfterFailure(FRESH, LOST), Answer, HostRecord(B));
            && b.Ok?
            && var a := PushRecord(b.value, Answer, HostRecord(A));
               && a.Ok? && Counted(a.value)
               && var reply := FinishWriter(a.value, id, flags, NoError, None);
                  && reply.Ok? && ParseMessage(reply.value).Ok?
                  && ParseMessage(reply.value).value.answers == [HostRecord(B), HostRecord(B)]
  {
    hide ParseMessage, FixedFields, HeaderOctets, PushRecord;
    Spelled();
    Different(A, B);
    LostThenPushed();
    PushedAgain();
    var reply := FinishWriter(PushRecord(AFTER_B, Answer, HostRecord(A)).value, id, flags, NoError, None).value;
    assert reply == HeaderOctets(id, flags.(truncation := false), 0, 0, 2, 0, 0) + (AFTER_B.octets + TAIL);
    BothRead(reply, id, flags.(truncation := false));
  }

  const TAIL: bytes := PointerTo(12) + FixedFields(HostRecord(A), 4) + [127, 0, 0, 1]

  lemma LostThenPushed()
    ensures IsName(A) && IsName(B)
    ensures PushRecord(FRESH, Answer, LOST).Err? && PushRecord(AfterFailure(FRESH, LOST), Answer, HostRecord(B)) == Ok(AFTER_B)
  {
    hide FixedFields, WriteName, Lookup;
    Spelled();
    assert Lookup(EMPTY_TABLE, A) == None by { NoneListed(); }
    FreshName(EMPTY_TABLE, A, 12);
    assert DecodePlain([], 0).Err?;
    var t := Table([Entry(A, 12)], map[]);
    assert [] + [Entry(A, 12)] == [Entry(A, 12)];
    assert AfterFailure(FRESH, LOST).table == t;
    NotListed(t);
    FreshName(t, B, 12);
    assert [Entry(A, 12)] + [Entry(B, 12)] == [Entry(A, 12), Entry(B, 12)];
    assert [] + AFTER_B.octets == AFTER_B.octets;
  }

  lemma PushedAgain()
    ensures IsName(A) && Targets(AFTER_B.table) && Lookup(AFTER_B.table, A) == Some(12)
    ensures WriteName(AFTER_B.table, A, 29).octets == PointerTo(12)
    ensures PushRecord(AFTER_B, Answer, HostRecord(A)) == Ok(AFTER_B.(octets := AFTER_B.octets + TAIL, an := 2))
  {
    hide FixedFields, PointerTo;
    Spelled();
    assert Lookup(AFTER_B.table, A) == Some(12);
    MatchedWhole(AFTER_B.table, A, 12);
    assert A[..0] + PointerTo(12) == PointerTo(12);
    assert WriteName(AFTER_B.table, A, 29) == Chunk(AFTER_B.table, PointerTo(12));
  }

  lemma HostReads(data: bytes, pos: nat, p: nat, x: bytes, y: bytes)
    requires pos <= |data| && DecodeName(data, pos, data) == Ok(Decoded(y, p))
    requires Has(data, p, FixedFields(HostRecord(x), 4)) && Has(data, p + 10, [127, 0, 0, 1])
    ensures ParseRecord(data, pos) == Ok(At(HostRecord(y), p + 14))
  {
    hide DecodeName, FixedFields, ReadSegment;
    NextEnds(data, pos);
    PartsAt(data, pos, p, HostRecord(x), 4);
  }

  lemma BothRead(reply: bytes, id: u16, flags: Flags)
    requires reply == HeaderOctets(id, flags, 0, 0, 2, 0, 0) + (AFTER_B.octets + TAIL)
    ensures ParseMessage(reply).Ok? && ParseMessage(reply).value.answers == [HostRecord(B), HostRecord(B)]
  {
    hide FixedFields, HeaderOctets, PointerTo, Has, DecodeName, ParseRecord, WriteName, Lookup, ReadU16, Assemble;
    var head := HeaderOctets(id, flags, 0, 0, 2, 0, 0);
    HeaderReads(id, flags, 0, 0, 2, 0, 0, AFTER_B.octets + TAIL);
    RepliesParts(head, reply);
    Stands(B, 12, reply);
    HostReads(reply, 12, 15, B, B);
    PushedAgain();
    Misread(AFTER_B.table, A, 29, B, 12, reply);
    HostReads(reply, 29, 31, A, B);
    TwoAnswers(reply, 29, 45, HostRecord(B), HostRecord(B));
  }

  lemma RepliesParts(head: bytes, reply: bytes)
    requires |head| == HEADER_LEN && reply == head + (AFTER_B.octets + TAIL)
    ensures Has(reply, 12, B) && Has(reply, 15, FixedFields(HostRecord(B), 4)) && Has(reply, 25, [127, 0, 0, 1])
    ensures Has(reply, 29, PointerTo(12)) && Has(reply, 31, FixedFields(HostRecord(A), 4)) && Has(reply, 41, [127, 0, 0, 1])
  {
    hide FixedFields, PointerTo, Has;
    HasAppended(head, AFTER_B.octets + TAIL, reply);
    HasParts(reply, 12, AFTER_B.octets, TAIL);
    HasParts(reply, 12, B + FixedFields(HostRecord(B), 4), [127, 0, 0, 1]);
    HasParts(reply, 12, B, FixedFields(HostRecord(B), 4));
    HasParts(reply, 29, PointerTo(12) + FixedFields(HostRecord(A), 4), [127, 0, 0, 1]);
    HasParts(reply, 29, PointerTo(12), FixedFields(HostRecord(A), 4));
  }

  lemma TwoAnswers(data: bytes, p: nat, q: nat, x: Record, y: Record)
    requires |data| >= HEADER_LEN && ReadU16(data, 4) == 0 && ReadU16(data, 6) == 2 && ReadU16(data, 8) == 0 && ReadU16(data, 10) == 0
    requires p <= |data| && ParseRecord(data, HEADER_LEN) == Ok(At(x, p)) && ParseRecord(data, p) == Ok(At(y, q))
    ensures ParseMessage(data).Ok? && ParseMessage(data).value.answers == [x, y]
  {
    hide ParseRecord, ReadU16, FlagsFrom, CodeFrom;
    assert [y] + [] == [y] && [x] + [y] == [x, y];
    assert ParseRecords(data, q, 0) == Ok(At([], q));
    assert ParseRecords(data, p, 1) == Ok(At([y], q));
    assert ParseRecords(data, HEADER_LEN, 2) == Ok(At([x, y], q));
  }

  lemma NoneListed()
    ensures Lookup(EMPTY_TABLE, A) == None
  {
  }

  lemma NotListed(t: Table)
    requires t == Table([Entry(A, 12)], map[])
    ensures Lookup(t, B) == None
  {
    assert !SameName(A, B) by { assert Fold(A)[1] == 97 && Fold(B)[1] == 98; }
  }

  /** A one-label name the table does not hold. */
  lemma FreshName(t: Table, x: bytes, pos: nat)
    requires (x == A || x == B) && Targets(t) && IsName(x) && t.index == map[] && |t.entries| < SCAN_LIMIT
    requires Lookup(t, x) == None && pos <= POINTER_MASK
    ensures WriteName(t, x, pos) == Chunk(Table(t.entries + [Entry(x, pos)], map[]), x)
    ensures Targets(WriteName(t, x, pos).table)
  {
    WriteNameTargets(t, x, pos);
    assert x[0..] == x && x[..2] + [0] == x;
    assert NameAt(x, 2) && FindMatch(t, x, 2) == None;
    assert FindMatch(t, x, 0) == None;
    assert Fresh(x, pos, 2, 2) == [] && Fresh(x, pos, 0, 2) == [Entry(x, pos)];
  }

  // ---- Rewinding into a name

  lemma FirstTwoLabels()
    ensures IsName(AB) && WriteName(EMPTY_TABLE, AB, 0) == Chunk(Table([Entry(AB, 0), Entry(B, 2)], map[]), AB)
  {
    assert NameAt(AB, 4) && NameAt(AB, 2);
    assert AB[0..] == AB && AB[2..] == B && AB[..4] + [0] == AB;
    assert FindMatch(EMPTY_TABLE, AB, 4) == None && FindMatch(EMPTY_TABLE, AB, 2) == None;
    assert FindMatch(EMPTY_TABLE, AB, 0) == None;
    assert Fresh(AB, 0, 4, 4) == [] && Fresh(AB, 0, 2, 4) == [Entry(B, 2)];
    assert Fresh(AB, 0, 0, 4) == [Entry(AB, 0), Entry(B, 2)];
  }

  /** Rewinding into a name: the entry for `a.b.` stays, its octets do not, and after a
      root octet the next `a.b.` reads as `a.`. */
  lemma RewindingIntoANameMisleads()
    ensures IsName(AB) && Targets(Step(START, PutName(AB)).table) && |Step(START, PutName(AB)).out| == 5
    ensures var s := Step(START, PutName(AB));
            var u := Step(Step(s, RewindTo(2)), PutOctets([0]));
            && !Allowed(s, RewindTo(2)) && Targets(u.table)
            && DecodeName(Step(u, PutName(AB)).out, 3, Step(u, PutName(AB)).out) == Ok(Decoded(A, 5)) && !SameName(A, AB)
  {
    FirstTwoLabels();
    hide WriteName, DecodeName;
    var s := Step(START, PutName(AB));
    assert [] + AB == AB && [] + [Written(0, 5, AB)] == [Written(0, 5, AB)];
    assert !(s.log[0].start < 2 ==> s.log[0].stop <= 2);
    assert KeepCount(s.table.entries, 2) == 1 by { assert s.table.entries[1..][0].offset == 2; }
    var u := Step(Step(s, RewindTo(2)), PutOctets([0]));
    assert u.out == A;
    assert u.table.entries == [Entry(AB, 0)] && u.table.index == map[];
    Repointed(u);
  }

  lemma Repointed(u: Session)
    requires u.table == Table([Entry(AB, 0)], map[]) && u.out == A && IsName(AB)
    ensures Targets(u.table)
    ensures var t := Step(u, PutName(AB)); DecodeName(t.out, 3, t.out) == Ok(Decoded(A, 5)) && !SameName(A, AB)
  {
    hide WriteName, DecodeName;
    assert Lookup(u.table, AB) == Some(0);
    var t := Step(u, PutName(AB));
    hide Has, Lookup;
    HasAppended(u.out, WriteName(u.table, AB, 3).octets, t.out);
    HasAppended([], A, t.out);
    Misread(u.table, AB, 3, A, 0, t.out);
    Different(AB, A);
  }
}
