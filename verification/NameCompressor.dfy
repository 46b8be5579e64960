/** The compressor as it runs: an arena, a suffix table of ranges into it, a hash
    index, and writes into the caller's buffer. */
module NameCompressors {
  import opened Octets
  import opened Names
  import opened DName
  import opened FoldedHashing
  import opened Compression
  import opened CompressionRuns
  import opened Emission

  // ---- Writing into a buffer

  /** What a write of `octets` at `pos` does to a buffer that held `before`. */
  ghost predicate Landed(before: bytes, after: bytes, pos: nat, octets: bytes, r: Result<nat>) {
    && |after| == |before|
    && if pos + |octets| <= |before| then
         && r == Ok(pos + |octets|)
         && after == before[..pos] + octets + before[pos + |octets|..]
       else
         && r == Err(OutputFull)
         && (pos <= |before| ==> after[..pos] == before[..pos])
  }

  /** What the caller is told of a write of `n` octets. */
  predicate Outcome(cap: nat, pos: nat, n: nat, r: Result<nat>) {
    r == if pos + n <= cap then Ok(pos + n) else Err(OutputFull)
  }

  lemma LandedOutcome(before: bytes, after: bytes, pos: nat, octets: bytes, r: Result<nat>)
    requires Landed(before, after, pos, octets, r)
    ensures Outcome(|before|, pos, |octets|, r) && Kept(before, after, pos)
  {
    if r.Ok? {
      assert after[..pos] == before[..pos];
    }
  }

  /** `write_bytes`: errors rather than dropping the tail. */
  method WriteBytes(buf: array<byte>, pos: nat, octets: bytes) returns (r: Result<nat>)
    modifies buf
    ensures Landed(old(buf[..]), buf[..], pos, octets, r)
  {
    var end := pos + |octets|;
    if end > buf.Length {
      return Err(OutputFull);
    }
    forall i | 0 <= i < |octets| {
      buf[pos + i] := octets[i];
    }
    r := Ok(end);
    assert buf[..] == old(buf[..])[..pos] + octets + old(buf[..])[end..];
  }

  /** Two writes, one after the other, are one write of both. */
  lemma LandedTwice(a: bytes, b: bytes, c: bytes, pos: nat, x: bytes, y: bytes, r: Result<nat>)
    requires Landed(a, b, pos, x, Ok(pos + |x|)) && Landed(b, c, pos + |x|, y, r)
    ensures Landed(a, c, pos, x + y, r)
  {
    var mid, end := pos + |x|, pos + |x| + |y|;
    assert b[..mid] == a[..pos] + x;
    if end <= |a| {
      assert b[end..] == a[end..];
      assert a[..pos] + x + y + a[end..] == a[..pos] + (x + y) + a[end..];
    } else {
      assert c[..pos] == c[..mid][..pos] == b[..mid][..pos] == a[..pos];
    }
  }

  /** A first write that fails makes the pair fail. */
  lemma LandedNever(a: bytes, b: bytes, pos: nat, x: bytes, y: bytes)
    requires Landed(a, b, pos, x, Err(OutputFull)) && pos + |x| > |a|
    ensures Landed(a, b, pos, x + y, Err(OutputFull))
  {
  }

  /** The literal labels, then what ends the name. */
  method WriteBoth(buf: array<byte>, pos: nat, head: bytes, tail: bytes) returns (r: Result<nat>)
    modifies buf
    ensures Landed(old(buf[..]), buf[..], pos, head + tail, r)
  {
    ghost var before := buf[..];
    r := WriteBytes(buf, pos, head);
    if r.Err? {
      LandedNever(before, buf[..], pos, head, tail);
      return;
    }
    ghost var middle := buf[..];
    r := WriteBytes(buf, r.value, tail);
    LandedTwice(before, middle, buf[..], pos, head, tail, r);
  }

  /** Octets before `pos` survive, whatever became of the write. */
  ghost predicate Kept(before: bytes, after: bytes, pos: nat) {
    |after| == |before| && (pos <= |before| ==> after[..pos] == before[..pos])
  }

  lemma KeptTwice(a: bytes, b: bytes, c: bytes, pos: nat, later: nat)
    requires Kept(a, b, pos) && Kept(b, c, later) && pos <= later <= |a|
    ensures Kept(a, c, pos)
  {
    assert c[..pos] == c[..later][..pos] == b[..later][..pos] == b[..pos];
  }

  /** A failed write leaves only suffixes at or past where it started. */
  ghost predicate Extends(t: Table, u: Table, pos: nat) {
    && t.entries <= u.entries
    && forall i :: |t.entries| <= i < |u.entries| ==> u.entries[i].offset >= pos
  }

  lemma ExtendsTwice(t: Table, u: Table, v: Table, pos: nat, later: nat)
    requires Extends(t, u, pos) && Extends(u, v, later) && pos <= later
    ensures Extends(t, v, pos)
  {
    forall i | |t.entries| <= i < |v.entries|
      ensures v.entries[i].offset >= pos
    {
      assert i < |u.entries| ==> v.entries[i] == u.entries[i];
    }
  }

  lemma WriteNameExtends(t: Table, w: bytes, pos: nat)
    requires Targets(t) && IsName(w)
    ensures Extends(t, Compression.WriteName(t, w, pos).table, pos)
    ensures Targets(Compression.WriteName(t, w, pos).table)
  {
    WriteNameTargets(t, w, pos);
    if !IsRoot(w) && MatchEnd(t, w) > 0 {
      FreshAscends(w, pos, 0, MatchEnd(t, w));
    }
  }

  /** A method did what the emission function says. */
  ghost predicate Emitted(spec: Result<Chunk>, r: Result<nat>, before: bytes, after: bytes, pos: nat,
                          t: Table, u: Table) {
    match spec
    case Ok(c) => r.Ok? && u == c.table && Landed(before, after, pos, c.octets, r)
    case Err(e) => r == Err(e) && Kept(before, after, pos) && Extends(t, u, pos)
  }

  // ---- A name inside RDATA

  /** A name, and whatever follows it. */
  function EmitNameRest(cap: nat, t: Table, pos: nat, name: bytes, rest: bytes): (r: Result<Chunk>)
    requires Targets(t) && IsName(name)
    ensures r.Ok? ==> pos + |r.value.octets| <= cap
  {
    var c :- EmitName(cap, t, pos, name);
    EmitAfter(cap, c, pos, rest)
  }

  /** `head` in front of what was emitted after it. */
  function Behind(head: bytes, r: Result<Chunk>): Result<Chunk> {
    match r
    case Ok(c) => Ok(Chunk(c.table, head + c.octets))
    case Err(e) => Err(e)
  }

  /** A write that follows octets already landed. */
  lemma FollowedBy(spec: Result<Chunk>, r: Result<nat>, a: bytes, b: bytes, c: bytes, pos: nat, head: bytes,
                   t: Table, u: Table, v: Table)
    requires Landed(a, b, pos, head, Ok(pos + |head|)) && pos + |head| <= |a| && Extends(t, u, pos)
    requires Emitted(spec, r, b, c, pos + |head|, u, v)
    ensures Emitted(Behind(head, spec), r, a, c, pos, t, v)
  {
    hide Landed, Extends;
    LandedOutcome(a, b, pos, head, Ok(pos + |head|));
    if spec.Ok? {
      LandedTwice(a, b, c, pos, head, spec.value.octets, r);
    } else {
      KeptTwice(a, b, c, pos, pos + |head|);
      ExtendsTwice(t, u, v, pos, pos + |head|);
    }
  }

  lemma NothingLanded(a: bytes, pos: nat, none: bytes)
    requires none == []
    ensures pos <= |a| ==> Landed(a, a, pos, none, Ok(pos))
  {
    if pos <= |a| {
      assert a[..pos] + [] + a[pos..] == a;
    }
  }

  lemma OneNameSplit(cap: nat, t: Table, pos: nat, skip: nat, rdata: bytes)
    requires Targets(t) && skip <= |rdata| && DecodePlain(rdata, skip).Ok? && (skip > 0 ==> pos + skip <= cap)
    ensures var n := DecodePlain(rdata, skip).value;
            EmitOneName(cap, t, pos, skip, rdata)
            == Behind(rdata[..skip], EmitNameRest(cap, t, pos + skip, n.wire, rdata[n.next..]))
  {
    hide Compression.WriteName, Targets, DecodePlain;
    var n := DecodePlain(rdata, skip).value;
    var c := EmitName(cap, t, pos + skip, n.wire);
    if c.Ok? {
      Assoc(rdata[..skip], c.value.octets, rdata[n.next..]);
    }
  }

  lemma TwoNamesSplit(cap: nat, t: Table, pos: nat, rdata: bytes)
    requires Targets(t) && DecodePlain(rdata, 0).Ok? && DecodePlain(rdata, DecodePlain(rdata, 0).value.next).Ok?
    requires EmitName(cap, t, pos, DecodePlain(rdata, 0).value.wire).Ok?
    ensures var m := DecodePlain(rdata, 0).value;
            var n := DecodePlain(rdata, m.next).value;
            var c := EmitName(cap, t, pos, m.wire).value;
            EmitTwoNames(cap, t, pos, rdata)
            == Behind(c.octets, EmitNameRest(cap, c.table, pos + |c.octets|, n.wire, rdata[n.next..]))
  {
    hide Compression.WriteName, Targets, DecodePlain;
    var m := DecodePlain(rdata, 0).value;
    var n := DecodePlain(rdata, m.next).value;
    var c := EmitName(cap, t, pos, m.wire).value;
    var d := EmitName(cap, c.table, pos + |c.octets|, n.wire);
    if d.Ok? {
      Assoc(c.octets, d.value.octets, rdata[n.next..]);
    }
  }

  lemma OneNameNoRoom(cap: nat, t: Table, pos: nat, skip: nat, rdata: bytes, a: bytes, b: bytes)
    requires Targets(t) && 0 < skip <= |rdata| && pos + skip > cap && Kept(a, b, pos)
    ensures Emitted(EmitOneName(cap, t, pos, skip, rdata), Err(OutputFull), a, b, pos, t, t)
  {
  }

  lemma OneNameUnread(cap: nat, t: Table, pos: nat, skip: nat, rdata: bytes, a: bytes, b: bytes)
    requires Targets(t) && skip <= |rdata| && (skip > 0 ==> pos + skip <= cap) && DecodePlain(rdata, skip).Err?
    requires Kept(a, b, pos)
    ensures Emitted(EmitOneName(cap, t, pos, skip, rdata), Err(DecodePlain(rdata, skip).error), a, b, pos, t, t)
  {
    hide DecodePlain;
  }

  lemma OneNameAfter(cap: nat, t: Table, pos: nat, skip: nat, rdata: bytes, a: bytes, b: bytes, c: bytes, r: Result<nat>,
                     u: Table)
    requires Targets(t) && skip <= |rdata| && (skip > 0 ==> pos + skip <= cap) && |a| == cap && DecodePlain(rdata, skip).Ok?
    requires if pos + skip <= cap then Landed(a, b, pos, rdata[..skip], Ok(pos + skip)) else skip == 0 && a == b
    requires var n := DecodePlain(rdata, skip).value;
             Emitted(EmitNameRest(cap, t, pos + skip, n.wire, rdata[n.next..]), r, b, c, pos + skip, t, u)
    ensures Emitted(EmitOneName(cap, t, pos, skip, rdata), r, a, c, pos, t, u)
  {
    hide DecodePlain, Landed, Compression.WriteName, EmitOneName;
    var n := DecodePlain(rdata, skip).value;
    OneNameSplit(cap, t, pos, skip, rdata);
    if pos + skip <= cap {
      FollowedBy(EmitNameRest(cap, t, pos + skip, n.wire, rdata[n.next..]), r, a, b, c, pos, rdata[..skip], t, t, u);
    }
  }

  // ---- The table

  /** A suffix as a range into the arena, and where it was first written. */
  datatype Suffix = Suffix(start: nat, end: nat, offset: nat)

  predicate SpansOk(arena: bytes, seen: seq<Suffix>) {
    forall i :: 0 <= i < |seen| ==> seen[i].start <= seen[i].end <= |arena|
  }

  function EntryAt(arena: bytes, s: Suffix): Entry
    requires s.start <= s.end <= |arena|
  {
    Entry(arena[s.start..s.end], s.offset)
  }

  function EntriesOf(arena: bytes, seen: seq<Suffix>): (r: seq<Entry>)
    requires SpansOk(arena, seen)
    ensures |r| == |seen|
    ensures forall i :: 0 <= i < |seen| ==> r[i] == EntryAt(arena, seen[i])
  {
    seq(|seen|, i requires 0 <= i < |seen| => EntryAt(arena, seen[i]))
  }

  /** The arena is append-only: what it held is still where it was. */
  lemma ArenaGrows(arena: bytes, more: bytes, seen: seq<Suffix>)
    requires SpansOk(arena, seen)
    ensures SpansOk(arena + more, seen) && EntriesOf(arena + more, seen) == EntriesOf(arena, seen)
  {
    forall i | 0 <= i < |seen|
      ensures EntryAt(arena + more, seen[i]) == EntryAt(arena, seen[i])
    {
    }
  }

  lemma EntriesConcat(arena: bytes, a: seq<Suffix>, b: seq<Suffix>)
    requires SpansOk(arena, a) && SpansOk(arena, b)
    ensures SpansOk(arena, a + b) && EntriesOf(arena, a + b) == EntriesOf(arena, a) + EntriesOf(arena, b)
  {
  }

  /** The ranges of the suffixes of `name` that start before `end`, once `name`
      has been appended to `arena`. */
  method NewSuffixes(arena: bytes, name: bytes, pos: nat, end: nat) returns (added: seq<Suffix>)
    requires IsName(name) && end < |name|
    ensures SpansOk(arena + name, added)
    ensures EntriesOf(arena + name, added) == Fresh(name, pos, 0, end)
  {
    hide EntriesOf, Fresh, SpansOk;
    var base, whole := |arena|, arena + name;
    var k := 0;
    added := [];
    NoSuffixes(whole, Fresh(name, pos, 0, end));
    while k < end
      invariant NameAt(name, k) && SpansOk(whole, added)
      invariant EntriesOf(whole, added) + Fresh(name, pos, k, end) == Fresh(name, pos, 0, end)
      decreases |name| - k
    {
      if pos + k <= POINTER_MASK {
        PushSuffix(arena, name, added, pos, k, end);
        added := added + [Suffix(base + k, |whole|, pos + k)];
      } else {
        FreshPast(name, pos, k, end);
      }
      k := k + 1 + name[k];
    }
    FreshEnds(EntriesOf(whole, added), name, pos, k, end);
  }

  lemma NoSuffixes(arena: bytes, entries: seq<Entry>)
    ensures SpansOk(arena, []) && EntriesOf(arena, []) + entries == entries
  {
  }

  lemma FreshPast(name: bytes, pos: nat, k: nat, end: nat)
    requires NameAt(name, k) && k < end < |name| && pos + k > POINTER_MASK
    ensures NameAt(name, k + 1 + name[k]) && Fresh(name, pos, k, end) == Fresh(name, pos, k + 1 + name[k], end)
  {
  }

  lemma FreshEnds(entries: seq<Entry>, name: bytes, pos: nat, k: nat, end: nat)
    requires NameAt(name, k) && end < |name| && k >= end
    ensures entries + Fresh(name, pos, k, end) == entries
  {
  }

  lemma PushSuffix(arena: bytes, name: bytes, added: seq<Suffix>, pos: nat, k: nat, end: nat)
    requires NameAt(name, k) && k < end < |name| && pos + k <= POINTER_MASK
    requires SpansOk(arena + name, added)
    ensures NameAt(name, k + 1 + name[k])
    ensures var whole := arena + name;
            var grown := added + [Suffix(|arena| + k, |whole|, pos + k)];
            && SpansOk(whole, grown)
            && EntriesOf(whole, grown) + Fresh(name, pos, k + 1 + name[k], end)
               == EntriesOf(whole, added) + Fresh(name, pos, k, end)
  {
    FreshStep(EntriesOf(arena + name, added), name, pos, k, end);
    hide NameAt, Fresh;
    var whole := arena + name;
    var s := Suffix(|arena| + k, |whole|, pos + k);
    assert whole[|arena| + k..|whole|] == name[k..];
    assert EntryAt(whole, s) == Entry(name[k..], pos + k);
    EntriesConcat(whole, added, [s]);
    assert EntriesOf(whole, [s]) == [EntryAt(whole, s)];
  }

  class NameCompressor {
    var arena: bytes
    var seen: seq<Suffix>
    var index: map<nat, nat>

    ghost predicate Spans()
      reads this
    {
      SpansOk(arena, seen)
    }

    /** The table this object stands for. */
    ghost function Contents(): Table
      requires Spans()
      reads this
    {
      Table(EntriesOf(arena, seen), index)
    }

    ghost predicate Valid()
      reads this
    {
      Spans() && Targets(Contents()) && Coherent(Contents())
    }

    constructor ()
      ensures Valid() && Contents() == EMPTY_TABLE
    {
      arena, seen, index := [], [], map[];
    }

    /** Forget everything. */
    method Clear()
      modifies this
      ensures Valid() && Contents() == EMPTY_TABLE
    {
      arena, seen, index := [], [], map[];
    }

    /** Answers what the table it stands for answers, by either of its two routes. */
    method Lookup(needle: bytes) returns (r: Option<nat>)
      requires Valid()
      ensures r == Compression.Lookup(Contents(), needle)
    {
      ghost var entries := Contents().entries;
      if index == map[] {
        var i := 0;
        while i < |seen|
          invariant i <= |seen|
          invariant First(entries, needle, 0) == First(entries, needle, i)
        {
          if Fold(arena[seen[i].start..seen[i].end]) == Fold(needle) {
            return Some(seen[i].offset);
          }
          i := i + 1;
        }
        return None;
      }
      var hash := ComputeFoldedHash(needle);
      if hash !in index {
        return None;
      }
      var entry := seen[index[hash]];
      if Fold(arena[entry.start..entry.end]) == Fold(needle) {
        return Some(entry.offset);
      }
      r := None;
    }

    /** Maps the hash of entry `i` to `i`, unless that hash is mapped. */
    method Note(i: nat)
      requires Spans() && i < |seen|
      modifies this`index
      ensures index == Compression.Note(Contents().entries, old(index), i)
    {
      var hash := ComputeFoldedHash(arena[seen[i].start..seen[i].end]);
      if hash !in index {
        index := index[hash := i];
      }
    }

    /** Brings the index up to date with entries appended at `first`: none while
        the table is small, all of them the first time it is not. */
    method IndexFrom(first: nat)
      requires Spans() && first <= |seen|
      modifies this`index
      ensures index == Compression.IndexFrom(Contents().entries, old(index), first)
    {
      hide FoldedHash;
      ghost var entries := Contents().entries;
      var i := first;
      if index == map[] {
        if |seen| <= SCAN_LIMIT {
          return;
        }
        i := 0;
      }
      ghost var start := i;
      while i < |seen|
        invariant start <= i <= |seen|
        invariant NoteAll(entries, index, i) == NoteAll(entries, old(index), start)
      {
        Note(i);
        i := i + 1;
      }
    }

    /** The longest-first search over the name's ancestors. */
    method FindSuffix(name: bytes) returns (m: Option<(nat, nat)>)
      requires Valid() && IsName(name)
      ensures m == FindMatch(Contents(), name, 0)
    {
      hide Compression.Lookup, Targets, Coherent;
      ghost var t := Contents();
      assert IndexInRange(t) by { TargetsInRange(t); }
      var k := 0;
      while name[k] != 0
        invariant NameAt(name, k)
        invariant FindMatch(t, name, 0) == FindMatch(t, name, k)
        decreases |name| - k
      {
        var target := Lookup(name[k..]);
        if target.Some? {
          return Some((k, target.value));
        }
        k := k + 1 + name[k];
      }
      m := None;
    }

    /** Appends the entries of `Fresh` to the table, and indexes them. */
    method RecordFresh(name: bytes, pos: nat, freshEnd: nat)
      requires Valid() && IsName(name) && freshEnd < |name|
      modifies this
      ensures Valid()
      ensures Contents() == Record(old(Contents()), Fresh(name, pos, 0, freshEnd))
    {
      ghost var t, added := Contents(), Fresh(name, pos, 0, freshEnd);
      FreshTargets(name, pos, 0, freshEnd);
      RecordTargets(t, added);
      RecordCoherent(t, added);
      hide Coherent, Targets, Fresh, Compression.IndexFrom;
      var firstNew := |seen|;
      var suffixes := NewSuffixes(arena, name, pos, freshEnd);
      ArenaGrows(arena, name, seen);
      EntriesConcat(arena + name, seen, suffixes);
      arena, seen := arena + name, seen + suffixes;
      IndexFrom(firstNew);
    }

    /** The octets of the functional form land at `pos` if they fit; the table
        becomes that of the functional form either way. */
    method WriteName(name: bytes, buf: array<byte>, pos: nat) returns (r: Result<nat>)
      requires Valid() && IsName(name)
      modifies this, buf
      ensures Valid()
      ensures Contents() == old(Compression.WriteName(Contents(), name, pos)).table
      ensures Landed(old(buf[..]), buf[..], pos, old(Compression.WriteName(Contents(), name, pos)).octets, r)
    {
      if IsRoot(name) {
        r := WriteBytes(buf, pos, [0]);
        return;
      }
      hide Targets, Coherent, Compression.Lookup, Fresh, Record;
      ghost var t := Contents();
      var matched := FindSuffix(name);
      var freshEnd := if matched.Some? then matched.value.0 else |name| - 1;
      LookupTarget(t, name[freshEnd..]);
      if freshEnd > 0 {
        RecordFresh(name, pos, freshEnd);
      }
      var tail := if matched.Some? then PointerTo(matched.value.1) else [0];
      r := WriteBoth(buf, pos, name[..freshEnd], tail);
    }

    /** What `EmitRdata` gives lands at `pos`, or its error comes back with the
        octets before `pos` intact and the table only extended from `pos` on. */
    method WriteRdata(rtype: nat, rdata: bytes, buf: array<byte>, pos: nat) returns (r: Result<nat>)
      requires Valid()
      modifies this, buf
      ensures Valid()
      ensures Emitted(old(EmitRdata(buf.Length, Contents(), pos, rtype, rdata)), r,
                      old(buf[..]), buf[..], pos, old(Contents()), Contents())
      ensures Contents() == old(TableAfterRdata(buf.Length, Contents(), pos, rtype, rdata))
    {
      hide EmitOneName, EmitTwoNames, TableAfterOneName, TableAfterTwoNames, Targets, Coherent;
      ghost var t := Contents();
      if rtype == NS || rtype == CNAME || rtype == PTR {
        r := WriteOneName(0, rdata, buf, pos);
      } else if rtype == SOA {
        r := WriteTwoNames(rdata, buf, pos);
      } else if rtype == MX {
        if |rdata| < 2 {
          return Err(Truncated);
        }
        r := WriteOneName(2, rdata, buf, pos);
      } else {
        r := WriteBytes(buf, pos, rdata);
      }
    }

    /** A name, and whatever follows it. */
    method WriteNameRest(name: bytes, rest: bytes, buf: array<byte>, pos: nat) returns (r: Result<nat>)
      requires Valid() && IsName(name)
      modifies this, buf
      ensures Valid()
      ensures Emitted(old(EmitNameRest(buf.Length, Contents(), pos, name, rest)), r,
                      old(buf[..]), buf[..], pos, old(Contents()), Contents())
      ensures Contents() == old(TableAfterName(Contents(), pos, name))
    {
      hide Compression.WriteName, Coherent, Targets, Landed, IsName;
      ghost var t, a := Contents(), buf[..];
      ghost var c := Compression.WriteName(t, name, pos);
      WriteNameExtends(t, name, pos);
      r := WriteName(name, buf, pos);
      LandedOutcome(a, buf[..], pos, c.octets, r);
      if r.Err? { return; }
      ghost var b := buf[..];
      r := WriteBytes(buf, r.value, rest);
      LandedTwice(a, b, buf[..], pos, c.octets, rest, r);
      LandedOutcome(a, buf[..], pos, c.octets + rest, r);
    }

    /** `skip` fixed octets, one name, and whatever follows it. */
    method WriteOneName(skip: nat, rdata: bytes, buf: array<byte>, pos: nat) returns (r: Result<nat>)
      requires Valid() && skip <= |rdata|
      modifies this, buf
      ensures Valid()
      ensures Emitted(old(EmitOneName(buf.Length, Contents(), pos, skip, rdata)), r,
                      old(buf[..]), buf[..], pos, old(Contents()), Contents())
      ensures Contents() == old(TableAfterOneName(buf.Length, Contents(), pos, skip, rdata))
    {
      hide EmitOneName, EmitNameRest, TableAfterName, Coherent, Targets, DecodePlain, Landed, Emitted;
      ghost var t, a := Contents(), buf[..];
      ghost var cap := buf.Length;
      if skip > 0 {
        r := WriteBytes(buf, pos, rdata[..skip]);
        LandedOutcome(a, buf[..], pos, rdata[..skip], r);
        if r.Err? {
          OneNameNoRoom(cap, t, pos, skip, rdata, a, buf[..]);
          return;
        }
      } else {
        NothingLanded(a, pos, rdata[..skip]);
      }
      ghost var b := buf[..];
      var n := DecodePlain(rdata, skip);
      if n.Err? {
        OneNameUnread(cap, t, pos, skip, rdata, a, b);
        return Err(n.error);
      }
      r := WriteNameRest(n.value.wire, rdata[n.value.next..], buf, pos + skip);
      OneNameAfter(cap, t, pos, skip, rdata, a, b, buf[..], r, Contents());
    }

    /** Two names, and whatever follows them. */
    method WriteTwoNames(rdata: bytes, buf: array<byte>, pos: nat) returns (r: Result<nat>)
      requires Valid()
      modifies this, buf
      ensures Valid()
      ensures Emitted(old(EmitTwoNames(buf.Length, Contents(), pos, rdata)), r,
                      old(buf[..]), buf[..], pos, old(Contents()), Contents())
      ensures Contents() == old(TableAfterTwoNames(buf.Length, Contents(), pos, rdata))
    {
      hide EmitNameRest, Compression.WriteName, Coherent, Targets, DecodePlain, Landed;
      ghost var t, a := Contents(), buf[..];
      ghost var cap := buf.Length;
      var m := DecodePlain(rdata, 0);
      if m.Err? { return Err(m.error); }
      var n := DecodePlain(rdata, m.value.next);
      if n.Err? { return Err(n.error); }
      ghost var c := Compression.WriteName(t, m.value.wire, pos);
      WriteNameExtends(t, m.value.wire, pos);
      r := WriteName(m.value.wire, buf, pos);
      LandedOutcome(a, buf[..], pos, c.octets, r);
      if r.Err? { return; }
      ghost var b := buf[..];
      ghost var p := r.value;
      r := WriteNameRest(n.value.wire, rdata[n.value.next..], buf, r.value);
      TwoNamesSplit(cap, t, pos, rdata);
      FollowedBy(EmitNameRest(cap, c.table, p, n.value.wire, rdata[n.value.next..]), r, a, b, buf[..], pos, c.octets,
                 t, c.table, Contents());
    }

    /** The table becomes its rewound form. Entries must divide at `at`, as those of
        advancing writes do, for a binary search to find where. */
    method Rewind(at: nat)
      requires Valid() && Partitioned(seen, at)
      modifies this`seen, this`index
      ensures Valid() && Contents() == Compression.Rewind(old(Contents()), at)
    {
      hide Coherent;
      ghost var t := Contents();
      var keep := PartitionPoint(seen, at);
      KeepIs(t.entries, at, keep);
      RewindCoherent(t, at);
      if keep == |seen| {
        RewindNothing(t, at);
        return;
      }
      seen := seen[..keep];
      index := map h | h in index && index[h] < keep :: index[h];
      assert Contents().entries == t.entries[..keep];
    }
  }

  lemma FreshStep(entries: seq<Entry>, name: bytes, pos: nat, k: nat, end: nat)
    requires NameAt(name, k) && k < end < |name| && pos + k <= POINTER_MASK
    ensures NameAt(name, k + 1 + name[k])
    ensures entries + Fresh(name, pos, k, end)
            == (entries + [Entry(name[k..], pos + k)]) + Fresh(name, pos, k + 1 + name[k], end)
  {
    Assoc(entries, [Entry(name[k..], pos + k)], Fresh(name, pos, k + 1 + name[k], end));
  }

  ghost predicate Partitioned(seen: seq<Suffix>, at: nat) {
    forall i, j :: 0 <= i < j < |seen| && seen[j].offset < at ==> seen[i].offset < at
  }

  /** `partition_point`: a binary search. */
  method PartitionPoint(seen: seq<Suffix>, at: nat) returns (keep: nat)
    requires Partitioned(seen, at)
    ensures keep <= |seen|
    ensures forall i :: 0 <= i < keep ==> seen[i].offset < at
    ensures forall i :: keep <= i < |seen| ==> seen[i].offset >= at
  {
    var hi := |seen|;
    keep := 0;
    while keep < hi
      invariant keep <= hi <= |seen|
      invariant forall i :: 0 <= i < keep ==> seen[i].offset < at
      invariant forall i :: hi <= i < |seen| ==> seen[i].offset >= at
    {
      var mid := (keep + hi) / 2;
      if seen[mid].offset < at {
        keep := mid + 1;
      } else {
        hi := mid;
      }
    }
  }

  lemma KeepIs(entries: seq<Entry>, at: nat, keep: nat)
    requires keep <= |entries|
    requires forall i :: 0 <= i < keep ==> entries[i].offset < at
    requires forall i :: keep <= i < |entries| ==> entries[i].offset >= at
    ensures KeepCount(entries, at) == keep
  {
    var k := KeepCount(entries, at);
    assert k <= keep by {
      assert keep < |entries| ==> entries[keep].offset >= at;
    }
  }

  lemma RewindNothing(t: Table, at: nat)
    requires IndexInRange(t) && KeepCount(t.entries, at) == |t.entries|
    ensures Compression.Rewind(t, at) == t
  {
    assert t.entries[..|t.entries|] == t.entries;
  }
}
