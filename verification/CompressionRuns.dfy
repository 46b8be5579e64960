/** Whole runs of the compressor over one buffer: names and other octets written
    at advancing positions, writes that fail for want of room, rewinds, and new
    messages. */
module CompressionRuns {
  import opened Octets
  import opened Names
  import opened DName
  import opened Compression
  import opened CompressionSoundness

  /** A name in the buffer: `out[start..stop]` was written for `name`. */
  datatype Written = Written(start: nat, stop: nat, name: bytes)

  /** `stale` after a failed write: `write_name` records suffixes before it
      writes, so the table then holds offsets nothing was written at. */
  datatype Session = Session(table: Table, out: bytes, log: seq<Written>, stale: bool)

  const START := Session(EMPTY_TABLE, [], [], false)

  datatype Op =
    | PutName(name: bytes)      // a `write_name` that fits
    | LoseName(name: bytes)     // a `write_name` that runs out of buffer
    | PutOctets(octets: bytes)  // any other field
    | RewindTo(at: nat)
    | Restart                   // `clear`, for the next message

  /** Writers stop at a failed write until they rewind or start over, and rewind
      to a position no name straddles. */
  ghost predicate Allowed(s: Session, op: Op) {
    match op
    case PutName(name) => !s.stale && IsName(name)
    case LoseName(name) => !s.stale && IsName(name)
    case PutOctets(_) => !s.stale
    case RewindTo(at) => at <= |s.out| && forall i :: 0 <= i < |s.log| && s.log[i].start < at ==> s.log[i].stop <= at
    case Restart => true
  }

  function KeepLog(log: seq<Written>, at: nat): (k: nat)
    ensures k <= |log|
    ensures forall i :: 0 <= i < k ==> log[i].start < at
    ensures k < |log| ==> log[k].start >= at
  {
    if log == [] || log[0].start >= at then 0 else 1 + KeepLog(log[1..], at)
  }

  function Step(s: Session, op: Op): Session
    requires Targets(s.table)
    requires op.PutName? || op.LoseName? ==> IsName(op.name)
    requires op.RewindTo? ==> op.at <= |s.out|
  {
    match op
    case PutName(name) =>
      var c := WriteName(s.table, name, |s.out|);
      var stop := |s.out| + |c.octets|;
      Session(c.table, s.out + c.octets, s.log + [Written(|s.out|, stop, name)], false)
    case LoseName(name) =>
      s.(table := WriteName(s.table, name, |s.out|).table, stale := true)
    case PutOctets(octets) =>
      s.(out := s.out + octets)
    case RewindTo(at) =>
      Session(Rewind(s.table, at), s.out[..at], s.log[..KeepLog(s.log, at)], false)
    case Restart => START
  }

  /** A logged name was already spelled, whole, when it had just been written. */
  ghost predicate Stands(w: Written, out: bytes) {
    && w.start < w.stop <= |out| && IsName(w.name)
    && Spells(out[..w.stop], w.start, w.name, LabelCount(w.name, 0))
    && ReadSegment(out[..w.stop], w.start).Ok?
    && ReadSegment(out[..w.stop], w.start).value.End() == w.stop
  }

  /** An entry lies in a logged name and was good when that name was finished. */
  ghost predicate Owned(e: Entry, log: seq<Written>, out: bytes) {
    exists i :: 0 <= i < |log| && OwnedBy(e, log[i], out)
  }

  ghost predicate OwnedBy(e: Entry, w: Written, out: bytes) {
    w.start <= e.offset < w.stop <= |out| && EntryOk(e, out[..w.stop])
  }

  ghost predicate Ascending(entries: seq<Entry>) {
    forall i, j :: 0 <= i < j < |entries| ==> entries[i].offset < entries[j].offset
  }

  ghost predicate TableInv(t: Table) {
    Coherent(t) && Targets(t) && Ascending(t.entries)
  }

  ghost predicate LogInv(log: seq<Written>, out: bytes) {
    && (forall i :: 0 <= i < |log| ==> Stands(log[i], out))
    && (forall i, j :: 0 <= i < j < |log| ==> log[i].start < log[j].start)
  }

  ghost predicate OwnInv(entries: seq<Entry>, log: seq<Written>, out: bytes, stale: bool) {
    && (forall i :: 0 <= i < |entries| && entries[i].offset < |out| ==> Owned(entries[i], log, out))
    && (!stale ==> forall i :: 0 <= i < |entries| ==> entries[i].offset < |out|)
  }

  ghost predicate Inv(s: Session) {
    TableInv(s.table) && LogInv(s.log, s.out) && OwnInv(s.table.entries, s.log, s.out, s.stale)
  }

  // ---- Each step keeps it

  lemma {:induction false} FreshAscends(w: bytes, pos: nat, k: nat, end: nat)
    requires NameAt(w, k) && end < |w|
    ensures Ascending(Fresh(w, pos, k, end))
    ensures forall i :: 0 <= i < |Fresh(w, pos, k, end)| ==>
              pos + k <= Fresh(w, pos, k, end)[i].offset < pos + end
    decreases |w| - k
  {
    if k < end {
      FreshAscends(w, pos, k + 1 + w[k], end);
    }
  }

  /** A write only appends entries, in order, inside the octets it writes. */
  lemma WriteNameAscends(t: Table, w: bytes, pos: nat)
    requires Targets(t) && IsName(w) && Ascending(t.entries)
    requires forall i :: 0 <= i < |t.entries| ==> t.entries[i].offset < pos
    ensures var c := WriteName(t, w, pos);
            && t.entries <= c.table.entries && Ascending(c.table.entries)
            && (forall i :: |t.entries| <= i < |c.table.entries| ==>
                  pos <= c.table.entries[i].offset < pos + |c.octets|)
  {
    if !IsRoot(w) && MatchEnd(t, w) > 0 {
      FreshAscends(w, pos, 0, MatchEnd(t, w));
      hide Fresh, FindMatch;
      WriteNameOctets(t, w, pos);
    }
  }

  lemma WriteNameOctets(t: Table, w: bytes, pos: nat)
    requires Targets(t) && IsName(w)
    ensures 1 <= |WriteName(t, w, pos).octets| <= |w|
    ensures !IsRoot(w) ==> MatchEnd(t, w) < |WriteName(t, w, pos).octets|
  {
    if !IsRoot(w) {
      LookupTarget(t, w[MatchEnd(t, w)..]);
    }
  }

  lemma OwnedLater(e: Entry, log: seq<Written>, out: bytes, log': seq<Written>, out': bytes)
    requires Owned(e, log, out) && log <= log' && out <= out'
    ensures Owned(e, log', out')
  {
    var i :| 0 <= i < |log| && OwnedBy(e, log[i], out);
    assert out'[..log[i].stop] == out[..log[i].stop];
    assert log'[i] == log[i] && OwnedBy(e, log'[i], out');
  }

  lemma StandsLater(w: Written, out: bytes, out': bytes)
    requires Stands(w, out) && out <= out'
    ensures Stands(w, out')
  {
    assert out'[..w.stop] == out[..w.stop];
  }

  /** Without a failed write behind it, the table is sound against the buffer. */
  lemma LiveIsSound(s: Session)
    requires Inv(s) && !s.stale
    ensures Sound(s.table, s.out)
  {
    forall i | 0 <= i < |s.table.entries|
      ensures EntryOk(s.table.entries[i], s.out)
    {
      var e := s.table.entries[i];
      assert Owned(e, s.log, s.out);
      var j :| 0 <= j < |s.log| && OwnedBy(e, s.log[j], s.out);
      SpellsExtends(s.out[..s.log[j].stop], s.out, e.offset, e.suffix, LabelCount(e.suffix, 0) - 1);
    }
  }

  lemma LogGrows(log: seq<Written>, out: bytes, w: Written, out': bytes)
    requires LogInv(log, out) && out <= out' && Stands(w, out') && w.start == |out|
    ensures LogInv(log + [w], out')
  {
    hide Spells, ReadSegment, NameAt, LabelCount;
    forall i | 0 <= i < |log|
      ensures Stands(log[i], out') && log[i].start < |out|
    {
      assert Stands(log[i], out);
      StandsLater(log[i], out, out');
    }
  }

  lemma NameStands(s: Session, name: bytes)
    requires Sound(s.table, s.out) && Targets(s.table) && IsName(name)
    ensures var s' := Step(s, PutName(name));
            Sound(s'.table, s'.out) && Stands(Written(|s.out|, |s'.out|, name), s'.out)
  {
    hide WriteName, Spells, Sound, NameAt, LabelCount, ReadSegment;
    WriteNameSound(s.table, s.out, name);
    WriteNameOctets(s.table, name, |s.out|);
    var s' := Step(s, PutName(name));
    assert s'.out[..|s'.out|] == s'.out;
  }

  lemma NameTable(s: Session, name: bytes)
    requires TableInv(s.table) && OwnInv(s.table.entries, s.log, s.out, false) && IsName(name)
    ensures var c := WriteName(s.table, name, |s.out|);
            && TableInv(c.table) && s.table.entries <= c.table.entries
            && (forall i :: |s.table.entries| <= i < |c.table.entries| ==>
                  |s.out| <= c.table.entries[i].offset < |s.out| + |c.octets|)
  {
    hide WriteName, Coherent, Targets, Owned, NameAt;
    WriteNameTargets(s.table, name, |s.out|);
    WriteNameCoherent(s.table, name, |s.out|);
    WriteNameAscends(s.table, name, |s.out|);
  }

  lemma OwnGrows(s: Session, s': Session, w: Written)
    requires Inv(s) && !s.stale && s.out <= s'.out && s'.log == s.log + [w]
    requires w.start == |s.out| && w.stop == |s'.out|
    requires s.table.entries <= s'.table.entries && Sound(s'.table, s'.out)
    requires forall i :: |s.table.entries| <= i < |s'.table.entries| ==>
               w.start <= s'.table.entries[i].offset < w.stop
    ensures OwnInv(s'.table.entries, s'.log, s'.out, false)
  {
    hide Sound, Owned, LogInv, TableInv;
    forall i | 0 <= i < |s'.table.entries|
      ensures Owned(s'.table.entries[i], s'.log, s'.out) && s'.table.entries[i].offset < |s'.out|
    {
      NameOwns(s, s', w, i);
      assert i < |s.table.entries| ==> s'.table.entries[i] == s.table.entries[i];
    }
  }

  lemma PutNameKeeps(s: Session, name: bytes)
    requires Inv(s) && !s.stale && IsName(name)
    ensures Inv(Step(s, PutName(name)))
  {
    hide WriteName, Stands, OwnInv, LogInv, Coherent, Targets, Sound, NameAt, Ascending;
    LiveIsSound(s);
    NameStands(s, name);
    NameTable(s, name);
    var s' := Step(s, PutName(name));
    var w := Written(|s.out|, |s'.out|, name);
    LogGrows(s.log, s.out, w, s'.out);
    OwnGrows(s, s', w);
  }

  lemma NameOwns(s: Session, s': Session, w: Written, i: nat)
    requires Inv(s) && !s.stale && s.out <= s'.out && s'.log == s.log + [w]
    requires w.start == |s.out| && w.stop == |s'.out|
    requires s.table.entries <= s'.table.entries && i < |s'.table.entries| && Sound(s'.table, s'.out)
    requires i >= |s.table.entries| ==> w.start <= s'.table.entries[i].offset < w.stop
    ensures Owned(s'.table.entries[i], s'.log, s'.out)
  {
    hide Spells, EntryOk, Coherent, LogInv, TableInv;
    var e := s'.table.entries[i];
    if i < |s.table.entries| {
      assert e == s.table.entries[i];
      OwnedLater(e, s.log, s.out, s'.log, s'.out);
    } else {
      assert s'.out[..w.stop] == s'.out;
      assert s'.log[|s.log|] == w && OwnedBy(e, s'.log[|s.log|], s'.out);
    }
  }

  lemma LoseNameKeeps(s: Session, name: bytes)
    requires Inv(s) && !s.stale && IsName(name)
    ensures Inv(Step(s, LoseName(name)))
  {
    var c := WriteName(s.table, name, |s.out|);
    WriteNameTargets(s.table, name, |s.out|);
    WriteNameCoherent(s.table, name, |s.out|);
    WriteNameAscends(s.table, name, |s.out|);
    hide WriteName, Coherent, Owned, LogInv, NameAt, Targets;
    forall i | 0 <= i < |c.table.entries| && c.table.entries[i].offset < |s.out|
      ensures Owned(c.table.entries[i], s.log, s.out)
    {
      assert c.table.entries[i] == s.table.entries[i];
    }
  }

  lemma PutOctetsKeeps(s: Session, octets: bytes)
    requires Inv(s) && !s.stale
    ensures Inv(Step(s, PutOctets(octets)))
  {
    hide Owned, Stands, TableInv;
    var out' := s.out + octets;
    forall i | 0 <= i < |s.log|
      ensures Stands(s.log[i], out')
    {
      StandsLater(s.log[i], s.out, out');
    }
    forall i | 0 <= i < |s.table.entries|
      ensures Owned(s.table.entries[i], s.log, out')
    {
      OwnedLater(s.table.entries[i], s.log, s.out, s.log, out');
    }
  }

  lemma RewindCoherent(t: Table, at: nat)
    requires Coherent(t) && Targets(t)
    ensures Coherent(Rewind(t, at)) && Targets(Rewind(t, at))
  {
    hide HashOf;
  }

  /** A kept entry keeps its owner: no name straddles the rewind point. */
  lemma OwnedAfterRewind(log: seq<Written>, out: bytes, at: nat, e: Entry)
    requires LogInv(log, out) && at <= |out|
    requires forall i :: 0 <= i < |log| && log[i].start < at ==> log[i].stop <= at
    requires e.offset < at && Owned(e, log, out)
    ensures Owned(e, log[..KeepLog(log, at)], out[..at])
  {
    hide EntryOk, Stands;
    var i :| 0 <= i < |log| && OwnedBy(e, log[i], out);
    var keep := KeepLog(log, at);
    assert log[i].start < at && log[i].stop <= at;
    assert i < keep;
    OwnedInFront(e, log[i], out, at);
    hide OwnedBy;
    assert log[..keep][i] == log[i];
  }

  lemma OwnedInFront(e: Entry, w: Written, out: bytes, at: nat)
    requires OwnedBy(e, w, out) && w.stop <= at <= |out|
    ensures OwnedBy(e, w, out[..at])
  {
    hide EntryOk;
    assert out[..at][..w.stop] == out[..w.stop];
  }

  lemma LogRewinds(log: seq<Written>, out: bytes, at: nat)
    requires LogInv(log, out) && at <= |out|
    requires forall i :: 0 <= i < |log| && log[i].start < at ==> log[i].stop <= at
    ensures LogInv(log[..KeepLog(log, at)], out[..at])
  {
    hide Spells, ReadSegment, NameAt, LabelCount;
    forall i | 0 <= i < KeepLog(log, at)
      ensures Stands(log[i], out[..at])
    {
      assert Stands(log[i], out);
      assert out[..at][..log[i].stop] == out[..log[i].stop];
    }
  }

  lemma RewindKeeps(s: Session, at: nat)
    requires Inv(s) && Allowed(s, RewindTo(at))
    ensures Inv(Step(s, RewindTo(at)))
  {
    RewindCoherent(s.table, at);
    LogRewinds(s.log, s.out, at);
    hide Coherent, Targets, Owned, LogInv, InRange;
    var s' := Step(s, RewindTo(at));
    forall i | 0 <= i < |s'.table.entries|
      ensures s'.table.entries[i].offset < |s'.out| && Owned(s'.table.entries[i], s'.log, s'.out)
    {
      assert s'.table.entries[i] == s.table.entries[i];
      OwnedAfterRewind(s.log, s.out, at, s.table.entries[i]);
    }
  }

  lemma StepKeeps(s: Session, op: Op)
    requires Inv(s) && Allowed(s, op)
    ensures Inv(Step(s, op))
  {
    match op
    case PutName(name) => PutNameKeeps(s, name);
    case LoseName(name) => LoseNameKeeps(s, name);
    case PutOctets(octets) => PutOctetsKeeps(s, octets);
    case RewindTo(at) => RewindKeeps(s, at);
    case Restart =>
  }

  // ---- Every run

  /** `run` leads from `s` to `t`, one allowed step at a time. The table's
      offsets stay pointer-sized in every such run, which `RunInv` shows. */
  ghost predicate Leads(s: Session, run: seq<Op>, t: Session)
    decreases |run|
  {
    if run == [] then s == t
    else Targets(s.table) && Allowed(s, run[0]) && Leads(Step(s, run[0]), run[1..], t)
  }

  lemma {:induction false} RunInv(s: Session, run: seq<Op>, t: Session)
    requires Inv(s) && Leads(s, run, t)
    ensures Inv(t)
    decreases |run|
  {
    if run != [] {
      StepKeeps(s, run[0]);
      RunInv(Step(s, run[0]), run[1..], t);
    }
  }

  /** A spelled name decodes, when it takes no more hops than the decoder allows. */
  lemma SpellsDecodes(out: bytes, s: nat, w: bytes, hops: nat)
    requires Spells(out, s, w, hops) && IsName(w) && hops <= MAX_DEPTH
    ensures DecodeName(out, s, out).Ok? && SameName(DecodeName(out, s, out).value.wire, w)
    ensures DecodeName(out, s, out).value.next == ReadSegment(out, s).value.End()
  {
    DecodeNameExact(out, s, out);
    var x := Expand(out, s).value;
    assert |x.labels + [0]| == |Fold(x.labels + [0])| == |w|;
  }

  /** After any run, every name still in the buffer decodes from its start to its
      stop, to the name it was written for up to ASCII case, when that name has at
      most 50 labels; and it takes no more hops than it has labels. */
  lemma RunDecodes(run: seq<Op>, t: Session, i: nat)
    requires Leads(START, run, t) && i < |t.log|
    ensures var w := t.log[i];
            && IsName(w.name) && Spells(t.out, w.start, w.name, LabelCount(w.name, 0))
            && (LabelCount(w.name, 0) <= 50 ==>
                  && DecodeName(t.out, w.start, t.out).Ok?
                  && DecodeName(t.out, w.start, t.out).value.next == w.stop
                  && SameName(DecodeName(t.out, w.start, t.out).value.wire, w.name))
  {
    RunInv(START, run, t);
    var w := t.log[i];
    assert Stands(w, t.out);
    var part := t.out[..w.stop];
    SpellsExtends(part, t.out, w.start, w.name, LabelCount(w.name, 0));
    ExpandExtends(part, t.out, w.start);
    if LabelCount(w.name, 0) <= 50 {
      SpellsDecodes(t.out, w.start, w.name, LabelCount(w.name, 0));
    }
  }
}
