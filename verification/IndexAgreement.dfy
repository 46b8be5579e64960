/** The hash index answers what the linear scan would, unless hashes collide. */
module IndexAgreement {
  import opened Octets
  import opened Names
  import opened DName
  import opened FoldedHashing
  import opened Compression
  import opened CompressionRuns

  /** No two recorded suffixes that differ share a hash. */
  ghost predicate NoCollision(entries: seq<Entry>) {
    forall i, j :: 0 <= i < |entries| && 0 <= j < |entries| && HashOf(entries[i]) == HashOf(entries[j])
      ==> SameName(entries[i].suffix, entries[j].suffix)
  }

  /** Nothing can be hidden from a lookup: there is no index, or no collision. */
  ghost predicate NothingHidden(t: Table) {
    t.index == map[] || NoCollision(t.entries)
  }

  /** In every coherent table, a lookup that finds something finds what the scan
      finds: the earliest offset of that very name. */
  lemma LookupFoundIsScan(t: Table, needle: bytes)
    requires Coherent(t) && IndexInRange(t) && Lookup(t, needle).Some?
    ensures Lookup(t, needle) == Scan(t.entries, needle)
  {
    if t.index != map[] {
      var i := t.index[FoldedHash(needle)];
      forall k | 0 <= k < i ensures !SameName(t.entries[k].suffix, needle) {
        EarlierDiffers(t, needle, k);
      }
      hide FoldedHash, SameName, Indexes;
      assert First(t.entries, needle, 0) == i;
    }
  }

  /** No entry before the one the index holds for the needle's hash is the needle. */
  lemma EarlierDiffers(t: Table, needle: bytes, k: nat)
    requires Indexes(t.entries, t.index, |t.entries|)
    requires FoldedHash(needle) in t.index && k < t.index[FoldedHash(needle)]
    ensures !SameName(t.entries[k].suffix, needle)
  {
    hide FoldedHash;
    if SameName(t.entries[k].suffix, needle) {
      FoldEqualHashEqual(t.entries[k].suffix, needle);
    }
  }

  /** With no collision recorded, the index misses nothing. */
  lemma LookupIsScan(t: Table, needle: bytes)
    requires Coherent(t) && IndexInRange(t) && NothingHidden(t)
    ensures Lookup(t, needle) == Scan(t.entries, needle)
  {
    var k := First(t.entries, needle, 0);
    if t.index != map[] && k < |t.entries| {
      FoldEqualHashEqual(t.entries[k].suffix, needle);
      var i := t.index[HashOf(t.entries[k])];
      assert HashOf(t.entries[i]) == HashOf(t.entries[k]);
      assert SameName(t.entries[i].suffix, needle);
    }
    if Lookup(t, needle).Some? {
      LookupFoundIsScan(t, needle);
    }
  }

  /** A recorded suffix hidden behind a different one with the same hash is the
      one thing the index loses. */
  lemma HiddenSuffix(t: Table, i: nat, j: nat) returns (lost: nat)
    requires Indexes(t.entries, t.index, |t.entries|) && IndexInRange(t)
    requires i < |t.entries| && j < |t.entries|
    requires HashOf(t.entries[i]) == HashOf(t.entries[j])
    requires !SameName(t.entries[i].suffix, t.entries[j].suffix)
    ensures lost < |t.entries|
    ensures Lookup(t, t.entries[lost].suffix).None? && Scan(t.entries, t.entries[lost].suffix).Some?
  {
    var first := t.index[HashOf(t.entries[i])];
    lost := if SameName(t.entries[first].suffix, t.entries[i].suffix) then j else i;
    assert !SameName(t.entries[first].suffix, t.entries[lost].suffix);
  }

  /** An indexed table agrees with the scan on every needle exactly when no two
      different recorded suffixes share a hash. */
  lemma AgreeIffNoCollision(t: Table)
    requires Indexes(t.entries, t.index, |t.entries|) && IndexInRange(t)
    ensures (forall needle :: Lookup(t, needle) == Scan(t.entries, needle)) <==> NoCollision(t.entries)
  {
    if NoCollision(t.entries) {
      forall needle
        ensures Lookup(t, needle) == Scan(t.entries, needle)
      {
        LookupIsScan(t, needle);
      }
    } else {
      var i, j :| 0 <= i < |t.entries| && 0 <= j < |t.entries|
                  && HashOf(t.entries[i]) == HashOf(t.entries[j])
                  && !SameName(t.entries[i].suffix, t.entries[j].suffix);
      var lost := HiddenSuffix(t, i, j);
    }
  }

  /** The same table with its index thrown away. */
  function Unindexed(t: Table): Table {
    Table(t.entries, map[])
  }

  lemma {:induction false} FindMatchIsScan(t: Table, w: bytes, k: nat)
    requires Coherent(t) && Targets(t) && NothingHidden(t) && NameAt(w, k)
    ensures FindMatch(t, w, k) == FindMatch(Unindexed(t), w, k)
    decreases |w| - k
  {
    hide Lookup, Coherent, NothingHidden;
    if w[k] != 0 {
      UnindexedLookup(t, w[k..]);
      FindMatchIsScan(t, w, k + 1 + w[k]);
    }
  }

  lemma UnindexedLookup(t: Table, needle: bytes)
    requires Coherent(t) && Targets(t) && NothingHidden(t)
    ensures Lookup(t, needle) == Lookup(Unindexed(t), needle)
  {
    LookupIsScan(t, needle);
  }

  /** Writing through the index gives the octets and the entries the scan gives. */
  lemma WriteNameIsScan(t: Table, w: bytes, pos: nat)
    requires Coherent(t) && Targets(t) && NothingHidden(t) && IsName(w)
    ensures var a, b := WriteName(t, w, pos), WriteName(Unindexed(t), w, pos);
            a.octets == b.octets && a.table.entries == b.table.entries
  {
    FindMatchIsScan(t, w, 0);
  }

  // ---- Whole runs

  /** The session as a compressor that never indexes would have it. */
  function Plain(s: Session): Session {
    s.(table := Unindexed(s.table))
  }

  /** A step of such a compressor. */
  function ScanStep(s: Session, op: Op): Session
    requires Targets(s.table)
    requires op.PutName? || op.LoseName? ==> IsName(op.name)
    requires op.RewindTo? ==> op.at <= |s.out|
  {
    Plain(Step(s, op))
  }

  /** `Leads`, by a compressor that only ever scans. */
  ghost predicate ScanLeads(s: Session, run: seq<Op>, t: Session)
    decreases |run|
  {
    if run == [] then s == t
    else Targets(s.table) && Allowed(s, run[0]) && ScanLeads(ScanStep(s, run[0]), run[1..], t)
  }

  /** `Leads`, with no indexed table on the way holding a collision. */
  ghost predicate CleanLeads(s: Session, run: seq<Op>, t: Session)
    decreases |run|
  {
    && NothingHidden(s.table)
    && if run == [] then s == t
       else Targets(s.table) && Allowed(s, run[0]) && CleanLeads(Step(s, run[0]), run[1..], t)
  }

  lemma {:induction false} CleanIsRun(s: Session, run: seq<Op>, t: Session)
    requires CleanLeads(s, run, t)
    ensures Leads(s, run, t)
    decreases |run|
  {
    hide NothingHidden, Step, Targets;
    if run != [] {
      CleanIsRun(Step(s, run[0]), run[1..], t);
    }
  }

  /** Every step, rewinds and failed writes included, does to the entries, the octets
      and the log what it does without an index. */
  lemma StepIsScan(s: Session, op: Op)
    requires Coherent(s.table) && Targets(s.table) && NothingHidden(s.table) && Allowed(s, op)
    ensures Allowed(Plain(s), op) && Targets(Plain(s).table)
    ensures Plain(Step(s, op)) == ScanStep(Plain(s), op)
    ensures Coherent(Step(s, op).table) && Targets(Step(s, op).table)
  {
    hide WriteName, Coherent, NothingHidden;
    match op
    case PutName(name) => WriteKeeps(s.table, name, |s.out|);
    case LoseName(name) => WriteKeeps(s.table, name, |s.out|);
    case PutOctets(_) =>
    case RewindTo(at) => RewindCoherent(s.table, at);
    case Restart => EmptyCoherent();
  }

  lemma EmptyCoherent()
    ensures Coherent(EMPTY_TABLE) && Targets(EMPTY_TABLE) && Unindexed(EMPTY_TABLE) == EMPTY_TABLE
  {
  }

  lemma WriteKeeps(t: Table, w: bytes, pos: nat)
    requires Coherent(t) && Targets(t) && NothingHidden(t) && IsName(w)
    ensures var a, b := WriteName(t, w, pos), WriteName(Unindexed(t), w, pos);
            a.octets == b.octets && a.table.entries == b.table.entries
    ensures Coherent(WriteName(t, w, pos).table) && Targets(WriteName(t, w, pos).table)
  {
    hide WriteName, Coherent, NothingHidden;
    WriteNameIsScan(t, w, pos);
    WriteNameTargets(t, w, pos);
    WriteNameCoherent(t, w, pos);
  }

  lemma {:induction false} ScansAlong(s: Session, run: seq<Op>, t: Session)
    requires Coherent(s.table) && Targets(s.table) && CleanLeads(s, run, t)
    ensures ScanLeads(Plain(s), run, Plain(t))
    decreases |run|
  {
    hide NothingHidden, Step, Targets, Coherent;
    if run != [] {
      StepIsScan(s, run[0]);
      ScansAlong(Step(s, run[0]), run[1..], t);
    }
  }

  /** A scanning run has one outcome. */
  lemma {:induction false} ScanOnce(s: Session, run: seq<Op>, t: Session, u: Session)
    requires ScanLeads(s, run, t) && ScanLeads(s, run, u)
    ensures t == u
    decreases |run|
  {
    hide Step, Targets;
    if run != [] {
      ScanOnce(ScanStep(s, run[0]), run[1..], t, u);
    }
  }

  /** Neither crossing `SCAN_LIMIT` nor rewinding nor a failed write changes anything:
      a run without collisions is a run, and the same run by a compressor that only
      ever scans ends with its octets, its log and its entries, and in no other way. */
  lemma RunIsScan(s: Session, run: seq<Op>, t: Session)
    requires Coherent(s.table) && Targets(s.table) && CleanLeads(s, run, t)
    ensures Leads(s, run, t)
    ensures forall u :: ScanLeads(Plain(s), run, u) <==> u == Plain(t)
  {
    hide NothingHidden, Targets, Coherent, ScanLeads, CleanLeads;
    CleanIsRun(s, run, t);
    ScansAlong(s, run, t);
    forall u | ScanLeads(Plain(s), run, u) ensures u == Plain(t) {
      ScanOnce(Plain(s), run, u, Plain(t));
    }
  }

  // ---- One entry a suffix

  ghost predicate OneEach(entries: seq<Entry>) {
    forall i, j :: 0 <= i < j < |entries| ==> !SameName(entries[i].suffix, entries[j].suffix)
  }

  /** No suffix from `k` up to the match is in the table. */
  lemma {:induction false} NotYetThere(t: Table, w: bytes, k: nat, end: nat, pos: nat)
    requires Coherent(t) && Targets(t) && NothingHidden(t) && NameAt(w, k) && end < |w|
    requires var m := FindMatch(t, w, k); end == if m.Some? then m.value.0 else |w| - 1
    ensures forall i, j :: 0 <= i < |t.entries| && 0 <= j < |Fresh(w, pos, k, end)| ==>
              !SameName(t.entries[i].suffix, Fresh(w, pos, k, end)[j].suffix)
    ensures OneEach(Fresh(w, pos, k, end))
    ensures forall j :: 0 <= j < |Fresh(w, pos, k, end)| ==> |Fresh(w, pos, k, end)[j].suffix| <= |w| - k
    decreases |w| - k
  {
    hide Lookup, Coherent, NothingHidden, SameName;
    if k < end && w[k] != 0 {
      var n := k + 1 + w[k];
      assert Lookup(t, w[k..]).None?;
      LookupIsScan(t, w[k..]);
      ScanMisses(t.entries, w[k..]);
      NotYetThere(t, w, n, end, pos);
      var rest := Fresh(w, pos, n, end);
      forall j | 0 <= j < |rest| ensures !SameName(w[k..], rest[j].suffix) {
        ShorterDiffers(w[k..], rest[j].suffix);
      }
    }
  }

  lemma ScanMisses(entries: seq<Entry>, needle: bytes)
    requires Scan(entries, needle).None?
    ensures forall i :: 0 <= i < |entries| ==> !SameName(entries[i].suffix, needle)
  {
  }

  lemma ShorterDiffers(a: bytes, b: bytes)
    requires |b| < |a|
    ensures !SameName(a, b)
  {
    assert |Fold(a)| == |a| && |Fold(b)| == |b|;
  }

  lemma WriteOneEach(t: Table, w: bytes, pos: nat)
    requires Coherent(t) && Targets(t) && NothingHidden(t) && IsName(w) && OneEach(t.entries)
    ensures OneEach(WriteName(t, w, pos).table.entries)
  {
    if !IsRoot(w) && MatchEnd(t, w) > 0 {
      hide Lookup, Coherent, NothingHidden, SameName, Fresh;
      var added := Fresh(w, pos, 0, MatchEnd(t, w));
      NotYetThere(t, w, 0, MatchEnd(t, w), pos);
      JoinedOneEach(t.entries, added);
    }
  }

  lemma JoinedOneEach(a: seq<Entry>, b: seq<Entry>)
    requires OneEach(a) && OneEach(b)
    requires forall i, j :: 0 <= i < |a| && 0 <= j < |b| ==> !SameName(a[i].suffix, b[j].suffix)
    ensures OneEach(a + b)
  {
    hide SameName;
  }

  lemma StepOneEach(s: Session, op: Op)
    requires Coherent(s.table) && Targets(s.table) && NothingHidden(s.table) && Allowed(s, op)
    requires OneEach(s.table.entries)
    ensures OneEach(Step(s, op).table.entries)
  {
    hide WriteName, Coherent, NothingHidden, SameName;
    if op.PutName? || op.LoseName? {
      WriteOneEach(s.table, op.name, |s.out|);
    }
  }

  /** In every run without collisions no suffix is recorded twice. */
  lemma {:induction false} RecordedOnce(s: Session, run: seq<Op>, t: Session)
    requires Coherent(s.table) && Targets(s.table) && OneEach(s.table.entries) && CleanLeads(s, run, t)
    ensures OneEach(t.table.entries)
    decreases |run|
  {
    hide NothingHidden, Step, Targets, Coherent, OneEach;
    if run != [] {
      StepOneEach(s, run[0]);
      StepIsScan(s, run[0]);
      RecordedOnce(Step(s, run[0]), run[1..], t);
    }
  }

  /** After a collision one can be: whichever of two suffixes with one hash the index
      does not hold is recorded again the next time it is written. */
  lemma RecordedTwice(t: Table, i: nat, j: nat, pos: nat) returns (lost: nat)
    requires Indexes(t.entries, t.index, |t.entries|) && Targets(t)
    requires i < |t.entries| && j < |t.entries|
    requires HashOf(t.entries[i]) == HashOf(t.entries[j])
    requires !SameName(t.entries[i].suffix, t.entries[j].suffix)
    requires forall n :: 0 <= n < |t.entries| ==> IsName(t.entries[n].suffix) && !IsRoot(t.entries[n].suffix)
    requires pos <= POINTER_MASK
    ensures lost < |t.entries|
    ensures var after := WriteName(t, t.entries[lost].suffix, pos).table.entries;
            && |t.entries| < |after| && after[lost] == t.entries[lost]
            && after[|t.entries|] == Entry(t.entries[lost].suffix, pos) && !OneEach(after)
  {
    lost := HiddenSuffix(t, i, j);
    var w := t.entries[lost].suffix;
    WrittenAgain(t, w, pos);
    hide WriteName, NameAt, Lookup, SameName, HashOf, Indexes;
    var after := WriteName(t, w, pos).table.entries;
    assert after[lost] == t.entries[lost];
    SameAsItself(w);
  }

  lemma SameAsItself(w: bytes)
    ensures SameName(w, w)
  {
  }

  lemma WrittenAgain(t: Table, w: bytes, pos: nat)
    requires Targets(t) && IsName(w) && !IsRoot(w) && Lookup(t, w).None? && pos <= POINTER_MASK
    ensures var after := WriteName(t, w, pos).table.entries;
            t.entries <= after && |t.entries| < |after| && after[|t.entries|] == Entry(w, pos)
  {
    hide Lookup;
    assert w[0..] == w;
    assert MatchEnd(t, w) > 0;
    assert Fresh(w, pos, 0, MatchEnd(t, w))[0] == Entry(w, pos);
  }
}
