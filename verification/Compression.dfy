/** Writing names with pointers (RFC 1035 section 4.1.4), as functions of the
    suffix table and the position. What a name is written as never
    depends on the octets already in the buffer, only on the table. */
module Compression {
  import opened Octets
  import opened Names
  import opened DName
  import opened FoldedHashing

  /** How many suffixes the linear scan is kept for. */
  const SCAN_LIMIT := 128

  /** A suffix and the offset it was first written at. */
  datatype Entry = Entry(suffix: bytes, offset: nat)

  /** `seen`, and the index from folded hash to position in `seen`, empty until
      the table outgrows the scan. */
  datatype Table = Table(entries: seq<Entry>, index: map<nat, nat>)

  const EMPTY_TABLE := Table([], map[])

  /** Names compare with ASCII case folded (RFC 4343). */
  predicate SameName(a: bytes, b: bytes) {
    Fold(a) == Fold(b)
  }

  // ---- Lookup

  /** The first entry from `i` on that is the needle up to case. */
  function First(entries: seq<Entry>, needle: bytes, i: nat): (k: nat)
    requires i <= |entries|
    ensures i <= k <= |entries|
    ensures forall j :: i <= j < k ==> !SameName(entries[j].suffix, needle)
    ensures k < |entries| ==> SameName(entries[k].suffix, needle)
    decreases |entries| - i
  {
    if i == |entries| || SameName(entries[i].suffix, needle) then i
    else First(entries, needle, i + 1)
  }

  /** The linear scan. */
  function Scan(entries: seq<Entry>, needle: bytes): Option<nat> {
    var k := First(entries, needle, 0);
    if k < |entries| then Some(entries[k].offset) else None
  }

  predicate InRange(index: map<nat, nat>, n: nat) {
    forall h :: h in index ==> index[h] < n
  }

  predicate IndexInRange(t: Table) {
    InRange(t.index, |t.entries|)
  }

  function Lookup(t: Table, needle: bytes): Option<nat>
    requires IndexInRange(t)
  {
    if t.index == map[] then Scan(t.entries, needle)
    else
      var h := FoldedHash(needle);
      if h !in t.index then None
      else
        var e := t.entries[t.index[h]];
        if SameName(e.suffix, needle) then Some(e.offset) else None
  }

  // ---- The index

  function HashOf(e: Entry): nat {
    FoldedHash(e.suffix)
  }

  /** `note`: keep whichever entry is already there. */
  function Note(entries: seq<Entry>, index: map<nat, nat>, i: nat): map<nat, nat>
    requires i < |entries|
  {
    var h := HashOf(entries[i]);
    if h in index then index else index[h := i]
  }

  function NoteAll(entries: seq<Entry>, index: map<nat, nat>, i: nat): map<nat, nat>
    requires i <= |entries|
    decreases |entries| - i
  {
    if i == |entries| then index else NoteAll(entries, Note(entries, index, i), i + 1)
  }

  /** `index_from`, after the entries from `first` on were appended. */
  function IndexFrom(entries: seq<Entry>, index: map<nat, nat>, first: nat): map<nat, nat>
    requires first <= |entries|
  {
    if index == map[] then
      if |entries| <= SCAN_LIMIT then index else NoteAll(entries, index, 0)
    else
      NoteAll(entries, index, first)
  }

  /** `index` holds, for each hash among the first `n` entries, the earliest. */
  ghost predicate Indexes(entries: seq<Entry>, index: map<nat, nat>, n: nat)
    requires n <= |entries|
  {
    && (forall h :: h in index ==> index[h] < n && HashOf(entries[index[h]]) == h)
    && (forall j :: 0 <= j < n ==> HashOf(entries[j]) in index && index[HashOf(entries[j])] <= j)
  }

  /** Every reachable table: no index while it is small, or a complete one. */
  ghost predicate Coherent(t: Table) {
    || (t.index == map[] && |t.entries| <= SCAN_LIMIT)
    || Indexes(t.entries, t.index, |t.entries|)
  }

  lemma {:induction false} NoteAllIndexes(entries: seq<Entry>, index: map<nat, nat>, i: nat)
    requires i <= |entries| && Indexes(entries, index, i)
    ensures Indexes(entries, NoteAll(entries, index, i), |entries|)
    decreases |entries| - i
  {
    hide HashOf;
    if i < |entries| {
      NoteAllIndexes(entries, Note(entries, index, i), i + 1);
    }
  }

  // ---- Writing a name

  /** The longest suffix already in the table: its start in `w` and its offset. */
  function FindMatch(t: Table, w: bytes, k: nat): (r: Option<(nat, nat)>)
    requires IndexInRange(t) && NameAt(w, k)
    ensures r.Some? ==> k <= r.value.0 < |w| - 1 && Reaches(w, k, r.value.0)
    ensures r.Some? ==> Lookup(t, w[r.value.0..]) == Some(r.value.1)
    decreases |w| - k
  {
    if w[k] == 0 then None
    else
      assert NameAt(w, k + 1 + w[k]);
      match Lookup(t, w[k..])
      case Some(target) => Some((k, target))
      case None => FindMatch(t, w, k + 1 + w[k])
  }

  /** Entries for the suffixes of `w` that start in `k..end`, written out at
      `pos`, as far as fourteen bits reach. */
  function Fresh(w: bytes, pos: nat, k: nat, end: nat): (r: seq<Entry>)
    requires NameAt(w, k) && end < |w|
    decreases |w| - k
  {
    if k >= end then []
    else
      (if pos + k <= POINTER_MASK then [Entry(w[k..], pos + k)] else [])
      + Fresh(w, pos, k + 1 + w[k], end)
  }

  function PointerTo(target: nat): (r: bytes)
    requires target <= POINTER_MASK
    ensures |r| == 2
  {
    U16(0xc000 + target)
  }

  /** The table afterwards, and the octets written. */
  datatype Chunk = Chunk(table: Table, octets: bytes)

  predicate Targets(t: Table) {
    && IndexInRange(t)
    && forall i :: 0 <= i < |t.entries| ==> t.entries[i].offset <= POINTER_MASK
  }

  /** How much of `w` is written literally: all but the root octet, or all that
      precedes the matched suffix. */
  function MatchEnd(t: Table, w: bytes): (end: nat)
    requires IndexInRange(t) && NameAt(w, 0)
    ensures end < |w|
  {
    var m := FindMatch(t, w, 0);
    if m.Some? then m.value.0 else |w| - 1
  }

  /** `write_name`. */
  function WriteName(t: Table, w: bytes, pos: nat): (c: Chunk)
    requires Targets(t) && IsName(w)
  {
    if IsRoot(w) then Chunk(t, [0])
    else
      var m, end := FindMatch(t, w, 0), MatchEnd(t, w);
      LookupTarget(t, w[end..]);
      var tail := if m.Some? then PointerTo(m.value.1) else [0];
      Chunk(if end == 0 then t else Record(t, Fresh(w, pos, 0, end)), w[..end] + tail)
  }

  function Record(t: Table, added: seq<Entry>): Table {
    var entries := t.entries + added;
    Table(entries, IndexFrom(entries, t.index, |t.entries|))
  }

  lemma LookupTarget(t: Table, needle: bytes)
    requires Targets(t)
    ensures Lookup(t, needle).Some? ==> Lookup(t, needle).value <= POINTER_MASK
  {
  }

  lemma TargetsInRange(t: Table)
    requires Targets(t)
    ensures IndexInRange(t)
  {
  }

  /** The match is the longest: no suffix of the name before it is in the table, and with
      no match none is. */
  lemma {:induction false} LongestMatch(t: Table, w: bytes, k: nat, j: nat)
    requires Targets(t) && NameAt(w, k) && Reaches(w, k, j) && NameAt(w, j) && w[j] != 0
    ensures var m := FindMatch(t, w, k);
            && (m.Some? && j < m.value.0 ==> Lookup(t, w[j..]).None?)
            && (m.None? ==> Lookup(t, w[j..]).None?)
    decreases |w| - k
  {
    hide Lookup, Targets;
    TargetsInRange(t);
    ReachesNameAt(w, k, j);
    if k != j && Lookup(t, w[k..]).None? {
      LongestMatch(t, w, k + 1 + w[k], j);
    }
  }

  /** Every suffix written out where a pointer can reach is recorded, at its offset. */
  lemma {:induction false} SuffixRecorded(w: bytes, pos: nat, k: nat, end: nat, j: nat)
    requires NameAt(w, k) && end < |w| && Reaches(w, k, j) && j < end && pos + j <= 0x3fff
    ensures j <= |w| && Entry(w[j..], pos + j) in Fresh(w, pos, k, end)
    decreases |w| - k
  {
    ReachesNameAt(w, k, j);
    if k != j {
      SuffixRecorded(w, pos, k + 1 + w[k], end, j);
    }
  }

  // ---- What every write keeps

  lemma {:induction false} FreshTargets(w: bytes, pos: nat, k: nat, end: nat)
    requires NameAt(w, k) && end < |w|
    ensures forall i :: 0 <= i < |Fresh(w, pos, k, end)| ==> Fresh(w, pos, k, end)[i].offset <= POINTER_MASK
    decreases |w| - k
  {
    if k < end {
      FreshTargets(w, pos, k + 1 + w[k], end);
    }
  }

  lemma {:induction false} NoteAllInRange(entries: seq<Entry>, index: map<nat, nat>, i: nat)
    requires i <= |entries| && InRange(index, |entries|)
    ensures InRange(NoteAll(entries, index, i), |entries|)
    decreases |entries| - i
  {
    hide HashOf;
    if i < |entries| {
      NoteAllInRange(entries, Note(entries, index, i), i + 1);
    }
  }

  lemma WriteNameTargets(t: Table, w: bytes, pos: nat)
    requires Targets(t) && IsName(w)
    ensures Targets(WriteName(t, w, pos).table)
    ensures t.entries <= WriteName(t, w, pos).table.entries
  {
    if !IsRoot(w) && MatchEnd(t, w) > 0 {
      var added := Fresh(w, pos, 0, MatchEnd(t, w));
      FreshTargets(w, pos, 0, MatchEnd(t, w));
      RecordTargets(t, added);
    }
  }

  lemma RecordTargets(t: Table, added: seq<Entry>)
    requires Targets(t)
    requires forall i :: 0 <= i < |added| ==> added[i].offset <= POINTER_MASK
    ensures Targets(Record(t, added))
  {
    hide NoteAll;
    var entries := t.entries + added;
    assert InRange(t.index, |entries|);
    NoteAllInRange(entries, t.index, |t.entries|);
    NoteAllInRange(entries, t.index, 0);
  }
  lemma RecordCoherent(t: Table, added: seq<Entry>)
    requires Coherent(t)
    ensures Coherent(Record(t, added))
  {
    var entries := t.entries + added;
    if t.index == map[] {
      if |entries| > SCAN_LIMIT {
        NoteAllIndexes(entries, t.index, 0);
      }
    } else {
      assert Indexes(entries, t.index, |t.entries|);
      NoteAllIndexes(entries, t.index, |t.entries|);
    }
  }

  lemma WriteNameCoherent(t: Table, w: bytes, pos: nat)
    requires Coherent(t) && Targets(t) && IsName(w)
    ensures Coherent(WriteName(t, w, pos).table)
  {
    if !IsRoot(w) && MatchEnd(t, w) > 0 {
      RecordCoherent(t, Fresh(w, pos, 0, MatchEnd(t, w)));
    }
  }

  /** `rewind`: the entries before `at`, and what the index said of them. */
  function Rewind(t: Table, at: nat): Table
    requires IndexInRange(t)
  {
    var keep := KeepCount(t.entries, at);
    Table(t.entries[..keep], map h | h in t.index && t.index[h] < keep :: t.index[h])
  }

  /** The partition point of "offset below `at`". */
  function KeepCount(entries: seq<Entry>, at: nat): (k: nat)
    ensures k <= |entries|
    ensures forall i :: 0 <= i < k ==> entries[i].offset < at
    ensures k < |entries| ==> entries[k].offset >= at
  {
    if entries == [] || entries[0].offset >= at then 0 else 1 + KeepCount(entries[1..], at)
  }
}
