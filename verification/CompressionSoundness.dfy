/** Every pointer the compressor emits resolves to the name it stands for. */
module CompressionSoundness {
  import opened Octets
  import opened Names
  import opened DName
  import opened FoldedHashing
  import opened Compression

  /** `out` read at `s` stands for `w` up to case, through at most `hops` pointers. */
  ghost predicate Spells(out: bytes, s: nat, w: bytes, hops: nat) {
    && s < |out|
    && Expand(out, s).Some?
    && SameName(Expand(out, s).value.labels + [0], w)
    && Expand(out, s).value.hops <= hops
  }

  /** A table entry is a reachable offset whose octets spell its suffix, through
      fewer pointers than it has labels. */
  ghost predicate EntryOk(e: Entry, out: bytes) {
    && IsName(e.suffix) && !IsRoot(e.suffix)
    && e.offset <= POINTER_MASK
    && LabelCount(e.suffix, 0) > 0
    && Spells(out, e.offset, e.suffix, LabelCount(e.suffix, 0) - 1)
  }

  ghost predicate EntriesOk(entries: seq<Entry>, out: bytes) {
    forall i :: 0 <= i < |entries| ==> EntryOk(entries[i], out)
  }

  /** The compressor's invariant against the octets written so far. */
  ghost predicate Sound(t: Table, out: bytes) {
    Coherent(t) && EntriesOk(t.entries, out)
  }

  lemma SpellsExtends(out: bytes, more: bytes, s: nat, w: bytes, hops: nat)
    requires out <= more && Spells(out, s, w, hops)
    ensures Spells(more, s, w, hops)
  {
    ExpandExtends(out, more, s);
  }

  /** Whatever is appended, the table stays sound. */
  lemma SoundExtends(t: Table, out: bytes, more: bytes)
    requires out <= more && Sound(t, out)
    ensures Sound(t, more)
  {
    forall i | 0 <= i < |t.entries|
      ensures EntryOk(t.entries[i], more)
    {
      var e := t.entries[i];
      assert EntryOk(e, out);
      SpellsExtends(out, more, e.offset, e.suffix, LabelCount(e.suffix, 0) - 1);
    }
  }

  /** What `Lookup` answers was recorded for that name. */
  lemma LookupFound(t: Table, needle: bytes) returns (i: nat)
    requires Targets(t) && Lookup(t, needle).Some?
    ensures i < |t.entries| && SameName(t.entries[i].suffix, needle)
    ensures t.entries[i].offset == Lookup(t, needle).value
  {
    if t.index == map[] {
      i := First(t.entries, needle, 0);
    } else {
      i := t.index[FoldedHash(needle)];
    }
  }

  /** Whole labels copied from `w` read back as one segment. */
  lemma {:induction false} CopiedSegment(out: bytes, base: nat, w: bytes, k: nat, end: nat)
    requires NameAt(w, k) && Reaches(w, k, end) && k <= end < |w|
    requires base + end < |out| && out[base..base + end] == w[..end]
    requires ReadLabel(out, base + end).Ok? && !ReadLabel(out, base + end).value.Text?
    ensures ReadSegment(out, base + k) == ReadSegment(out, base + end)
    ensures ReadSegment(out, base + k).Ok? && ReadSegment(out, base + k).value.litEnd == base + end
    decreases |w| - k
  {
    if k < end {
      var n := k + 1 + w[k];
      assert out[base + k] == out[base..base + end][k] == w[k];
      ReachesNameAt(w, n, end);
      assert ReadLabel(out, base + k).Ok? && ReadLabel(out, base + k).value.Text?;
      CopiedSegment(out, base, w, n, end);
      assert ReadSegment(out, base + k) == ReadSegment(out, base + n);
    }
  }

  /** The tail of a written name: what follows its literal labels. */
  ghost predicate TailOk(out: bytes, at: nat, low: nat, w: bytes, end: nat)
    requires NameAt(w, end)
  {
    && at < |out| && low <= at
    && ReadLabel(out, at).Ok?
    && match ReadLabel(out, at).value
       case Root => w[end] == 0
       case Pointer(t) => t < low && LabelCount(w, end) > 0
                          && Spells(out, t, w[end..], LabelCount(w, end) - 1)
       case Text(_) => false
  }

  lemma SpelledLiterally(out: bytes, s: nat, litEnd: nat)
    requires s <= litEnd < |out| && ReadSegment(out, s) == Ok(Segment(litEnd, ToRoot))
    ensures Spells(out, s, out[s..litEnd] + [0], 0)
  {
  }

  lemma SpelledThrough(out: bytes, s: nat, litEnd: nat, t: nat, rest: bytes, hops: nat)
    requires s <= litEnd < |out| && ReadSegment(out, s) == Ok(Segment(litEnd, ToPointer(t)))
    requires t < s && Spells(out, t, rest, hops)
    ensures Spells(out, s, out[s..litEnd] + rest, hops + 1)
  {
    var head, x := out[s..litEnd], Expand(out, t).value.labels;
    assert Expand(out, s) == Some(Expansion(head + x, Expand(out, t).value.hops + 1));
    assert (head + x) + [0] == head + (x + [0]);
    FoldAppend(head, x + [0]);
    FoldAppend(head, rest);
  }

  lemma CopiedSlice(out: bytes, base: nat, w: bytes, k: nat, end: nat)
    requires k <= end < |w| && base + end < |out| && out[base..base + end] == w[..end]
    ensures w[k..] == out[base + k..base + end] + w[end..]
  {
    SliceOfSlice(out, base, base + end, k, end);
    assert out[base + k..base + end] == w[..end][k..end] == w[k..end];
  }

  lemma SuffixToRoot(out: bytes, base: nat, w: bytes, k: nat, end: nat)
    requires k <= end && end + 1 == |w| && w[end] == 0
    requires base + end < |out| && out[base..base + end] == w[..end]
    requires ReadSegment(out, base + k) == Ok(Segment(base + end, ToRoot))
    ensures Spells(out, base + k, w[k..], 0)
  {
    CopiedSlice(out, base, w, k, end);
    assert w[end..] == [0];
    SpelledLiterally(out, base + k, base + end);
  }

  lemma SuffixToPointer(out: bytes, base: nat, w: bytes, k: nat, end: nat, t: nat, hops: nat)
    requires k <= end < |w|
    requires base + end < |out| && out[base..base + end] == w[..end]
    requires ReadSegment(out, base + k) == Ok(Segment(base + end, ToPointer(t)))
    requires t < base && Spells(out, t, w[end..], hops)
    ensures Spells(out, base + k, w[k..], hops + 1)
  {
    CopiedSlice(out, base, w, k, end);
    SpelledThrough(out, base + k, base + end, t, w[end..], hops);
  }

  /** Each suffix of a written name is spelled where it was written. */
  lemma WrittenSuffix(out: bytes, base: nat, w: bytes, k: nat, end: nat)
    requires NameAt(w, k) && Reaches(w, k, end) && NameAt(w, end)
    requires k <= end < |w| && base + end < |out| && out[base..base + end] == w[..end]
    requires TailOk(out, base + end, base, w, end)
    ensures Spells(out, base + k, w[k..], LabelCount(w, k))
    ensures k < end ==> LabelCount(w, k) > 0 && Spells(out, base + k, w[k..], LabelCount(w, k) - 1)
    ensures ReadSegment(out, base + k) == ReadSegment(out, base + end)
  {
    CopiedSegment(out, base, w, k, end);
    ReachesNameAt(w, k, end);
    match ReadLabel(out, base + end).value
    case Root =>
      SuffixToRoot(out, base, w, k, end);
    case Pointer(t) =>
      SuffixToPointer(out, base, w, k, end, t, LabelCount(w, end) - 1);
  }

  lemma PointerReads(out: bytes, at: nat, t: nat)
    requires t <= POINTER_MASK && at + 2 <= |out| && out[at..at + 2] == PointerTo(t)
    ensures ReadLabel(out, at) == Ok(Pointer(t))
  {
    ReadU16Back(out, at, 0xc000 + t);
    assert out[at] == PointerTo(t)[0];
  }

  lemma EntryWritten(out: bytes, base: nat, w: bytes, k: nat, end: nat)
    requires IsName(w) && NameAt(w, k) && NameAt(w, end) && k < end && Reaches(w, k, end)
    requires end < |w| && base + end < |out| && out[base..base + end] == w[..end]
    requires TailOk(out, base + end, base, w, end)
    requires base + k <= POINTER_MASK
    ensures EntryOk(Entry(w[k..], base + k), out)
  {
    hide NameAt, LabelCount, Reaches, Spells, TailOk;
    WrittenSuffix(out, base, w, k, end);
    SuffixIsName(w, k);
  }

  /** The recorded suffixes of a written name are good targets. */
  lemma {:induction false} FreshOk(out: bytes, base: nat, w: bytes, k: nat, end: nat)
    requires IsName(w) && NameAt(w, k) && NameAt(w, end)
    requires k <= end ==> Reaches(w, k, end)
    requires end < |w| && base + end < |out| && out[base..base + end] == w[..end]
    requires TailOk(out, base + end, base, w, end)
    ensures EntriesOk(Fresh(w, base, k, end), out)
    decreases |w| - k
  {
    hide EntryOk, TailOk;
    if k < end {
      var n := k + 1 + w[k];
      assert w[k] != 0 && NameAt(w, n) && Reaches(w, n, end);
      FreshOk(out, base, w, n, end);
      if base + k <= POINTER_MASK {
        EntryWritten(out, base, w, k, end);
        assert Fresh(w, base, k, end) == [Entry(w[k..], base + k)] + Fresh(w, base, n, end);
      } else {
        assert Fresh(w, base, k, end) == Fresh(w, base, n, end);
      }
    }
  }

  lemma EntriesOkConcat(a: seq<Entry>, b: seq<Entry>, out: bytes)
    requires EntriesOk(a, out) && EntriesOk(b, out)
    ensures EntriesOk(a + b, out)
  {
  }

  /** The literal octets of a written name go up to a label boundary. */
  lemma MatchBoundary(t: Table, w: bytes)
    requires Targets(t) && IsName(w) && !IsRoot(w)
    ensures Reaches(w, 0, MatchEnd(t, w)) && NameAt(w, MatchEnd(t, w)) && MatchEnd(t, w) < |w|
    ensures FindMatch(t, w, 0).None? ==> w[MatchEnd(t, w)] == 0
  {
    ReachesRoot(w, 0);
    ReachesNameAt(w, 0, MatchEnd(t, w));
  }

  /** A matched suffix is spelled at the offset the table gave for it. */
  lemma MatchSpelled(t: Table, out: bytes, w: bytes, end: nat)
    requires Sound(t, out) && Targets(t) && IsName(w) && NameAt(w, end)
    requires Lookup(t, w[end..]).Some?
    ensures var target := Lookup(t, w[end..]).value;
            && target < |out| && LabelCount(w, end) > 0
            && Spells(out, target, w[end..], LabelCount(w, end) - 1)
  {
    var i := LookupFound(t, w[end..]);
    var e := t.entries[i];
    assert EntryOk(e, out);
    SuffixIsName(w, end);
    FoldKeepsShape(e.suffix, w[end..], 0);
  }

  lemma TailPart(out: bytes, head: bytes, tail: bytes, more: bytes)
    requires more == out + (head + tail)
    ensures |more| == |out| + |head| + |tail|
    ensures more[|out| + |head|..|more|] == tail
  {
  }

  lemma PointerPlaced(out: bytes, head: bytes, target: nat, more: bytes)
    requires target <= POINTER_MASK && more == out + (head + PointerTo(target))
    ensures |more| == |out| + |head| + 2
    ensures ReadLabel(more, |out| + |head|) == Ok(Pointer(target))
  {
    hide PointerTo, ReadLabel;
    TailPart(out, head, PointerTo(target), more);
    PointerReads(more, |out| + |head|, target);
  }

  lemma PointerTail(out: bytes, more: bytes, w: bytes, end: nat, target: nat)
    requires end < |w| && NameAt(w, end) && LabelCount(w, end) > 0
    requires target < |out| && target <= POINTER_MASK
    requires Spells(out, target, w[end..], LabelCount(w, end) - 1)
    requires more == out + (w[..end] + PointerTo(target))
    ensures TailOk(more, |out| + end, |out|, w, end)
    ensures ReadSegment(more, |out| + end) == Ok(Segment(|out| + end, ToPointer(target)))
    ensures |out| + end + 2 == |more|
  {
    hide NameAt, LabelCount, Spells, PointerTo, ReadLabel;
    PointerPlaced(out, w[..end], target, more);
    SpellsExtends(out, more, target, w[end..], LabelCount(w, end) - 1);
  }

  lemma RootTail(out: bytes, more: bytes, w: bytes, end: nat)
    requires end + 1 == |w| && NameAt(w, end) && more == out + (w[..end] + [0])
    ensures TailOk(more, |out| + end, |out|, w, end)
    ensures ReadSegment(more, |out| + end) == Ok(Segment(|out| + end, ToRoot))
    ensures |out| + end + 1 == |more|
  {
    assert more[|out| + end] == 0;
  }

  lemma LiteralPart(out: bytes, head: bytes, tail: bytes, more: bytes)
    requires more == out + (head + tail)
    ensures more[|out|..|out| + |head|] == head
  {
  }

  ghost predicate Tailed(out: bytes, w: bytes, more: bytes, end: nat)
  {
    && end < |w| && NameAt(w, end)
    && |out| + end < |more| && more[|out|..|out| + end] == w[..end]
    && TailOk(more, |out| + end, |out|, w, end)
    && ReadSegment(more, |out| + end).Ok?
    && ReadSegment(more, |out| + end).value.End() == |more|
  }

  lemma MatchedTail(t: Table, out: bytes, w: bytes, more: bytes, end: nat, target: nat)
    requires Sound(t, out) && Targets(t) && IsName(w) && NameAt(w, end)
    requires Lookup(t, w[end..]) == Some(target) && target <= POINTER_MASK
    requires more == out + (w[..end] + PointerTo(target))
    ensures Tailed(out, w, more, end)
  {
    hide LabelCount, Spells, PointerTo, Sound, Lookup, TailOk, ReadSegment;
    MatchSpelled(t, out, w, end);
    LiteralPart(out, w[..end], PointerTo(target), more);
    PointerTail(out, more, w, end, target);
  }

  lemma UnmatchedTail(out: bytes, w: bytes, more: bytes, end: nat)
    requires end + 1 == |w| && NameAt(w, end) && more == out + (w[..end] + [0])
    ensures Tailed(out, w, more, end)
  {
    hide TailOk, ReadSegment;
    LiteralPart(out, w[..end], [0], more);
    RootTail(out, more, w, end);
  }

  /** The end of a written name, once its literal octets and tail are in place. */
  lemma WrittenTail(t: Table, out: bytes, w: bytes)
    requires Sound(t, out) && Targets(t) && IsName(w) && !IsRoot(w)
    ensures Reaches(w, 0, MatchEnd(t, w))
    ensures Tailed(out, w, out + WriteName(t, w, |out|).octets, MatchEnd(t, w))
  {
    hide Sound, Lookup, Tailed, PointerTo, Fresh, Record;
    var m, end := FindMatch(t, w, 0), MatchEnd(t, w);
    LookupTarget(t, w[end..]);
    MatchBoundary(t, w);
    var more := out + WriteName(t, w, |out|).octets;
    if m.Some? {
      MatchedTail(t, out, w, more, end, m.value.1);
    } else {
      UnmatchedTail(out, w, more, end);
    }
  }

  /** `write_name` keeps the table sound, and what it appended is one name that
      spells `w` through no more pointers than `w` has labels. */
  lemma WriteNameSound(t: Table, out: bytes, w: bytes)
    requires Sound(t, out) && Targets(t) && IsName(w)
    ensures var c := WriteName(t, w, |out|);
            var more := out + c.octets;
            && Sound(c.table, more)
            && Spells(more, |out|, w, LabelCount(w, 0))
            && ReadSegment(more, |out|).Ok? && ReadSegment(more, |out|).value.End() == |more|
  {
    hide NameAt, LabelCount, Reaches, Spells, EntryOk, TailOk, Lookup, Coherent;
    var c := WriteName(t, w, |out|);
    var more := out + c.octets;
    SoundExtends(t, out, more);
    if IsRoot(w) {
      RootWritten(out, more, w);
    } else {
      WrittenTail(t, out, w);
      WrittenSuffix(more, |out|, w, 0, MatchEnd(t, w));
      assert w[0..] == w;
      NewTableSound(t, out, w, more);
    }
  }

  lemma NewTableSound(t: Table, out: bytes, w: bytes, more: bytes)
    requires Sound(t, more) && Targets(t) && IsName(w) && !IsRoot(w)
    requires Reaches(w, 0, MatchEnd(t, w)) && Tailed(out, w, more, MatchEnd(t, w))
    ensures Sound(WriteName(t, w, |out|).table, more)
  {
    hide NameAt, LabelCount, Reaches, Spells, EntryOk, PointerTo, TailOk, Lookup, Coherent;
    var end := MatchEnd(t, w);
    if end > 0 {
      var added := Fresh(w, |out|, 0, end);
      FreshOk(more, |out|, w, 0, end);
      EntriesOkConcat(t.entries, added, more);
      RecordCoherent(t, added);
    }
  }

  lemma RootWritten(out: bytes, more: bytes, w: bytes)
    requires IsName(w) && IsRoot(w) && more == out + [0]
    ensures ReadSegment(more, |out|) == Ok(Segment(|out|, ToRoot))
    ensures Spells(more, |out|, w, LabelCount(w, 0))
  {
    assert LabelCount(w, 0) == 0;
    assert w == [0] && more[|out|] == 0;
    SpelledLiterally(more, |out|, |out|);
    assert more[|out|..|out|] + [0] == [0];
  }
}
