/** The decoder allows 50 pointer hops and the writer has no cap: how deep a chain
    the compressor can build, and from which label count on it is refused. */
module HopCap {
  import opened Octets
  import opened Names
  import opened DName
  import opened Compression
  import opened CompressionSoundness
  import opened CompressionRuns

  /** The name of `n` labels, each the single octet 'a'. */
  function Nest(n: nat): (w: bytes)
    ensures |w| == 2 * n + 1
  {
    if n == 0 then [0] else [1, 97] + Nest(n - 1)
  }

  lemma {:induction false} NestIsName(n: nat)
    ensures NameAt(Nest(n), 0) && LabelCount(Nest(n), 0) == n
    ensures n <= 127 ==> IsName(Nest(n))
  {
    if n > 0 {
      NestIsName(n - 1);
      assert Nest(n)[2..] == Nest(n - 1);
      NameAtShift(Nest(n), 2, 2);
    }
  }

  /** Write `a.`, then `a.a.`, and so on to `n` labels. */
  function Nested(n: nat): (s: Session)
    requires n <= 127
    ensures Targets(s.table)
  {
    if n == 0 then START
    else
      NestIsName(n);
      var before := Nested(n - 1);
      WriteNameTargets(before.table, Nest(n), |before.out|);
      Step(before, PutName(Nest(n)))
  }

  /** Where the `k`-label name went. */
  function NestPos(k: nat): nat
    requires k >= 1
  {
    if k == 1 then 0 else 4 * k - 5
  }

  /** After `n` names: one entry each, no index, and `n - 1` hops to the last. */
  ghost predicate NestShape(s: Session, n: nat)
    requires 1 <= n <= 127
  {
    && s.table.index == map[] && |s.table.entries| == n
    && (forall k {:trigger s.table.entries[k]} :: 0 <= k < n ==> s.table.entries[k] == Entry(Nest(k + 1), NestPos(k + 1)))
    && |s.out| == 4 * n - 1 && NestPos(n) < |s.out|
    && Expand(s.out, NestPos(n)).Some? && Expand(s.out, NestPos(n)).value.hops == n - 1
    && !s.stale
  }

  lemma DifferentDepths(j: nat, k: nat)
    ensures SameName(Nest(j), Nest(k)) <==> j == k
  {
    assert |Fold(Nest(j))| == 2 * j + 1 && |Fold(Nest(k))| == 2 * k + 1;
  }

  /** The scan stops at the first entry that is the needle. */
  lemma ScanIs(t: Table, needle: bytes, k: nat)
    requires t.index == map[] && k <= |t.entries| && forall j :: 0 <= j < k ==> !SameName(t.entries[j].suffix, needle)
    requires k < |t.entries| ==> SameName(t.entries[k].suffix, needle)
    ensures Lookup(t, needle) == if k < |t.entries| then Some(t.entries[k].offset) else None
  {
    hide SameName, First;
    assert First(t.entries, needle, 0) == k;
  }

  lemma NestEntry(s: Session, n: nat, j: nat)
    requires 1 <= n <= 127 && NestShape(s, n)
    ensures s.table.index == map[] && |s.table.entries| == n
    ensures j < n ==> s.table.entries[j] == Entry(Nest(j + 1), NestPos(j + 1))
  {
    hide Nest, Expand;
  }

  /** The scan finds the `k`-label name exactly when it has been written. */
  lemma NestLookup(s: Session, n: nat, k: nat)
    requires 1 <= n <= 127 && 1 <= k && NestShape(s, n)
    ensures Lookup(s.table, Nest(k)) == if k <= n then Some(NestPos(k)) else None
  {
    hide Nest, NestShape, SameName, Lookup, NestPos;
    var at := if k <= n then k - 1 else n;
    NestEntry(s, n, at);
    forall j | 0 <= j < at
      ensures !SameName(s.table.entries[j].suffix, Nest(k))
    {
      NestEntry(s, n, j);
      DifferentDepths(j + 1, k);
    }
    DifferentDepths(k, k);
    ScanIs(s.table, Nest(k), at);
  }

  /** Two octets and a pointer to the name one label shorter. */
  lemma NestWrite(s: Session, n: nat)
    requires 2 <= n <= 127 && NestShape(s, n - 1) && Targets(s.table) && IsName(Nest(n))
    ensures NestPos(n) == |s.out| && NestPos(n - 1) <= POINTER_MASK
    ensures WriteName(s.table, Nest(n), |s.out|)
            == Chunk(Table(s.table.entries + [Entry(Nest(n), |s.out|)], map[]),
                     [1, 97] + PointerTo(NestPos(n - 1)))
  {
    hide NestShape, Lookup, PointerTo;
    var t, w := s.table, Nest(n);
    assert |s.out| == 4 * n - 5 && t.index == map[] && |t.entries| == n - 1 by { NestSize(s, n - 1); }
    assert w[0..] == w && w[2..] == Nest(n - 1) && w[..2] == [1, 97];
    NestLookup(s, n - 1, n);
    NestLookup(s, n - 1, n - 1);
    assert NameAt(w, 2) && w[2] != 0;
    assert FindMatch(t, w, 2) == Some((2, NestPos(n - 1)));
    assert FindMatch(t, w, 0) == Some((2, NestPos(n - 1)));
    assert Fresh(w, |s.out|, 2, 2) == [];
    assert Fresh(w, |s.out|, 0, 2) == [Entry(w, |s.out|)];
  }

  lemma NestSize(s: Session, n: nat)
    requires 1 <= n <= 127 && NestShape(s, n)
    ensures |s.out| == 4 * n - 1 && s.table.index == map[] && |s.table.entries| == n
  {
  }

  /** A pointer after two literal octets costs one hop more. */
  lemma OneMoreHop(out: bytes, head: bytes, t: nat, more: bytes)
    requires t < |out| && t <= POINTER_MASK && Expand(out, t).Some?
    requires head == [] || head == [1, 97]
    requires more == out + (head + PointerTo(t))
    ensures Expand(more, |out|).Some? && Expand(more, |out|).value.hops == Expand(out, t).value.hops + 1
  {
    PointerPlaced(out, head, t, more);
    ExpandExtends(out, more, t);
    if head != [] {
      assert more[|out|] == 1;
    }
    hide PointerTo, ReadLabel;
    HopSegment(more, |out|, |out| + |head|, t);
    hide ReadSegment;
    assert Expand(more, |out|).Some?;
  }

  lemma HopSegment(msg: bytes, p: nat, at: nat, t: nat)
    requires at < |msg| && ReadLabel(msg, at) == Ok(Pointer(t))
    requires p == at || (p + 2 == at && msg[p] == 1)
    ensures ReadSegment(msg, p) == Ok(Segment(at, ToPointer(t)))
  {
    if p < at {
      assert ReadLabel(msg, p).Ok? && ReadLabel(msg, p).value.Text? && |ReadLabel(msg, p).value.octets| == 1;
    }
    hide ReadLabel;
    assert ReadSegment(msg, at) == Ok(Segment(at, ToPointer(t)));
  }

  lemma NestedIs(n: nat)
    requires 1 <= n <= 127
    ensures IsName(Nest(n))
    ensures var s, c := Nested(n - 1), WriteName(Nested(n - 1).table, Nest(n), |Nested(n - 1).out|);
            Nested(n).table == c.table && Nested(n).out == s.out + c.octets && !Nested(n).stale
  {
    NestIsName(n);
    hide WriteName, Nest, NameAt, Targets;
  }

  lemma {:induction false} NestedShape(n: nat)
    requires 1 <= n <= 127
    ensures NestShape(Nested(n), n)
  {
    hide Nested, NestShape, WriteName, NameAt, PointerTo, Nest, Targets, NestPos, Step, IsName;
    if n == 1 {
      FirstNest();
    } else {
      NestedIs(n);
      NestedShape(n - 1);
      NestWrite(Nested(n - 1), n);
      NestGrows(Nested(n - 1), Nested(n), n);
    }
  }

  lemma FirstWrite()
    ensures IsName([1, 97, 0])
    ensures WriteName(EMPTY_TABLE, [1, 97, 0], 0) == Chunk(Table([Entry([1, 97, 0], 0)], map[]), [1, 97, 0])
  {
    var w: bytes := [1, 97, 0];
    assert NameAt(w, 2) && NameAt(w, 0);
    assert w[0..] == w && w[2..] == [0] && w[..2] == [1, 97];
    assert FindMatch(EMPTY_TABLE, w, 2).None?;
    assert FindMatch(EMPTY_TABLE, w, 0).None?;
    assert Fresh(w, 0, 2, 2) == [];
    assert Fresh(w, 0, 0, 2) == [Entry(w, 0)];
  }

  lemma FirstExpands(out: bytes)
    requires out == [1, 97, 0]
    ensures Expand(out, 0) == Some(Expansion([1, 97], 0))
  {
    assert ReadSegment(out, 2) == Ok(Segment(2, ToRoot));
    assert ReadSegment(out, 0) == Ok(Segment(2, ToRoot));
    assert out[0..2] == [1, 97];
  }

  lemma FirstNest()
    ensures NestShape(Nested(1), 1)
  {
    hide WriteName, Expand, NameAt;
    NestIsName(1);
    FirstWrite();
    assert Nest(0) == [0] && Nest(1) == [1, 97, 0] && Nested(0) == START;
    var out := Nested(1).out;
    assert out == [1, 97, 0];
    FirstExpands(out);
  }

  lemma NestGrows(s: Session, s': Session, n: nat)
    requires 2 <= n <= 127 && NestShape(s, n - 1) && NestPos(n) == |s.out| && NestPos(n - 1) <= POINTER_MASK
    requires s'.table == Table(s.table.entries + [Entry(Nest(n), |s.out|)], map[])
    requires s'.out == s.out + ([1, 97] + PointerTo(NestPos(n - 1))) && !s'.stale
    ensures NestShape(s', n)
  {
    hide Nest, PointerTo, Expand;
    OneMoreHop(s.out, [1, 97], NestPos(n - 1), s'.out);
    forall k | 0 <= k < n
      ensures s'.table.entries[k] == Entry(Nest(k + 1), NestPos(k + 1))
    {
      if k < n - 1 {
        assert s'.table.entries[k] == s.table.entries[k];
      }
    }
  }

  /** Writing the deepest name once more: `n` labels, and `n` hops. */
  lemma AgainTakesAllHops(n: nat)
    requires 1 <= n <= 127 && IsName(Nest(n))
    ensures var s := Nested(n);
            var s' := Step(s, PutName(Nest(n)));
            && s'.log[|s'.log| - 1] == Written(|s.out|, |s'.out|, Nest(n))
            && |s.out| <= |s'.out|
            && Expand(s'.out, |s.out|).Some? && Expand(s'.out, |s.out|).value.hops == n
  {
    var s, w := Nested(n), Nest(n);
    NestedShape(n);
    NestLookup(s, n, n);
    assert w[0..] == w && w[..0] == [];
    assert FindMatch(s.table, w, 0) == Some((0, NestPos(n)));
    var s' := Step(s, PutName(w));
    assert s'.out == s.out + ([] + PointerTo(NestPos(n)));
    OneMoreHop(s.out, [], NestPos(n), s'.out);
  }

  /** The decoder takes a name back exactly when its chain is within the cap. */
  lemma DecodesIffHops(out: bytes, s: nat)
    requires s < |out| && Expand(out, s).Some? && |Expand(out, s).value.labels| < MAX_NAME_LEN
    ensures DecodeName(out, s, out).Ok? <==> Expand(out, s).value.hops <= MAX_DEPTH
  {
    DecodeNameExact(out, s, out);
  }

  /** Fifty labels is the exact safe bound: in the run that nests one label at a
      time, the last name decodes if and only if it has at most 50 labels. At 51
      the compressor wrote a name its own decoder refuses. */
  lemma FiftyLabelsIsExact(n: nat)
    requires 1 <= n <= 127 && IsName(Nest(n))
    ensures var s := Step(Nested(n), PutName(Nest(n)));
            var w := s.log[|s.log| - 1];
            && w.name == Nest(n) && LabelCount(w.name, 0) == n && w.start < |s.out|
            && (DecodeName(s.out, w.start, s.out).Ok? <==> n <= 50)
  {
    AgainTakesAllHops(n);
    NestedShape(n);
    NestIsName(n);
    var s, at := Step(Nested(n), PutName(Nest(n))), |Nested(n).out|;
    NestedInv(n);
    PutNameKeeps(Nested(n), Nest(n));
    assert Stands(s.log[|s.log| - 1], s.out);
    AgainLength(s, at, Nest(n));
    DecodesIffHops(s.out, at);
  }

  lemma AgainLength(s: Session, at: nat, w: bytes)
    requires Stands(Written(at, |s.out|, w), s.out)
    ensures at < |s.out| && Expand(s.out, at).Some? && |Expand(s.out, at).value.labels| < MAX_NAME_LEN
  {
    assert s.out[..|s.out|] == s.out;
    var x := Expand(s.out, at).value;
    assert |x.labels + [0]| == |Fold(x.labels + [0])| == |w|;
  }

  lemma {:induction false} NestedInv(n: nat)
    requires n <= 127
    ensures Inv(Nested(n)) && !Nested(n).stale
  {
    hide Inv, Nest, NameAt, WriteName, Targets, Step;
    if n == 0 {
      StartInv();
    } else {
      NestedInv(n - 1);
      NestIsName(n);
      PutNameKeeps(Nested(n - 1), Nest(n));
      WrittenIsLive(Nested(n - 1), Nest(n));
    }
  }

  lemma StartInv()
    ensures Inv(START) && !START.stale
  {
  }

  lemma WrittenIsLive(s: Session, name: bytes)
    requires Targets(s.table) && IsName(name)
    ensures !Step(s, PutName(name)).stale
  {
    hide WriteName;
  }

  // ---- That run is one of the runs `RunDecodes` speaks of.

  lemma {:induction false} LeadsOn(s: Session, run: seq<Op>, t: Session, op: Op)
    requires Leads(s, run, t) && Targets(t.table) && Allowed(t, op)
    ensures Leads(s, run + [op], Step(t, op))
    decreases |run|
  {
    if run == [] {
      assert (run + [op])[1..] == [];
    } else {
      LeadsOn(Step(s, run[0]), run[1..], t, op);
      assert (run + [op])[1..] == run[1..] + [op];
    }
  }

  lemma {:induction false} NestedIsARun(n: nat) returns (run: seq<Op>)
    requires n <= 127
    ensures Leads(START, run, Nested(n))
  {
    hide Nest, NameAt, WriteName, Targets, Inv, Step, Leads;
    run := [];
    if n == 0 {
      NoSteps();
    } else {
      run := NestedIsARun(n - 1);
      NestIsName(n);
      NestedInv(n - 1);
      LeadsOn(START, run, Nested(n - 1), PutName(Nest(n)));
      run := run + [PutName(Nest(n))];
    }
  }

  lemma NoSteps()
    ensures Leads(START, [], START)
  {
  }
}
