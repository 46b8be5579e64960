/** What an accepted message holds: as many entries as its header counts, each read
    where the one before it ended, and the OPT taken out wherever it stood. */
module ParsedSections {
  import opened Octets
  import opened DName
  import opened Codes
  import opened Messages
  import opened WireLayout

  // ---- The additional section

  /** `n` additional records one after another, OPTs left among them. */
  function Items(data: bytes, pos: nat, n: nat): (r: Result<At<seq<Additional>>>)
    requires pos <= |data|
    ensures r.Ok? ==> |r.value.item| == n && r.value.next <= |data|
    decreases n
  {
    if n == 0 then Ok(At([], pos))
    else
      var x :- ParseAdditional(data, pos);
      var rest :- Items(data, x.next, n - 1);
      Ok(At([x.item] + rest.item, rest.next))
  }

  function Plains(items: seq<Additional>): (r: seq<Record>) {
    if items == [] then []
    else if items[0].Plain? then [items[0].record] + Plains(items[1..])
    else Plains(items[1..])
  }

  function Opts(items: seq<Additional>): (r: seq<(Edns, u32)>) {
    if items == [] then []
    else if items[0].Opt? then [(items[0].edns, items[0].bits)] + Opts(items[1..])
    else Opts(items[1..])
  }

  lemma {:induction false} PlainsAndOpts(items: seq<Additional>)
    ensures |Plains(items)| + |Opts(items)| == |items|
    decreases |items|
  {
    if items != [] {
      PlainsAndOpts(items[1..]);
    }
  }

  lemma FirstItem(x: Additional, rest: seq<Additional>)
    ensures Plains([x] + rest) == (if x.Plain? then [x.record] else []) + Plains(rest)
    ensures Opts([x] + rest) == (if x.Opt? then [(x.edns, x.bits)] else []) + Opts(rest)
  {
    assert ([x] + rest)[1..] == rest;
  }

  /** How a section comes out of its items. */
  ghost predicate Sorted(r: Result<At<Extras>>, items: Result<At<seq<Additional>>>, seen: bool) {
    && (r.Ok? <==> items.Ok? && |Opts(items.value.item)| <= if seen then 0 else 1)
    && (r.Ok? ==>
          var opts := Opts(items.value.item);
          && r.value.next == items.value.next && r.value.item.records == Plains(items.value.item)
          && r.value.item.opt == if opts == [] then None else Some(opts[0]))
  }

  /** The section is accepted exactly when every item reads and one OPT at most is among
      them, wherever; the other items come out in order, and none is lost. */
  lemma {:induction false} AdditionalsExact(data: bytes, pos: nat, n: nat, seen: bool)
    requires pos <= |data|
    ensures Sorted(ParseAdditionals(data, pos, n, seen), Items(data, pos, n), seen)
    decreases n
  {
    hide ParseAdditional;
    if n > 0 && ParseAdditional(data, pos).Ok? {
      var x := ParseAdditional(data, pos).value;
      AdditionalsExact(data, x.next, n - 1, seen || x.item.Opt?);
      if Items(data, x.next, n - 1).Ok? {
        FirstItem(x.item, Items(data, x.next, n - 1).value.item);
      }
    }
  }

  /** An item is the OPT exactly when the TYPE after its owner is 41; any other is the
      record that stands there. */
  lemma ItemKind(data: bytes, pos: nat)
    requires pos <= |data| && ParseAdditional(data, pos).Ok?
    ensures ReadSegment(data, pos).Ok? && ReadSegment(data, pos).value.End() + 10 <= |data|
    ensures var p, x := ReadSegment(data, pos).value.End(), ParseAdditional(data, pos).value;
            && (x.item.Opt? <==> data[p] == 0 && data[p + 1] == 41)
            && (x.item.Plain? ==> ParseRecord(data, pos) == Ok(At(x.item.record, x.next)))
  {
    hide ReadSegment, FromParts, ReadU32;
  }

  /** The items stand one behind another from `pos`. */
  lemma {:induction false} ItemsFollow(data: bytes, pos: nat, n: nat) returns (at: seq<nat>)
    requires pos <= |data| && Items(data, pos, n).Ok?
    ensures var x := Items(data, pos, n).value;
            && |at| == n + 1 && at[0] == pos && at[n] == x.next
            && forall i :: 0 <= i < n ==> at[i] <= |data| && ParseAdditional(data, at[i]) == Ok(At(x.item[i], at[i + 1]))
    decreases n
  {
    hide ParseAdditional;
    if n == 0 {
      at := [pos];
    } else {
      var x := ParseAdditional(data, pos).value;
      var rest := ItemsFollow(data, x.next, n - 1);
      at := [pos] + rest;
    }
  }

  // ---- Counts

  lemma {:induction false} QueriesCounted(data: bytes, pos: nat, n: nat)
    requires pos <= |data| && ParseQueries(data, pos, n).Ok?
    ensures |ParseQueries(data, pos, n).value.item| == n
    decreases n
  {
    hide ParseQuery;
    if n > 0 {
      QueriesCounted(data, ParseQuery(data, pos).value.next, n - 1);
    }
  }

  lemma {:induction false} RecordsCounted(data: bytes, pos: nat, n: nat)
    requires pos <= |data| && ParseRecords(data, pos, n).Ok?
    ensures |ParseRecords(data, pos, n).value.item| == n
    decreases n
  {
    hide ParseRecord;
    if n > 0 {
      RecordsCounted(data, ParseRecord(data, pos).value.next, n - 1);
    }
  }

  /** An accepted message holds what its header counts, the OPT counted as an
      additional record; its additional records are all the items of that section but
      the OPT, in order, wherever the OPT stood. */
  lemma SectionsCounted(data: bytes) returns (start: nat)
    requires ParseMessage(data).Ok?
    ensures |data| >= 12 && start <= |data|
    ensures var m := ParseMessage(data).value;
            && |m.queries| == Word(data, 4) && |m.answers| == Word(data, 6) && |m.authorities| == Word(data, 8)
            && |m.additionals| + (if m.edns.Some? then 1 else 0) == Word(data, 10)
    ensures var m, items := ParseMessage(data).value, Items(data, start, Word(data, 10));
            && items.Ok? && m.additionals == Plains(items.value.item)
            && (m.edns.None? <==> Opts(items.value.item) == [])
            && (m.edns.Some? ==> |Opts(items.value.item)| == 1 && m.edns.value == Opts(items.value.item)[0].0)
            && m.rcode == CodeFrom((if m.edns.Some? then Opts(items.value.item)[0].1 / 0x100_0000 * 16 else 0) + data[3] % 16)
  {
    hide ParseQueries, ParseRecords, ParseAdditionals, Items, CodeFrom, FlagsFrom;
    var q := ParseQueries(data, HEADER_LEN, Word(data, 4)).value;
    QueriesCounted(data, HEADER_LEN, Word(data, 4));
    var an := ParseRecords(data, q.next, Word(data, 6)).value;
    RecordsCounted(data, q.next, Word(data, 6));
    var ns := ParseRecords(data, an.next, Word(data, 8)).value;
    RecordsCounted(data, an.next, Word(data, 8));
    start := ns.next;
    AdditionalsExact(data, start, Word(data, 10), false);
    PlainsAndOpts(Items(data, start, Word(data, 10)).value.item);
  }
}
