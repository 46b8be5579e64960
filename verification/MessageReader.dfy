/** `DnsMessage::try_from_bytes` as it runs: one loop a section, each pushing what
    it reads onto a list. */
module MessageReader {
  import opened Octets
  import opened Records
  import opened Messages

  /** `rest` read after `done`. */
  function Carried<T>(done: seq<T>, rest: Result<At<seq<T>>>): Result<At<seq<T>>> {
    match rest
    case Ok(at) => Ok(At(done + at.item, at.next))
    case Err(e) => Err(e)
  }

  lemma CarriedNone<T>(rest: Result<At<seq<T>>>)
    ensures Carried([], rest) == rest
  {
    if rest.Ok? {
      assert [] + rest.value.item == rest.value.item;
    }
  }

  lemma CarriedMore<T>(done: seq<T>, x: T, rest: Result<At<seq<T>>>)
    ensures Carried(done + [x], rest)
            == Carried(done, match rest case Ok(at) => Ok(At([x] + at.item, at.next)) case Err(e) => Err(e))
  {
    if rest.Ok? {
      Assoc(done, [x], rest.value.item);
    }
  }

  lemma CarriedEnd<T>(done: seq<T>, pos: nat)
    ensures Carried(done, Ok(At([], pos))) == Ok(At(done, pos))
  {
    assert done + [] == done;
  }

  method ReadQueries(data: bytes, start: nat, n: nat) returns (r: Result<At<seq<Query>>>)
    requires start <= |data|
    ensures r == ParseQueries(data, start, n)
  {
    hide ParseQuery, Carried;
    var queries: seq<Query>, pos: nat, left: nat := [], start, n;
    CarriedNone(ParseQueries(data, start, n));
    while left > 0
      invariant pos <= |data|
      invariant ParseQueries(data, start, n) == Carried(queries, ParseQueries(data, pos, left))
    {
      var q := ParseQuery(data, pos);
      CarriedFails(queries, ParseQueries(data, pos, left));
      if q.Err? { return Err(q.error); }
      CarriedMore(queries, q.value.item, ParseQueries(data, q.value.next, left - 1));
      queries, pos, left := queries + [q.value.item], q.value.next, left - 1;
    }
    CarriedEnd(queries, pos);
    r := Ok(At(queries, pos));
  }

  lemma CarriedFails<T>(done: seq<T>, rest: Result<At<seq<T>>>)
    ensures rest.Err? ==> Carried(done, rest) == Err(rest.error)
  {
  }

  method ReadRecords(data: bytes, start: nat, n: nat) returns (r: Result<At<seq<Record>>>)
    requires start <= |data|
    ensures r == ParseRecords(data, start, n)
  {
    hide ParseRecord, Carried;
    var records: seq<Record>, pos: nat, left: nat := [], start, n;
    CarriedNone(ParseRecords(data, start, n));
    while left > 0
      invariant pos <= |data|
      invariant ParseRecords(data, start, n) == Carried(records, ParseRecords(data, pos, left))
    {
      var rr := ParseRecord(data, pos);
      CarriedFails(records, ParseRecords(data, pos, left));
      if rr.Err? { return Err(rr.error); }
      CarriedMore(records, rr.value.item, ParseRecords(data, rr.value.next, left - 1));
      records, pos, left := records + [rr.value.item], rr.value.next, left - 1;
    }
    CarriedEnd(records, pos);
    r := Ok(At(records, pos));
  }

  // ---- The additional section, with its OPT taken out as it is read

  function Gathered(done: seq<Record>, opt: Option<(Edns, u32)>, rest: Result<At<Extras>>): Result<At<Extras>> {
    match rest
    case Err(e) => Err(e)
    case Ok(at) => Ok(At(Extras(done + at.item.records, if opt.Some? then opt else at.item.opt), at.next))
  }

  /** After an OPT, the rest of the section holds none. */
  lemma {:induction false} NoSecondOpt(data: bytes, pos: nat, n: nat)
    requires pos <= |data| && ParseAdditionals(data, pos, n, true).Ok?
    ensures ParseAdditionals(data, pos, n, true).value.item.opt == None
    decreases n
  {
    hide ParseAdditional;
    if n > 0 {
      NoSecondOpt(data, ParseAdditional(data, pos).value.next, n - 1);
    }
  }

  lemma GatheredRecord(done: seq<Record>, opt: Option<(Edns, u32)>, rr: Record, rest: Result<At<Extras>>)
    ensures Gathered(done + [rr], opt, rest)
            == Gathered(done, opt, match rest
                        case Err(e) => Err(e)
                        case Ok(at) => Ok(At(at.item.(records := [rr] + at.item.records), at.next)))
  {
    if rest.Ok? {
      Assoc(done, [rr], rest.value.item.records);
    }
  }

  lemma GatheredNone(rest: Result<At<Extras>>)
    ensures Gathered([], None, rest) == rest
  {
    if rest.Ok? {
      assert [] + rest.value.item.records == rest.value.item.records;
    }
  }

  method ReadAdditionals(data: bytes, start: nat, n: nat) returns (r: Result<At<Extras>>)
    requires start <= |data|
    ensures r == ParseAdditionals(data, start, n, false)
  {
    hide ParseAdditional;
    var records: seq<Record>, opt: Option<(Edns, u32)>, pos: nat, left: nat := [], None, start, n;
    GatheredNone(ParseAdditionals(data, start, n, false));
    while left > 0
      invariant pos <= |data|
      invariant ParseAdditionals(data, start, n, false)
                == Gathered(records, opt, ParseAdditionals(data, pos, left, opt.Some?))
    {
      var x := ParseAdditional(data, pos);
      if x.Err? { return Err(x.error); }
      var next := x.value.next;
      match x.value.item {
        case Plain(rr) =>
          GatheredRecord(records, opt, rr, ParseAdditionals(data, next, left - 1, opt.Some?));
          records := records + [rr];
        case Opt(edns, bits) =>
          if opt.Some? { return Err(Malformed); }
          if ParseAdditionals(data, next, left - 1, true).Ok? {
            NoSecondOpt(data, next, left - 1);
          }
          opt := Some((edns, bits));
      }
      pos, left := next, left - 1;
    }
    assert records + [] == records;
    r := Ok(At(Extras(records, opt), pos));
  }

  /** `DnsMessage::try_from_bytes`: total on every octet string. */
  method ReadMessage(data: bytes) returns (r: Result<DnsMessage>)
    ensures r == ParseMessage(data)
  {
    hide ParseQueries, ParseRecords, ParseAdditionals, Assemble;
    if |data| < HEADER_LEN { return Err(Truncated); }
    var q := ReadQueries(data, HEADER_LEN, ReadU16(data, 4));
    if q.Err? { return Err(q.error); }
    var an := ReadRecords(data, q.value.next, ReadU16(data, 6));
    if an.Err? { return Err(an.error); }
    var ns := ReadRecords(data, an.value.next, ReadU16(data, 8));
    if ns.Err? { return Err(ns.error); }
    var ar := ReadAdditionals(data, ns.value.next, ReadU16(data, 10));
    if ar.Err? { return Err(ar.error); }
    r := Ok(Assemble(data, q.value.item, an.value.item, ns.value.item, ar.value.item));
  }

  // ---- TXT

  /** The TXT arm of `decode`. */
  method ReadStrings(rdata: bytes) returns (r: Result<seq<bytes>>)
    ensures r == DecodeStrings(rdata)
  {
    var strings: seq<bytes>, rest := [], rdata;
    PrependNone(DecodeStrings(rdata));
    while rest != []
      invariant DecodeStrings(rdata) == Prepend(strings, DecodeStrings(rest))
      decreases |rest|
    {
      var len := rest[0];
      if |rest| - 1 < len { return Err(Truncated); }
      PrependMore(strings, rest[1..1 + len], DecodeStrings(rest[1 + len..]));
      strings, rest := strings + [rest[1..1 + len]], rest[1 + len..];
    }
    assert strings + [] == strings;
    r := Ok(strings);
  }
}
