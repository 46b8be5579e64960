/** What the serializers append for each field, as functions of the table, the
    position and the buffer's size: the octets, or the error that stops them. */
module Emission {
  import opened Octets
  import opened Names
  import opened DName
  import opened Compression

  // The types whose RDATA names may be compressed, and the OPT pseudo-record.
  const NS := 2
  const CNAME := 5
  const SOA := 6
  const PTR := 12
  const MX := 15
  const OPT := 41

  /** `write_bytes` at `pos` of a buffer of `cap` octets. */
  function Emit(cap: nat, t: Table, pos: nat, octets: bytes): (r: Result<Chunk>) {
    if pos + |octets| > cap then Err(OutputFull) else Ok(Chunk(t, octets))
  }

  /** `more` right after `c`, which was written at `pos`. */
  function EmitAfter(cap: nat, c: Chunk, pos: nat, more: bytes): (r: Result<Chunk>) {
    Emit(cap, c.table, pos, c.octets + more)
  }

  function EmitName(cap: nat, t: Table, pos: nat, w: bytes): (r: Result<Chunk>)
    requires Targets(t) && IsName(w)
    ensures r.Ok? ==> Targets(r.value.table) && t.entries <= r.value.table.entries
  {
    WriteNameTargets(t, w, pos);
    var c := WriteName(t, w, pos);
    Emit(cap, c.table, pos, c.octets)
  }

  /** `skip` fixed octets, one name, and whatever follows it in the RDATA. */
  function EmitOneName(cap: nat, t: Table, pos: nat, skip: nat, rdata: bytes): (r: Result<Chunk>)
    requires Targets(t) && skip <= |rdata|
    ensures r.Ok? ==> Targets(r.value.table)
  {
    if skip > 0 && pos + skip > cap then Err(OutputFull)
    else
      var n :- DecodePlain(rdata, skip);
      var c :- EmitName(cap, t, pos + skip, n.wire);
      EmitAfter(cap, Chunk(c.table, rdata[..skip] + c.octets), pos, rdata[n.next..])
  }

  /** Two names, and whatever follows them: both are read before either is written. */
  function EmitTwoNames(cap: nat, t: Table, pos: nat, rdata: bytes): (r: Result<Chunk>)
    requires Targets(t)
    ensures r.Ok? ==> Targets(r.value.table)
  {
    var m :- DecodePlain(rdata, 0);
    var n :- DecodePlain(rdata, m.next);
    var c :- EmitName(cap, t, pos, m.wire);
    var d :- EmitName(cap, c.table, pos + |c.octets|, n.wire);
    EmitAfter(cap, Chunk(d.table, c.octets + d.octets), pos, rdata[n.next..])
  }

  /** The types `write_rdata` reads names out of. */
  predicate HoldsNames(rtype: nat) {
    rtype == NS || rtype == CNAME || rtype == PTR || rtype == SOA || rtype == MX
  }

  /** `write_rdata`: the names of RFC 1035's own types are compressed, everything
      else goes out octet for octet (RFC 3597 section 4). */
  function EmitRdata(cap: nat, t: Table, pos: nat, rtype: nat, rdata: bytes): (r: Result<Chunk>)
    requires Targets(t)
    ensures r.Ok? ==> Targets(r.value.table)
    ensures r.Ok? ==> pos + |r.value.octets| <= cap
  {
    if rtype == NS || rtype == CNAME || rtype == PTR then EmitOneName(cap, t, pos, 0, rdata)
    else if rtype == SOA then EmitTwoNames(cap, t, pos, rdata)
    else if rtype == MX then
      if |rdata| < 2 then Err(Truncated) else EmitOneName(cap, t, pos, 2, rdata)
    else Emit(cap, t, pos, rdata)
  }

  // ---- What the table holds afterwards, whether or not the octets fitted

  function TableAfterName(t: Table, pos: nat, w: bytes): (r: Table)
    requires Targets(t) && IsName(w)
    ensures Targets(r)
  {
    WriteNameTargets(t, w, pos);
    WriteName(t, w, pos).table
  }

  function TableAfterOneName(cap: nat, t: Table, pos: nat, skip: nat, rdata: bytes): (r: Table)
    requires Targets(t) && skip <= |rdata|
    ensures Targets(r)
  {
    if skip > 0 && pos + skip > cap then t
    else match DecodePlain(rdata, skip)
      case Err(_) => t
      case Ok(n) => TableAfterName(t, pos + skip, n.wire)
  }

  function TableAfterTwoNames(cap: nat, t: Table, pos: nat, rdata: bytes): (r: Table)
    requires Targets(t)
    ensures Targets(r)
  {
    match DecodePlain(rdata, 0)
    case Err(_) => t
    case Ok(m) => match DecodePlain(rdata, m.next)
      case Err(_) => t
      case Ok(n) =>
        var u, end := TableAfterName(t, pos, m.wire), pos + |WriteName(t, m.wire, pos).octets|;
        if end > cap then u else TableAfterName(u, end, n.wire)
  }

  /** `write_rdata` records every name it comes to before it writes it. */
  function TableAfterRdata(cap: nat, t: Table, pos: nat, rtype: nat, rdata: bytes): (r: Table)
    requires Targets(t)
    ensures Targets(r)
  {
    if rtype == NS || rtype == CNAME || rtype == PTR then TableAfterOneName(cap, t, pos, 0, rdata)
    else if rtype == SOA then TableAfterTwoNames(cap, t, pos, rdata)
    else if rtype == MX && |rdata| >= 2 then TableAfterOneName(cap, t, pos, 2, rdata)
    else t
  }

  lemma RdataTable(cap: nat, t: Table, pos: nat, rtype: nat, rdata: bytes)
    requires Targets(t) && EmitRdata(cap, t, pos, rtype, rdata).Ok?
    ensures TableAfterRdata(cap, t, pos, rtype, rdata) == EmitRdata(cap, t, pos, rtype, rdata).value.table
  {
    hide Targets, WriteName, DecodePlain, IsName;
  }
}
