/** Which type number is read and written as what, with the numbers of the registry
    written out, and where in the RDATA each field stands. */
module RecordTypes {
  import opened Octets
  import opened Names
  import opened DName
  import opened Compression
  import opened Emission
  import opened SvcParams
  import opened Records
  import opened WireLayout

  // ---- Reading

  /** The name at `at`, as the reference expansion has it: at most 50 pointers and 255
      octets. */
  ghost function NameMeant(data: bytes, at: nat, msg: bytes): (r: Option<Decoded>)
    requires at <= |data|
  {
    match ReadSegment(data, at)
    case Err(_) => None
    case Ok(seg) =>
      var lit := data[at..seg.litEnd];
      match seg.tail
      case ToRoot => if |lit| + 1 <= 255 then Some(Decoded(lit + [0], seg.End())) else None
      case ToPointer(t) =>
        if t >= |msg| || Expand(msg, t).None? then None
        else
          var x := Expand(msg, t).value;
          if x.hops + 1 <= 50 && |lit| + |x.labels| + 1 <= 255
          then Some(Decoded(lit + x.labels + [0], seg.End())) else None
  }

  /** The decoder's answer or its failure. */
  ghost predicate Means<T>(r: Result<T>, meant: Option<T>) {
    if meant.Some? then r == Ok(meant.value) else r.Err?
  }

  lemma NameIsMeant(data: bytes, at: nat, msg: bytes)
    requires at <= |data|
    ensures Means(DecodeName(data, at, msg), NameMeant(data, at, msg))
    ensures NameMeant(data, at, msg).Some? ==> at < NameMeant(data, at, msg).value.next <= |data|
  {
    hide ReadSegment, Unpack, Expand;
    DecodeNameExact(data, at, msg);
    var seg := ReadSegment(data, at);
    if seg.Ok? && seg.value.tail.ToRoot? {
      assert data[at..seg.value.litEnd] + [] == data[at..seg.value.litEnd];
    }
  }

  /** Empty RDATA is carried as it is under every type; any other is left undecoded
      exactly when its type is none of these. */
  lemma DecodedTypes(rtype: u16, rdata: bytes, msg: bytes)
    ensures Decode(rtype, [], msg) == Ok(Unknown(rtype))
    ensures rdata != [] ==>
              (Decode(rtype, rdata, msg) == Ok(Unknown(rtype))
               <==> rtype !in {1, 2, 5, 6, 12, 15, 16, 28, 39, 43, 46, 47, 48, 50, 59, 60, 64, 65})
    ensures Decode(rtype, rdata, msg).Ok? && Decode(rtype, rdata, msg).value.Unknown?
            ==> Decode(rtype, rdata, msg) == Ok(Unknown(rtype))
  {
    hide DecodeName, DecodeStrings, DecodeParams, ReadU16, ReadU32;
  }

  /** Addresses are 4 and 16 octets; NS, CNAME, PTR and DNAME are one name. */
  lemma AddressAndHost(rtype: u16, rdata: bytes, msg: bytes)
    requires rdata != []
    ensures rtype == 1 ==> Means(Decode(rtype, rdata, msg), if |rdata| == 4 then Some(Address(1, rdata)) else None)
    ensures rtype == 28 ==> Means(Decode(rtype, rdata, msg), if |rdata| == 16 then Some(Address(28, rdata)) else None)
    ensures rtype in {2, 5, 12, 39} ==>
              Means(Decode(rtype, rdata, msg),
                    match NameMeant(rdata, 0, msg) case Some(n) => Some(Host(rtype, n.wire)) case None => None)
  {
    hide DecodeName, NameMeant;
    NameIsMeant(rdata, 0, msg);
  }

  /** An MX is a preference and a name; an SOA two names and five numbers. */
  lemma MxAndSoa(rdata: bytes, msg: bytes)
    requires rdata != []
    ensures Means(Decode(15, rdata, msg),
                  if |rdata| < 2 then None
                  else match NameMeant(rdata, 2, msg) case Some(n) => Some(Mx(Word(rdata, 0), n.wire)) case None => None)
    ensures NameMeant(rdata, 0, msg).Some? ==> NameMeant(rdata, 0, msg).value.next <= |rdata|
    ensures Means(Decode(6, rdata, msg), SoaMeant(rdata, msg))
  {
    hide DecodeName, NameMeant, ReadU16, ReadU32;
    NameIsMeant(rdata, 0, msg);
    if |rdata| >= 2 {
      NameIsMeant(rdata, 2, msg);
      Numbers(rdata, 0);
    }
    if NameMeant(rdata, 0, msg).Some? {
      var m := NameMeant(rdata, 0, msg).value.next;
      NameIsMeant(rdata, m, msg);
      if NameMeant(rdata, m, msg).Some? {
        SoaNumbers(rdata, NameMeant(rdata, m, msg).value.next);
      }
    }
  }

  ghost function SoaMeant(rdata: bytes, msg: bytes): (r: Option<Parsed>) {
    NameIsMeant(rdata, 0, msg);
    match NameMeant(rdata, 0, msg)
    case None => None
    case Some(m) =>
      NameIsMeant(rdata, m.next, msg);
      match NameMeant(rdata, m.next, msg)
      case None => None
      case Some(n) =>
        var p := n.next;
        if |rdata| < p + 20 then None
        else Some(Soa(m.wire, n.wire, Long(rdata, p), Long(rdata, p + 4), Long(rdata, p + 8), Long(rdata, p + 12), Long(rdata, p + 16)))
  }

  lemma SoaNumbers(rdata: bytes, p: nat)
    ensures p + 20 <= |rdata| ==>
              && ReadU32(rdata, p) == Long(rdata, p) && ReadU32(rdata, p + 4) == Long(rdata, p + 4)
              && ReadU32(rdata, p + 8) == Long(rdata, p + 8) && ReadU32(rdata, p + 12) == Long(rdata, p + 12)
              && ReadU32(rdata, p + 16) == Long(rdata, p + 16)
  {
    hide ReadU32, Long;
    Numbers(rdata, p);
    Numbers(rdata, p + 4);
    Numbers(rdata, p + 8);
    Numbers(rdata, p + 12);
    Numbers(rdata, p + 16);
  }

  /** DS and CDS; DNSKEY and CDNSKEY. */
  lemma DigestAndKey(rtype: u16, rdata: bytes, msg: bytes)
    requires rdata != []
    ensures rtype in {43, 59} ==>
              Means(Decode(rtype, rdata, msg),
                    if |rdata| < 4 then None else Some(Signer(rtype, Word(rdata, 0), rdata[2], rdata[3], rdata[4..])))
    ensures rtype in {48, 60} ==>
              Means(Decode(rtype, rdata, msg),
                    if |rdata| < 4 then None else Some(Key(rtype, Word(rdata, 0), rdata[2], rdata[3], rdata[4..])))
  {
    hide DecodeName;
  }

  /** An RRSIG: the expiration is before the inception, the signer a name, the rest the
      signature. An NSEC: a name, the rest the type bitmap. */
  lemma SignatureAndNext(rdata: bytes, msg: bytes)
    requires rdata != []
    ensures Means(Decode(46, rdata, msg),
                  if |rdata| < 18 then None
                  else match NameMeant(rdata, 18, msg)
                    case None => None
                    case Some(s) =>
                      NameIsMeant(rdata, 18, msg);
                      Some(Rrsig(Word(rdata, 0), rdata[2], rdata[3], Long(rdata, 4), Long(rdata, 12), Long(rdata, 8),
                                 Word(rdata, 16), s.wire, rdata[s.next..])))
    ensures Means(Decode(47, rdata, msg),
                  match NameMeant(rdata, 0, msg)
                  case None => None
                  case Some(n) => NameIsMeant(rdata, 0, msg); Some(Nsec(n.wire, rdata[n.next..])))
  {
    hide DecodeName, NameMeant, ReadU16, ReadU32;
    NameIsMeant(rdata, 0, msg);
    if |rdata| >= 18 {
      NameIsMeant(rdata, 18, msg);
      Numbers(rdata, 0);
      Numbers(rdata, 4);
      Numbers(rdata, 8);
      Numbers(rdata, 12);
      Numbers(rdata, 16);
    }
  }

  /** An NSEC3: algorithm, flags, iterations, a counted salt, a counted hash, the rest the
      type bitmap. SVCB and HTTPS: a priority, a name, the rest the parameters. */
  lemma HashedAndService(rtype: u16, rdata: bytes, msg: bytes)
    requires rdata != []
    ensures var p := if |rdata| < 5 then 0 else 5 + rdata[4] as int;
            Means(Decode(50, rdata, msg),
                  if |rdata| < 5 || |rdata| <= p || |rdata| < p + 1 + rdata[p] then None
                  else Some(Nsec3(rdata[0], rdata[1], Word(rdata, 2), rdata[5..p], rdata[p + 1..p + 1 + rdata[p]],
                                  rdata[p + 1 + rdata[p]..])))
    ensures rtype in {64, 65} ==>
              Means(Decode(rtype, rdata, msg),
                    if |rdata| < 2 then None
                    else match NameMeant(rdata, 2, msg)
                      case None => None
                      case Some(t) =>
                        NameIsMeant(rdata, 2, msg);
                        match DecodeParams(rdata[t.next..], None)
                        case Err(_) => None
                        case Ok(params) => Some(Svcb(rtype, Word(rdata, 0), t.wire, params)))
  {
    hide DecodeName, NameMeant, DecodeParams, ReadU16;
    if |rdata| >= 2 {
      NameIsMeant(rdata, 2, msg);
      Numbers(rdata, 0);
    }
    if |rdata| >= 4 {
      Numbers(rdata, 2);
    }
  }

  /** Strings, each after its length. */
  function CountedStrings(strings: seq<bytes>): (r: bytes)
    requires forall i :: 0 <= i < |strings| ==> |strings[i]| < 256
  {
    if strings == [] then [] else [|strings[0]|] + strings[0] + CountedStrings(strings[1..])
  }

  lemma {:induction false} StringsIff(rdata: bytes, s: seq<bytes>)
    ensures DecodeStrings(rdata) == Ok(s) <==> (forall i :: 0 <= i < |s| ==> |s[i]| < 256) && CountedStrings(s) == rdata
    decreases |rdata|
  {
    if rdata == [] || s == [] {
      return;
    }
    var len := rdata[0];
    if |rdata| - 1 >= len {
      assert rdata == [len] + rdata[1..1 + len] + rdata[1 + len..];
      StringsIff(rdata[1 + len..], s[1..]);
      assert s == [s[0]] + s[1..];
    }
    if (forall i :: 0 <= i < |s| ==> |s[i]| < 256) && CountedStrings(s) == rdata {
      FirstCounted(s[0], CountedStrings(s[1..]));
    }
  }

  lemma FirstCounted(first: bytes, rest: bytes)
    requires |first| < 256
    ensures var x: bytes := [|first|] + first + rest;
            x[0] == |first| && |x| == 1 + |first| + |rest| && x[1..1 + |first|] == first && x[1 + |first|..] == rest
  {
  }

  /** A TXT is counted strings to the end. */
  lemma TxtIff(rdata: bytes, msg: bytes, s: seq<bytes>)
    requires rdata != []
    ensures Decode(16, rdata, msg) == Ok(Txt(s))
            <==> (forall i :: 0 <= i < |s| ==> |s[i]| < 256) && CountedStrings(s) == rdata
  {
    hide DecodeName, DecodeStrings, CountedStrings;
    StringsIff(rdata, s);
  }

  // ---- Writing

  /** `write_rdata` compresses names in types 2, 5, 6, 12 and 15 and copies the RDATA of
      every other. */
  lemma CopiedTypes(cap: nat, t: Table, pos: nat, rtype: u16, rdata: bytes)
    requires Targets(t)
    ensures HoldsNames(rtype) <==> rtype in {2, 5, 6, 12, 15}
    ensures rtype !in {2, 5, 6, 12, 15} ==> EmitRdata(cap, t, pos, rtype, rdata) == Emit(cap, t, pos, rdata)
  {
    hide EmitOneName, EmitTwoNames, Targets;
  }

  /** In 2, 5 and 12 the one name, in 15 the name after the preference. */
  lemma OneNameTypes(cap: nat, t: Table, pos: nat, rtype: u16, w: bytes, pref: bytes)
    requires Targets(t) && IsName(w) && |pref| == 2
    ensures rtype in {2, 5, 12} ==> EmitRdata(cap, t, pos, rtype, w) == EmitName(cap, t, pos, w)
    ensures var c := WriteName(t, w, pos + 2);
            EmitRdata(cap, t, pos, 15, pref + w)
            == if pos + 2 + |c.octets| > cap then Err(OutputFull) else Ok(Chunk(c.table, pref + c.octets))
  {
    hide WriteName, Targets, IsName, DecodePlain;
    assert w[..0] == [] && w[|w|..] == [] && (pref + w)[..2] == pref && (pref + w)[|pref + w|..] == [];
    assert [] + w + [] == w && pref + w + [] == pref + w;
    StoredInside([], w, []);
    StoredInside(pref, w, []);
    var c, d := WriteName(t, w, pos), WriteName(t, w, pos + 2);
    assert [] + c.octets + [] == c.octets && pref + d.octets + [] == pref + d.octets;
  }

  /** In 6 the two names, the twenty octets after them as they are. */
  lemma SoaNames(cap: nat, t: Table, pos: nat, m: bytes, n: bytes, rest: bytes)
    requires Targets(t) && IsName(m) && IsName(n) && EmitRdata(cap, t, pos, 6, m + n + rest).Ok?
    ensures Targets(WriteName(t, m, pos).table)
    ensures var x := WriteName(t, m, pos);
            var y := WriteName(x.table, n, pos + |x.octets|);
            EmitRdata(cap, t, pos, 6, m + n + rest) == Ok(Chunk(y.table, x.octets + y.octets + rest))
  {
    hide WriteName, Targets, IsName, DecodePlain;
    WriteNameTargets(t, m, pos);
    assert [] + m + (n + rest) == m + n + rest;
    StoredInside([], m, n + rest);
    StoredInside(m, n, rest);
    assert (m + n + rest)[|m| + |n|..] == rest;
  }
}
