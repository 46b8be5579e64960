/** Stored RDATA is a normal form: whatever message it came from, it decodes again
    to the same typed record, needs no message to do so, and normalising it once
    more changes nothing. */
module NormalForm {
  import opened Octets
  import opened Names
  import opened DName
  import opened Emission
  import opened SvcParams
  import opened Records

  /** What a typed record must be to have an encoding that reads back: exactly
      what `Decode` yields. */
  ghost predicate Canonical(p: Parsed) {
    match p
    case Address(rtype, addr) => (rtype == A && |addr| == 4) || (rtype == AAAA && |addr| == 16)
    case Host(rtype, name) => IsHost(rtype) && IsName(name)
    case Soa(m, n, _, _, _, _, _) => IsName(m) && IsName(n)
    case Svcb(rtype, _, target, params) =>
      (rtype == SVCB || rtype == HTTPS) && IsName(target) && Increasing(params) && ValuesFit(params)
    case Mx(_, exchange) => IsName(exchange)
    case Txt(strings) => strings != [] && StringsFit(strings)
    case Key(rtype, _, _, _, _) => rtype == DNSKEY || rtype == CDNSKEY
    case Rrsig(_, _, _, _, _, _, _, signer, _) => IsName(signer)
    case Signer(rtype, _, _, _, _) => rtype == DS || rtype == CDS
    case Nsec(next, _) => IsName(next)
    case Nsec3(_, _, _, salt, next, _) => |salt| <= 255 && |next| <= 255
    case Unknown(_) => false
  }

  ghost predicate StringsFit(strings: seq<bytes>) {
    forall i :: 0 <= i < |strings| ==> |strings[i]| <= 255
  }

  // ---- Decoding yields canonical records

  lemma DecodedIsName(data: bytes, pos: nat, msg: bytes)
    requires pos <= |data| && DecodeName(data, pos, msg).Ok?
    ensures IsName(DecodeName(data, pos, msg).value.wire)
  {
    DecodeNameExact(data, pos, msg);
  }

  lemma {:induction false} DecodedStrings(rest: bytes)
    requires DecodeStrings(rest).Ok?
    ensures StringsFit(DecodeStrings(rest).value)
    ensures DecodeStrings(rest).value == [] <==> rest == []
  {
    if rest != [] {
      DecodedStrings(rest[1 + rest[0]..]);
    }
  }

  lemma SoaCanonical(rdata: bytes, msg: bytes)
    requires DecodeSoa(rdata, msg).Ok?
    ensures Canonical(DecodeSoa(rdata, msg).value) && DecodeSoa(rdata, msg).value.Soa?
  {
    hide IsName, DecodeName;
    DecodedIsName(rdata, 0, msg);
    DecodedIsName(rdata, DecodeName(rdata, 0, msg).value.next, msg);
  }

  lemma SvcbCanonical(rtype: u16, rdata: bytes, msg: bytes)
    requires (rtype == SVCB || rtype == HTTPS) && DecodeSvcb(rtype, rdata, msg).Ok?
    ensures Canonical(DecodeSvcb(rtype, rdata, msg).value) && DecodeSvcb(rtype, rdata, msg).value.Svcb?
    ensures DecodeSvcb(rtype, rdata, msg).value.rtype == rtype
  {
    hide IsName, DecodeName;
    DecodedIsName(rdata, 2, msg);
    DecodedIncreasing(rdata[DecodeName(rdata, 2, msg).value.next..], None);
  }

  lemma RrsigCanonical(rdata: bytes, msg: bytes)
    requires DecodeRrsig(rdata, msg).Ok?
    ensures Canonical(DecodeRrsig(rdata, msg).value) && DecodeRrsig(rdata, msg).value.Rrsig?
  {
    hide IsName, DecodeName;
    DecodedIsName(rdata, 18, msg);
  }

  lemma DecodeCanonical(rtype: u16, rdata: bytes, msg: bytes)
    requires Decode(rtype, rdata, msg).Ok? && !Decode(rtype, rdata, msg).value.Unknown?
    ensures Canonical(Decode(rtype, rdata, msg).value)
    ensures TypeOf(Decode(rtype, rdata, msg).value) == rtype
  {
    hide IsName, DecodeName, DecodeSoa, DecodeSvcb, DecodeRrsig, Increasing, ValuesFit, StringsFit;
    if IsHost(rtype) || rtype == NSEC {
      DecodedIsName(rdata, 0, msg);
    } else if rtype == SOA {
      SoaCanonical(rdata, msg);
    } else if rtype == SVCB || rtype == HTTPS {
      SvcbCanonical(rtype, rdata, msg);
    } else if rtype == MX {
      DecodedIsName(rdata, 2, msg);
    } else if rtype == TXT {
      DecodedStrings(rdata);
    } else if rtype == RRSIG {
      RrsigCanonical(rdata, msg);
    }
  }

  // ---- Canonical records round-trip

  lemma NameInside(pre: bytes, w: bytes, post: bytes, msg: bytes)
    requires IsName(w)
    ensures DecodeName(pre + w + post, |pre|, msg) == Ok(Decoded(w, |pre| + |w|))
    ensures (pre + w + post)[|pre| + |w|..] == post
  {
    var data := pre + w + post;
    assert data[|pre|..|pre| + |w|] == w;
    DecodeStoredName(data, |pre|, w);
    DecodePlainIsDecode(data, |pre|, msg);
  }

  lemma NameFirst(w: bytes, post: bytes, msg: bytes)
    requires IsName(w)
    ensures DecodeName(w + post, 0, msg) == Ok(Decoded(w, |w|)) && (w + post)[|w|..] == post
  {
    assert [] + w + post == w + post;
    NameInside([], w, post, msg);
  }

  lemma {:induction false} StringsBack(strings: seq<bytes>)
    requires StringsFit(strings)
    ensures EncodeStrings(strings).Ok? && DecodeStrings(EncodeStrings(strings).value) == Ok(strings)
    ensures EncodeStrings(strings).value == [] <==> strings == []
  {
    if strings != [] {
      StringsBack(strings[1..]);
      StringReads(strings[0], EncodeStrings(strings[1..]).value);
      assert strings == [strings[0]] + strings[1..];
    }
  }

  lemma StringReads(s: bytes, tail: bytes)
    requires |s| <= 255
    ensures var x: bytes := [|s|] + s + tail;
            x != [] && x[0] == |s| && |x| == 1 + |s| + |tail| && x[1..1 + |s|] == s && x[1 + |s|..] == tail
  {
  }

  lemma ReadFields32(pre: bytes, a: u32, b: u32, c: u32, d: u32, e: u32)
    ensures var x := pre + (U32(a) + U32(b) + U32(c) + U32(d) + U32(e));
            var p := |pre|;
            && |x| == p + 20
            && ReadU32(x, p) == a && ReadU32(x, p + 4) == b && ReadU32(x, p + 8) == c
            && ReadU32(x, p + 12) == d && ReadU32(x, p + 16) == e
  {
    hide U32, ReadU32;
    var f := U32(a) + U32(b) + U32(c) + U32(d) + U32(e);
    var x, p := pre + f, |pre|;
    assert f[0..4] == U32(a) && f[4..8] == U32(b) && f[8..12] == U32(c) && f[12..16] == U32(d) && f[16..20] == U32(e);
    FieldAt(pre, f, 0, a);
    FieldAt(pre, f, 4, b);
    FieldAt(pre, f, 8, c);
    FieldAt(pre, f, 12, d);
    FieldAt(pre, f, 16, e);
  }

  lemma FieldAt(pre: bytes, f: bytes, at: nat, n: u32)
    requires at + 4 <= |f| && f[at..at + 4] == U32(n)
    ensures ReadU32(pre + f, |pre| + at) == n
  {
    assert (pre + f)[|pre| + at..|pre| + at + 4] == f[at..at + 4];
    ReadU32Back(pre + f, |pre| + at, n);
  }

  lemma SoaBack(p: Parsed, msg: bytes)
    requires p.Soa? && Canonical(p)
    ensures Encode(p).value != [] && DecodeSoa(Encode(p).value, msg) == Ok(p)
  {
    hide IsName, DecodeName, U32, ReadU32;
    var f := U32(p.serial) + U32(p.refresh) + U32(p.retry) + U32(p.expire) + U32(p.minimum);
    var x := Encode(p).value;
    assert x == p.mname + p.rname + f;
    Assoc(p.mname, p.rname, f);
    NameFirst(p.mname, p.rname + f, msg);
    NameInside(p.mname, p.rname, f, msg);
    ReadFields32(p.mname + p.rname, p.serial, p.refresh, p.retry, p.expire, p.minimum);
  }

  lemma SvcbBack(p: Parsed, msg: bytes)
    requires p.Svcb? && Canonical(p)
    ensures Encode(p).Ok? && Encode(p).value != [] && DecodeSvcb(p.rtype, Encode(p).value, msg) == Ok(p)
  {
    SortIncreasing(p.params);
    EncodeSortedOk(p.params, None);
    DecodeEncoded(p.params, None);
    hide EncodeSorted, DecodeParams, Increasing, ValuesFit, SortByKey;
    var tail := EncodeParams(p.params).value;
    NameInside(U16(p.priority), p.target, tail, msg);
    ReadU16Back(Encode(p).value, 0, p.priority);
  }

  lemma MxBack(p: Parsed, msg: bytes)
    requires p.Mx? && Canonical(p)
    ensures Encode(p).value != [] && Decode(MX, Encode(p).value, msg) == Ok(p)
  {
    hide IsName;
    var x := U16(p.preference) + p.exchange;
    assert U16(p.preference) + p.exchange + [] == x;
    NameInside(U16(p.preference), p.exchange, [], msg);
    ReadU16Back(x, 0, p.preference);
  }

  lemma RrsigFixedReads(p: Parsed, tail: bytes)
    requires p.Rrsig?
    ensures var x := RrsigFixed(p.covered, p.algorithm, p.labels, p.originalTtl, p.inception, p.expiration, p.keyTag) + tail;
            && ReadU16(x, 0) == p.covered && x[2] == p.algorithm && x[3] == p.labels
            && ReadU32(x, 4) == p.originalTtl && ReadU32(x, 8) == p.expiration
            && ReadU32(x, 12) == p.inception && ReadU16(x, 16) == p.keyTag
  {
    hide U32, ReadU32, ReadU16, U16;
    var a, b, c, d, e := U16(p.covered), U32(p.originalTtl), U32(p.expiration), U32(p.inception), U16(p.keyTag);
    var x := a + [p.algorithm, p.labels] + b + c + d + e + tail;
    assert x[0..2] == a && x[2] == p.algorithm && x[3] == p.labels;
    assert x[4..8] == b && x[8..12] == c && x[12..16] == d && x[16..18] == e;
    ReadU16Back(x, 0, p.covered);
    ReadU32Back(x, 4, p.originalTtl);
    ReadU32Back(x, 8, p.expiration);
    ReadU32Back(x, 12, p.inception);
    ReadU16Back(x, 16, p.keyTag);
  }

  lemma RrsigBack(p: Parsed, msg: bytes)
    requires p.Rrsig? && Canonical(p)
    ensures Encode(p).value != [] && DecodeRrsig(Encode(p).value, msg) == Ok(p)
  {
    var fixed := RrsigFixed(p.covered, p.algorithm, p.labels, p.originalTtl, p.inception, p.expiration, p.keyTag);
    NameInside(fixed, p.signer, p.signature, msg);
    assert fixed + p.signer + p.signature == fixed + (p.signer + p.signature);
    RrsigFixedReads(p, p.signer + p.signature);
  }

  lemma PrefixedReads(n: u16, a: byte, b: byte, tail: bytes)
    ensures var x := U16(n) + [a, b] + tail;
            |x| >= 4 && ReadU16(x, 0) == n && x[2] == a && x[3] == b && x[4..] == tail
  {
    var x := U16(n) + [a, b] + tail;
    ReadU16Back(x, 0, n);
  }

  lemma Nsec3Back(p: Parsed)
    requires p.Nsec3? && Canonical(p)
    ensures Encode(p).Ok? && Encode(p).value != [] && DecodeNsec3(Encode(p).value) == Ok(p)
  {
    hide U16, ReadU16;
    var x := Encode(p).value;
    var s, o := |p.salt|, |p.nextOwner|;
    assert x[0] == p.hash && x[1] == p.hashFlags && x[2..4] == U16(p.iterations) && x[4] == s;
    ReadU16Back(x, 2, p.iterations);
    assert x[5..5 + s] == p.salt && x[5 + s] == o;
    assert x[6 + s..6 + s + o] == p.nextOwner && x[6 + s + o..] == p.bitmap;
  }

  /** Every canonical typed record encodes, and what it encodes to decodes back to
      it against any message at all. */
  lemma EncodeDecode(p: Parsed, msg: bytes)
    requires Canonical(p)
    ensures Encode(p).Ok? && Encode(p).value != []
    ensures Decode(TypeOf(p), Encode(p).value, msg) == Ok(p)
  {
    hide IsName, DecodeName, DecodeSoa, DecodeSvcb, DecodeRrsig, DecodeNsec3, RrsigFixed, U16, ReadU16, U32;
    match p
    case Address(_, _) =>
    case Host(_, name) =>
      assert name + [] == name;
      NameFirst(name, [], msg);
    case Soa(_, _, _, _, _, _, _) => SoaBack(p, msg);
    case Svcb(_, _, _, _) => SvcbBack(p, msg);
    case Mx(_, _) => MxBack(p, msg);
    case Txt(strings) => StringsBack(strings);
    case Key(_, flags, protocol, algorithm, key) => PrefixedReads(flags, protocol, algorithm, key);
    case Rrsig(_, _, _, _, _, _, _, _, _) => RrsigBack(p, msg);
    case Signer(_, tag, algorithm, digestType, digest) => PrefixedReads(tag, algorithm, digestType, digest);
    case Nsec(next, bitmap) => NameFirst(next, bitmap, msg);
    case Nsec3(_, _, _, _, _, _) => Nsec3Back(p);
  }

  /** Records as `from_wire` stores them. */
  ghost predicate Stored(d: RecordData) {
    FromWire(d.rtype, d.octets, d.octets) == Ok(d)
  }

  /** If RDATA decodes at all, it can be stored under the same type; the stored
      octets decode to the same typed record against every message, and storing
      them again, from any message, gives them back unchanged. */
  lemma StorageIsNormalForm(rtype: u16, rdata: bytes, msg: bytes, other: bytes)
    requires Decode(rtype, rdata, msg).Ok?
    ensures FromWire(rtype, rdata, msg).Ok?
    ensures var d := FromWire(rtype, rdata, msg).value;
            && d.rtype == rtype
            && Decode(d.rtype, d.octets, other) == Decode(rtype, rdata, msg)
            && Parse(d) == Decode(rtype, rdata, msg)
            && FromWire(d.rtype, d.octets, other) == Ok(d)
            && Stored(d)
  {
    var p := Decode(rtype, rdata, msg).value;
    if p.Unknown? {
      UnknownAnywhere(rtype, rdata, msg, other);
      UnknownAnywhere(rtype, rdata, msg, rdata);
    } else {
      DecodeCanonical(rtype, rdata, msg);
      EncodeDecode(p, other);
      EncodeDecode(p, Encode(p).value);
    }
  }

  lemma UnknownAnywhere(rtype: u16, rdata: bytes, msg: bytes, other: bytes)
    requires Decode(rtype, rdata, msg) == Ok(Unknown(rtype))
    ensures Decode(rtype, rdata, other) == Ok(Unknown(rtype))
  {
    hide DecodeName, DecodeSoa, DecodeSvcb, DecodeRrsig, DecodeNsec3, DecodeStrings;
    if rdata != [] {
      if rtype == SOA {
        SoaCanonical(rdata, msg);
      } else if rtype == SVCB || rtype == HTTPS {
        SvcbCanonical(rtype, rdata, msg);
      } else if rtype == RRSIG {
        RrsigCanonical(rdata, msg);
      } else if rtype == NSEC3 {
        Nsec3Typed(rdata);
      }
    }
  }

  lemma Nsec3Typed(rdata: bytes)
    requires DecodeNsec3(rdata).Ok?
    ensures DecodeNsec3(rdata).value.Nsec3?
  {
  }
}
