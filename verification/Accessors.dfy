/** The fields read straight out of stored RDATA, without decoding it. */
module Accessors {
  import opened Octets
  import opened Names
  import opened DName
  import opened Emission
  import opened Records
  import opened NormalForm

  /** `skip_uncompressed_name`: where what follows the name at `pos` begins. */
  function SkipPlain(data: bytes, pos: nat): (r: Option<nat>)
    decreases |data| - pos
  {
    if pos >= |data| || data[pos] >= 0x40 then None
    else if data[pos] == 0 then Some(pos + 1)
    else SkipPlain(data, pos + 1 + data[pos])
  }

  method SkipUncompressedName(data: bytes) returns (r: Option<bytes>)
    ensures match SkipPlain(data, 0)
            case None => r == None
            case Some(p) => p <= |data| && r == Some(data[p..])
  {
    var pos := 0;
    while true
      invariant SkipPlain(data, 0) == SkipPlain(data, pos)
      decreases |data| - pos
    {
      if pos >= |data| { return None; }
      var len := data[pos];
      if len >= 0x40 { return None; }
      pos := pos + 1;
      if len == 0 { return Some(data[pos..]); }
      pos := pos + len;
    }
  }

  /** It succeeds exactly on a run of labels that ends in the root octet, and stops
      just past it. */
  lemma {:induction false} SkipPlainIsSegment(data: bytes, pos: nat)
    requires pos <= |data|
    ensures SkipPlain(data, pos)
            == match ReadSegment(data, pos)
               case Ok(Segment(litEnd, ToRoot)) => Some(litEnd + 1)
               case _ => None
    decreases |data| - pos
  {
    if pos < |data| && 0 < data[pos] < 0x40 && pos + 1 + data[pos] <= |data| {
      SkipPlainIsSegment(data, pos + 1 + data[pos]);
    }
  }

  /** `soa_scalars`: where the five 32-bit fields begin. */
  function SoaScalars(d: RecordData): (r: Option<nat>)
    ensures r.Some? ==> r.value + 20 <= |d.octets|
  {
    if d.rtype != SOA then None
    else match SkipPlain(d.octets, 0)
      case None => None
      case Some(p) => match SkipPlain(d.octets, p)
        case None => None
        case Some(q) => if q + 20 <= |d.octets| then Some(q) else None
  }

  function SoaSerial(d: RecordData): Option<u32> {
    var s := SoaScalars(d);
    if s.None? then None else Some(ReadU32(d.octets, s.value))
  }

  function SoaMinimum(d: RecordData): Option<u32> {
    var s := SoaScalars(d);
    if s.None? then None else Some(ReadU32(d.octets, s.value + 16))
  }

  function RrsigTypeCovered(d: RecordData): Option<u16> {
    if d.rtype != RRSIG || |d.octets| < 2 then None else Some(ReadU16(d.octets, 0))
  }

  function Nsec3Parameters(d: RecordData): Option<(u16, bytes)> {
    if d.rtype != NSEC3 || |d.octets| < 5 || |d.octets| < 5 + d.octets[4] as int then None
    else Some((ReadU16(d.octets, 2), d.octets[5..5 + d.octets[4] as int]))
  }

  lemma NameSkipped(pre: bytes, w: bytes, post: bytes)
    requires IsName(w)
    ensures SkipPlain(pre + w + post, |pre|) == Some(|pre| + |w|)
  {
    hide SkipPlain;
    var data := pre + w + post;
    assert data[|pre|..|pre| + |w|] == w;
    NameEnds(data, |pre|, w);
    SkipPlainIsSegment(data, |pre|);
  }

  lemma NameEnds(data: bytes, pos: nat, w: bytes)
    requires IsName(w) && pos + |w| <= |data| && data[pos..pos + |w|] == w
    ensures ReadSegment(data, pos) == Ok(Segment(pos + |w| - 1, ToRoot))
  {
    SegmentOfName(data, pos, w, 0);
  }

  /** MNAME and RNAME both end in a root octet where they stand, with no pointer. */
  predicate NamesStand(octets: bytes) {
    match ReadSegment(octets, 0)
    case Ok(Segment(litEnd, ToRoot)) => ReadSegment(octets, litEnd + 1).Ok? && ReadSegment(octets, litEnd + 1).value.tail.ToRoot?
    case _ => false
  }

  /** On any RDATA that parses, the SOA accessors read what parsing reads exactly when
      both names stand whole in it; on an SOA with a pointer into its own RDATA, which
      parses, they answer nothing, as they do on any other record. */
  lemma SoaFieldsIff(d: RecordData)
    requires Parse(d).Ok?
    ensures var p := Parse(d).value;
            var both := p.Soa? && NamesStand(d.octets);
            && SoaSerial(d) == (if both then Some(p.serial) else None)
            && SoaMinimum(d) == (if both then Some(p.minimum) else None)
  {
    hide DecodeSvcb, DecodeStrings, DecodeNsec3, DecodeRrsig, ReadU32, ReadSegment, Unpack, SkipPlain;
    if d.rtype == SOA {
      SkipPlainIsSegment(d.octets, 0);
      if d.octets == [] {
        EmptySkip();
      } else {
        var first := ReadSegment(d.octets, 0).value;
        SkipPlainIsSegment(d.octets, first.End());
      }
    } else {
      OnlySoa(d);
    }
  }

  lemma OnlySoa(d: RecordData)
    requires Parse(d).Ok? && d.rtype != SOA
    ensures !Parse(d).value.Soa?
  {
    hide DecodeName, DecodeStrings;
  }

  /** So they agree with the parse on every stored record, and read nothing from those
      that are no SOA. */
  lemma SoaFieldsAgree(d: RecordData)
    requires Stored(d)
    ensures Parse(d).Ok?
    ensures SoaSerial(d) == if Parse(d).value.Soa? then Some(Parse(d).value.serial) else None
    ensures SoaMinimum(d) == if Parse(d).value.Soa? then Some(Parse(d).value.minimum) else None
  {
    hide DecodeSvcb, DecodeName, DecodeStrings, DecodeNsec3, DecodeRrsig, SkipPlain, ReadU32, U32, IsName;
    var p := Parse(d).value;
    if p.Soa? {
      SoaCanonical(d.octets, d.octets);
      var f := U32(p.serial) + U32(p.refresh) + U32(p.retry) + U32(p.expire) + U32(p.minimum);
      assert d.octets == p.mname + p.rname + f;
      SoaSkipped(p.mname, p.rname, f);
      ReadFields32(p.mname + p.rname, p.serial, p.refresh, p.retry, p.expire, p.minimum);
    } else if d.rtype == SOA {
      assert d.octets == [];
      EmptySkip();
    }
  }

  lemma EmptySkip()
    ensures SkipPlain([], 0) == None
  {
  }

  lemma SoaSkipped(m: bytes, n: bytes, f: bytes)
    requires IsName(m) && IsName(n)
    ensures SkipPlain(m + n + f, 0) == Some(|m|) && SkipPlain(m + n + f, |m|) == Some(|m| + |n|)
  {
    hide SkipPlain, IsName;
    Assoc(m, n, f);
    assert [] + m + (n + f) == m + (n + f);
    NameSkipped([], m, n + f);
    NameSkipped(m, n, f);
  }

  /** The RRSIG and NSEC3 accessors read what parsing reads, on any RDATA that
      parses. */
  lemma FixedFieldsAgree(d: RecordData)
    requires Parse(d).Ok?
    ensures Parse(d).value.Rrsig? ==> RrsigTypeCovered(d) == Some(Parse(d).value.covered)
    ensures Parse(d).value.Nsec3? ==> Nsec3Parameters(d) == Some((Parse(d).value.iterations, Parse(d).value.salt))
    ensures !Parse(d).value.Rrsig? ==> RrsigTypeCovered(d) == None
    ensures !Parse(d).value.Nsec3? ==> Nsec3Parameters(d) == None
  {
    hide DecodeSvcb, DecodeSoa, DecodeName, DecodeStrings, ReadU16, ReadU32;
    SoaOnly(d);
    if (d.rtype == SVCB || d.rtype == HTTPS) && d.octets != [] {
      SvcbCanonical(d.rtype, d.octets, d.octets);
    }
  }

  lemma SoaOnly(d: RecordData)
    requires Parse(d).Ok?
    ensures d.rtype == SOA && d.octets != [] ==> Parse(d).value.Soa?
  {
    if d.rtype == SOA && d.octets != [] {
      SoaCanonical(d.octets, d.octets);
    }
  }
}
