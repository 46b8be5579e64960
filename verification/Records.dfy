/** The typed view of RDATA: decoding it off the wire, encoding it to storage, and
    the normal form storage is kept in. */
module Records {
  import opened Octets
  import opened DName
  import opened Emission
  import opened SvcParams

  const A := 1
  const TXT := 16
  const AAAA := 28
  const DNAME := 39
  const DS := 43
  const RRSIG := 46
  const NSEC := 47
  const DNSKEY := 48
  const NSEC3 := 50
  const CDS := 59
  const CDNSKEY := 60
  const SVCB := 64
  const HTTPS := 65

  /** `ParsedRecord`. The arms that share an encoding share a constructor here;
      the SOA's signed fields are kept as their 32 bits. */
  datatype Parsed =
    | Address(rtype: u16, addr: bytes)          // A, AAAA
    | Host(rtype: u16, name: bytes)             // NS, CNAME, PTR, DNAME
    | Soa(mname: bytes, rname: bytes, serial: u32, refresh: u32, retry: u32, expire: u32, minimum: u32)
    | Svcb(rtype: u16, priority: u16, target: bytes, params: seq<Param>)
    | Mx(preference: u16, exchange: bytes)
    | Txt(strings: seq<bytes>)
    | Key(rtype: u16, flags: u16, protocol: byte, algorithm: byte, publicKey: bytes)   // DNSKEY, CDNSKEY
    | Rrsig(covered: u16, algorithm: byte, labels: byte, originalTtl: u32, inception: u32,
            expiration: u32, keyTag: u16, signer: bytes, signature: bytes)
    | Signer(rtype: u16, keyTag: u16, algorithm: byte, digestType: byte, digest: bytes)  // DS, CDS
    | Nsec(next: bytes, bitmap: bytes)
    | Nsec3(hash: byte, hashFlags: byte, iterations: u16, salt: bytes, nextOwner: bytes, bitmap: bytes)
    | Unknown(rtype: u16)

  // ---- Decoding

  /** The TXT loop: length-prefixed strings to the end. */
  function DecodeStrings(rest: bytes): (r: Result<seq<bytes>>) {
    if rest == [] then Ok([])
    else
      var len := rest[0];
      if |rest| - 1 < len then Err(Truncated)
      else
        var tail :- DecodeStrings(rest[1 + len..]);
        Ok([rest[1..1 + len]] + tail)
  }

  predicate IsHost(rtype: u16) {
    rtype == NS || rtype == CNAME || rtype == PTR || rtype == DNAME
  }

  function DecodeSoa(rdata: bytes, msg: bytes): (r: Result<Parsed>) {
    var m :- DecodeName(rdata, 0, msg);
    var n :- DecodeName(rdata, m.next, msg);
    var p := n.next;
    if |rdata| - p < 20 then Err(Truncated)
    else Ok(Soa(m.wire, n.wire, ReadU32(rdata, p), ReadU32(rdata, p + 4), ReadU32(rdata, p + 8),
                ReadU32(rdata, p + 12), ReadU32(rdata, p + 16)))
  }

  function DecodeSvcb(rtype: u16, rdata: bytes, msg: bytes): (r: Result<Parsed>) {
    if |rdata| < 2 then Err(Truncated)
    else
      var t :- DecodeName(rdata, 2, msg);
      var params :- DecodeParams(rdata[t.next..], None);
      Ok(Svcb(rtype, ReadU16(rdata, 0), t.wire, params))
  }

  /** Expiration precedes inception on the wire (RFC 4034 section 3.1). */
  function DecodeRrsig(rdata: bytes, msg: bytes): (r: Result<Parsed>) {
    if |rdata| < 18 then Err(Truncated)
    else
      var s :- DecodeName(rdata, 18, msg);
      Ok(Rrsig(ReadU16(rdata, 0), rdata[2], rdata[3], ReadU32(rdata, 4), ReadU32(rdata, 12),
               ReadU32(rdata, 8), ReadU16(rdata, 16), s.wire, rdata[s.next..]))
  }

  function DecodeNsec3(rdata: bytes): (r: Result<Parsed>) {
    if |rdata| < 5 then Err(Truncated)
    else
      var saltEnd := 5 + rdata[4] as int;
      if |rdata| < saltEnd then Err(Malformed)
      else if |rdata| == saltEnd then Err(Malformed)
      else
        var ownerEnd := saltEnd + 1 + rdata[saltEnd];
        if |rdata| < ownerEnd then Err(Malformed)
        else Ok(Nsec3(rdata[0], rdata[1], ReadU16(rdata, 2), rdata[5..saltEnd],
                      rdata[saltEnd + 1..ownerEnd], rdata[ownerEnd..]))
  }

  /** `ParsedRecord::decode`: `msg` resolves compressed names. Empty RDATA is a
      specifier in an UPDATE, not data (RFC 2136 section 2.4). */
  function Decode(rtype: u16, rdata: bytes, msg: bytes): (r: Result<Parsed>) {
    if rdata == [] then Ok(Unknown(rtype))
    else if rtype == A then
      if |rdata| != 4 then Err(Malformed) else Ok(Address(rtype, rdata))
    else if rtype == AAAA then
      if |rdata| != 16 then Err(Malformed) else Ok(Address(rtype, rdata))
    else if IsHost(rtype) then
      var n :- DecodeName(rdata, 0, msg);
      Ok(Host(rtype, n.wire))
    else if rtype == SOA then DecodeSoa(rdata, msg)
    else if rtype == SVCB || rtype == HTTPS then DecodeSvcb(rtype, rdata, msg)
    else if rtype == MX then
      if |rdata| < 2 then Err(Truncated)
      else
        var n :- DecodeName(rdata, 2, msg);
        Ok(Mx(ReadU16(rdata, 0), n.wire))
    else if rtype == TXT then
      var strings :- DecodeStrings(rdata);
      Ok(Txt(strings))
    else if rtype == DS || rtype == CDS then
      if |rdata| < 4 then Err(Truncated)
      else Ok(Signer(rtype, ReadU16(rdata, 0), rdata[2], rdata[3], rdata[4..]))
    else if rtype == RRSIG then DecodeRrsig(rdata, msg)
    else if rtype == NSEC then
      var n :- DecodeName(rdata, 0, msg);
      Ok(Nsec(n.wire, rdata[n.next..]))
    else if rtype == DNSKEY || rtype == CDNSKEY then
      if |rdata| < 4 then Err(Truncated)
      else Ok(Key(rtype, ReadU16(rdata, 0), rdata[2], rdata[3], rdata[4..]))
    else if rtype == NSEC3 then DecodeNsec3(rdata)
    else Ok(Unknown(rtype))
  }

  // ---- Encoding

  function EncodeStrings(strings: seq<bytes>): (r: Result<bytes>) {
    if strings == [] then Ok([])
    else if |strings[0]| > 255 then Err(TooLong)
    else
      var tail :- EncodeStrings(strings[1..]);
      Ok([|strings[0]|] + strings[0] + tail)
  }

  function TypeOf(p: Parsed): u16 {
    match p
    case Soa(_, _, _, _, _, _, _) => SOA
    case Mx(_, _) => MX
    case Txt(_) => TXT
    case Rrsig(_, _, _, _, _, _, _, _, _) => RRSIG
    case Nsec(_, _) => NSEC
    case Nsec3(_, _, _, _, _, _) => NSEC3
    case _ => p.rtype
  }

  /** `ParsedRecord::encode_into`: the uncompressed RDATA. */
  function Encode(p: Parsed): (r: Result<bytes>) {
    match p
    case Address(_, addr) => Ok(addr)
    case Host(_, name) => Ok(name)
    case Soa(m, n, serial, refresh, retry, expire, minimum) =>
      Ok(m + n + (U32(serial) + U32(refresh) + U32(retry) + U32(expire) + U32(minimum)))
    case Svcb(_, priority, target, params) =>
      var tail :- EncodeParams(params);
      Ok(U16(priority) + target + tail)
    case Mx(preference, exchange) => Ok(U16(preference) + exchange)
    case Txt(strings) => if strings == [] then Err(Malformed) else EncodeStrings(strings)
    case Key(_, flags, protocol, algorithm, key) => Ok(U16(flags) + [protocol, algorithm] + key)
    case Rrsig(covered, algorithm, labels, ttl, inception, expiration, tag, signer, signature) =>
      Ok(RrsigFixed(covered, algorithm, labels, ttl, inception, expiration, tag) + signer + signature)
    case Signer(_, tag, algorithm, digestType, digest) => Ok(U16(tag) + [algorithm, digestType] + digest)
    case Nsec(next, bitmap) => Ok(next + bitmap)
    case Nsec3(hash, flags, iterations, salt, next, bitmap) =>
      if |salt| > 255 || |next| > 255 then Err(TooLong)
      else Ok([hash, flags] + U16(iterations) + ([|salt|] + salt) + ([|next|] + next) + bitmap)
    case Unknown(_) => Ok([])
  }

  function RrsigFixed(covered: u16, algorithm: byte, labels: byte, ttl: u32, inception: u32,
                      expiration: u32, tag: u16): (r: bytes)
    ensures |r| == 18
  {
    U16(covered) + [algorithm, labels] + U32(ttl) + U32(expiration) + U32(inception) + U16(tag)
  }

  // ---- Storage

  /** `RecordData`: a type and its octets. */
  datatype RecordData = RecordData(rtype: u16, octets: bytes)

  /** `RecordData::from_wire`. */
  function FromWire(rtype: u16, rdata: bytes, msg: bytes): (r: Result<RecordData>) {
    var p :- Decode(rtype, rdata, msg);
    if p.Unknown? then Ok(RecordData(rtype, rdata))
    else
      var octets :- Encode(p);
      Ok(RecordData(TypeOf(p), octets))
  }

  /** `RecordData::parse`: stored names need no message but the RDATA itself. */
  function Parse(d: RecordData): (r: Result<Parsed>) {
    Decode(d.rtype, d.octets, d.octets)
  }
}
