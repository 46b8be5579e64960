/** The SvcParams of an SVCB or HTTPS record (RFC 9460 section 2.2): key, length
    and value, in strictly increasing key order. */
module SvcParams {
  import opened Octets

  datatype Param = Param(key: u16, value: bytes)

  // ---- Decoding

  /** `decode_svc_params` on what is left, after a parameter with key `prev`. */
  function DecodeParams(rest: bytes, prev: Option<nat>): (r: Result<seq<Param>>)
    decreases |rest|
  {
    if rest == [] then Ok([])
    else if |rest| < 4 then Err(Truncated)
    else
      var key, len := ReadU16(rest, 0), ReadU16(rest, 2);
      if |rest| - 4 < len then Err(Truncated)
      else if prev.Some? && key <= prev.value then Err(Malformed)
      else
        var tail :- DecodeParams(rest[4 + len..], Some(key));
        Ok([Param(key, rest[4..4 + len])] + tail)
  }

  /** The loop of `decode_svc_params`: it accepts exactly what increasing keys with
      whole values encode to, and answers those. */
  method DecodeSvcParams(rdata: bytes) returns (r: Result<seq<Param>>)
    ensures r == DecodeParams(rdata, None)
    ensures forall s :: r == Ok(s) <==> Increasing(s) && EncodeParams(s) == Ok(rdata)
  {
    hide EncodeParams, Increasing;
    forall s ensures DecodeParams(rdata, None) == Ok(s) <==> Increasing(s) && EncodeParams(s) == Ok(rdata) {
      DecodeIffEncode(rdata, s);
    }
    var params: seq<Param>, rest := [], rdata;
    ghost var prev: Option<nat> := None;
    PrependNone(DecodeParams(rdata, None));
    while rest != []
      invariant prev == if params == [] then None else Some(params[|params| - 1].key)
      invariant DecodeParams(rdata, None) == Prepend(params, DecodeParams(rest, prev))
      decreases |rest|
    {
      if |rest| < 4 {
        return Err(Truncated);
      }
      var key, len := ReadU16(rest, 0), ReadU16(rest, 2);
      if |rest| - 4 < len {
        return Err(Truncated);
      }
      if params != [] && key <= params[|params| - 1].key {
        return Err(Malformed);
      }
      PrependTwice(params, [Param(key, rest[4..4 + len])], DecodeParams(rest[4 + len..], Some(key)));
      params, prev := params + [Param(key, rest[4..4 + len])], Some(key);
      rest := rest[4 + len..];
    }
    assert params + [] == params;
    r := Ok(params);
  }

  // ---- Encoding

  /** In order, as the stable sort by key leaves them. */
  function Insert(p: Param, s: seq<Param>): (r: seq<Param>)
    ensures multiset(r) == multiset{p} + multiset(s)
  {
    if s == [] || p.key <= s[0].key then [p] + s
    else
      assert s == [s[0]] + s[1..];
      [s[0]] + Insert(p, s[1..])
  }

  function SortByKey(s: seq<Param>): (r: seq<Param>)
    ensures multiset(r) == multiset(s)
  {
    if s == [] then []
    else
      assert s == [s[0]] + s[1..];
      Insert(s[0], SortByKey(s[1..]))
  }

  predicate Ordered(s: seq<Param>) {
    forall i, j :: 0 <= i < j < |s| ==> s[i].key <= s[j].key
  }

  /** What RFC 9460 section 2.2 requires of the wire. */
  predicate Increasing(s: seq<Param>) {
    forall i, j :: 0 <= i < j < |s| ==> s[i].key < s[j].key
  }

  predicate ValuesFit(s: seq<Param>) {
    forall i :: 0 <= i < |s| ==> |s[i].value| < TWO_16
  }

  /** The encoding loop over sorted parameters, after one with key `prev`. */
  function EncodeSorted(s: seq<Param>, prev: Option<nat>): (r: Result<bytes>) {
    if s == [] then Ok([])
    else if prev == Some(s[0].key) then Err(Malformed)
    else if |s[0].value| >= TWO_16 then Err(TooLong)
    else
      var tail :- EncodeSorted(s[1..], Some(s[0].key));
      Ok(U16(s[0].key) + U16(|s[0].value|) + s[0].value + tail)
  }

  /** `encode_svc_params`: canonicalize the order, refuse a duplicate key. */
  function EncodeParams(s: seq<Param>): (r: Result<bytes>) {
    EncodeSorted(SortByKey(s), None)
  }

  /** The loop of `encode_svc_params`, over what the library sort returned. */
  method EncodeSvcParams(params: seq<Param>) returns (r: Result<bytes>)
    ensures r == EncodeParams(params)
  {
    var sorted, out: bytes, i := SortByKey(params), [], 0;
    assert sorted[0..] == sorted;
    PrependNone(EncodeSorted(sorted, None));
    while i < |sorted|
      invariant i <= |sorted|
      invariant EncodeSorted(sorted, None)
                == Prepend(out, EncodeSorted(sorted[i..], if i == 0 then None else Some(sorted[i - 1].key)))
    {
      var p := sorted[i];
      if i > 0 && p.key == sorted[i - 1].key {
        return Err(Malformed);
      }
      if |p.value| >= TWO_16 {
        return Err(TooLong);
      }
      assert sorted[i..][1..] == sorted[i + 1..];
      PrependTwice(out, U16(p.key) + U16(|p.value|) + p.value, EncodeSorted(sorted[i + 1..], Some(p.key)));
      out := out + (U16(p.key) + U16(|p.value|) + p.value);
      i := i + 1;
    }
    assert out + [] == out;
    r := Ok(out);
  }

  // ---- Laws

  predicate AtLeast(k: nat, s: seq<Param>) {
    forall i :: 0 <= i < |s| ==> k <= s[i].key
  }

  lemma {:induction false} InsertOrdered(p: Param, s: seq<Param>, k: nat)
    requires Ordered(s)
    ensures Ordered(Insert(p, s))
    ensures AtLeast(k, s) && k <= p.key ==> AtLeast(k, Insert(p, s))
  {
    if !(s == [] || p.key <= s[0].key) {
      InsertOrdered(p, s[1..], k);
      InsertOrdered(p, s[1..], s[0].key);
      assert AtLeast(s[0].key, s[1..]);
    }
  }

  lemma {:induction false} SortOrdered(s: seq<Param>)
    ensures Ordered(SortByKey(s))
  {
    if s != [] {
      SortOrdered(s[1..]);
      InsertOrdered(s[0], SortByKey(s[1..]), 0);
    }
  }

  lemma {:induction false} SortIncreasing(s: seq<Param>)
    requires Increasing(s)
    ensures SortByKey(s) == s
  {
    if s != [] {
      SortIncreasing(s[1..]);
    }
  }

  /** Encoding in order succeeds exactly on strictly increasing keys whose values
      fit their length field. */
  lemma {:induction false} EncodeSortedOk(s: seq<Param>, prev: Option<nat>)
    requires Ordered(s) && (prev.Some? && s != [] ==> prev.value <= s[0].key)
    ensures EncodeSorted(s, prev).Ok?
            <==> Increasing(s) && ValuesFit(s) && (prev.Some? && s != [] ==> prev.value < s[0].key)
  {
    if s != [] {
      EncodeSortedOk(s[1..], Some(s[0].key));
      assert forall i :: 0 < i < |s| ==> s[i] == s[1..][i - 1];
      assert Increasing(s) <==> Increasing(s[1..]) && (|s| > 1 ==> s[0].key < s[1].key);
      assert ValuesFit(s) <==> ValuesFit(s[1..]) && |s[0].value| < TWO_16;
    }
  }

  lemma ParamReads(p: Param, tail: bytes)
    requires |p.value| < TWO_16
    ensures var x := U16(p.key) + U16(|p.value|) + p.value + tail;
            && |x| == 4 + |p.value| + |tail|
            && ReadU16(x, 0) == p.key && ReadU16(x, 2) == |p.value|
            && x[4..4 + |p.value|] == p.value && x[4 + |p.value|..] == tail
  {
    var x := U16(p.key) + U16(|p.value|) + p.value + tail;
    ReadU16Back(x, 0, p.key);
    ReadU16Back(x, 2, |p.value|);
  }

  lemma {:induction false} DecodeEncoded(s: seq<Param>, prev: Option<nat>)
    requires Increasing(s) && EncodeSorted(s, prev).Ok?
    requires prev.Some? && s != [] ==> prev.value < s[0].key
    ensures DecodeParams(EncodeSorted(s, prev).value, prev) == Ok(s)
  {
    if s != [] {
      var p, tail := s[0], EncodeSorted(s[1..], Some(s[0].key)).value;
      DecodeEncoded(s[1..], Some(p.key));
      ParamReads(p, tail);
      assert s == [p] + s[1..];
    }
  }

  lemma {:induction false} DecodedIncreasing(rest: bytes, prev: Option<nat>)
    requires DecodeParams(rest, prev).Ok?
    ensures var s := DecodeParams(rest, prev).value;
            && Increasing(s) && ValuesFit(s)
            && (prev.Some? ==> forall i :: 0 <= i < |s| ==> prev.value < s[i].key)
    decreases |rest|
  {
    if rest != [] {
      var key, len := ReadU16(rest, 0), ReadU16(rest, 2);
      DecodedIncreasing(rest[4 + len..], Some(key));
    }
  }

  predicate HasKey(s: seq<Param>, k: nat) {
    exists i :: 0 <= i < |s| && s[i].key == k
  }

  predicate DistinctKeys(s: seq<Param>) {
    s == [] || (!HasKey(s[1..], s[0].key) && DistinctKeys(s[1..]))
  }

  lemma HasKeySplit(s: seq<Param>, k: nat)
    requires s != []
    ensures HasKey(s, k) <==> s[0].key == k || HasKey(s[1..], k)
  {
    if HasKey(s[1..], k) {
      var i :| 0 <= i < |s[1..]| && s[1..][i].key == k;
      assert s[i + 1].key == k;
    }
    if HasKey(s, k) && s[0].key != k {
      var i :| 0 <= i < |s| && s[i].key == k;
      assert s[1..][i - 1].key == k;
    }
  }

  lemma {:induction false} InsertHasKey(p: Param, s: seq<Param>, k: nat)
    ensures HasKey(Insert(p, s), k) <==> k == p.key || HasKey(s, k)
  {
    HasKeySplit(Insert(p, s), k);
    if s == [] || p.key <= s[0].key {
      assert Insert(p, s)[1..] == s;
    } else {
      InsertHasKey(p, s[1..], k);
      HasKeySplit(s, k);
      assert Insert(p, s)[1..] == Insert(p, s[1..]);
    }
  }

  lemma {:induction false} InsertDistinct(p: Param, s: seq<Param>)
    ensures DistinctKeys(Insert(p, s)) <==> DistinctKeys(s) && !HasKey(s, p.key)
    ensures ValuesFit(Insert(p, s)) <==> ValuesFit(s) && |p.value| < TWO_16
  {
    if s == [] || p.key <= s[0].key {
      assert Insert(p, s)[1..] == s;
      assert ValuesFit([p] + s) <==> ValuesFit(s) && |p.value| < TWO_16 by {
        assert ([p] + s)[0] == p;
        assert forall i :: 0 <= i < |s| ==> s[i] == ([p] + s)[i + 1];
      }
    } else {
      InsertDistinct(p, s[1..]);
      InsertHasKey(p, s[1..], s[0].key);
      HasKeySplit(s, p.key);
      assert Insert(p, s)[1..] == Insert(p, s[1..]);
      ValuesSplit(s);
      ValuesSplit(Insert(p, s));
    }
  }

  lemma ValuesSplit(s: seq<Param>)
    requires s != []
    ensures ValuesFit(s) <==> |s[0].value| < TWO_16 && ValuesFit(s[1..])
  {
    assert forall i :: 0 < i < |s| ==> s[i] == s[1..][i - 1];
  }

  lemma {:induction false} SortDistinct(s: seq<Param>)
    ensures DistinctKeys(SortByKey(s)) <==> DistinctKeys(s)
    ensures ValuesFit(SortByKey(s)) <==> ValuesFit(s)
    ensures forall k :: HasKey(SortByKey(s), k) <==> HasKey(s, k)
  {
    if s != [] {
      var tail := SortByKey(s[1..]);
      SortDistinct(s[1..]);
      InsertDistinct(s[0], tail);
      ValuesSplit(s);
      forall k
        ensures HasKey(SortByKey(s), k) <==> HasKey(s, k)
      {
        InsertHasKey(s[0], tail, k);
        HasKeySplit(s, k);
      }
    }
  }

  lemma {:induction false} OrderedDistinct(s: seq<Param>)
    requires Ordered(s)
    ensures Increasing(s) <==> DistinctKeys(s)
  {
    if s != [] {
      OrderedDistinct(s[1..]);
      assert forall i :: 0 < i < |s| ==> s[i] == s[1..][i - 1];
      assert HasKey(s[1..], s[0].key) <==> |s| > 1 && s[1].key == s[0].key;
    }
  }

  /** Encoding succeeds exactly on distinct keys and values that fit, whatever the
      order given; what comes out decodes to the same parameters, sorted. */
  lemma EncodeParamsExact(s: seq<Param>)
    ensures EncodeParams(s).Ok? <==> DistinctKeys(s) && ValuesFit(s)
    ensures EncodeParams(s).Ok? ==>
              && DecodeParams(EncodeParams(s).value, None) == Ok(SortByKey(s))
              && multiset(SortByKey(s)) == multiset(s) && Increasing(SortByKey(s))
  {
    SortOrdered(s);
    SortDistinct(s);
    OrderedDistinct(SortByKey(s));
    EncodeSortedOk(SortByKey(s), None);
    if EncodeParams(s).Ok? {
      DecodeEncoded(SortByKey(s), None);
    }
  }

  lemma SplitParam(rest: bytes, len: nat)
    requires |rest| >= 4 && len == ReadU16(rest, 2) && 4 + len <= |rest|
    ensures U16(ReadU16(rest, 0)) + U16(len) + rest[4..4 + len] + rest[4 + len..] == rest
  {
    assert rest[0..2] == U16(ReadU16(rest, 0)) && rest[2..4] == U16(len);
    assert rest == rest[0..2] + rest[2..4] + rest[4..4 + len] + rest[4 + len..];
  }

  /** What was decoded encodes to the very octets it was decoded from. */
  lemma {:induction false} DecodedOctets(rest: bytes, prev: Option<nat>)
    requires DecodeParams(rest, prev).Ok?
    ensures EncodeSorted(DecodeParams(rest, prev).value, prev) == Ok(rest)
    decreases |rest|
  {
    if rest != [] {
      var key, len, s := ReadU16(rest, 0), ReadU16(rest, 2), DecodeParams(rest, prev).value;
      DecodedOctets(rest[4 + len..], Some(key));
      SplitParam(rest, len);
      assert s[1..] == DecodeParams(rest[4 + len..], Some(key)).value;
    }
  }

  /** Parameters as they stand on the wire: key, length and value, one after another. */
  function ParamWire(s: seq<Param>): (r: bytes)
    requires ValuesFit(s)
  {
    if s == [] then []
    else
      var n := |s[0].value|;
      [s[0].key / 256, s[0].key % 256, n / 256, n % 256] + s[0].value + ParamWire(s[1..])
  }

  lemma {:induction false} EncodedIsWire(s: seq<Param>, prev: Option<nat>)
    requires ValuesFit(s) && EncodeSorted(s, prev).Ok?
    ensures EncodeSorted(s, prev) == Ok(ParamWire(s))
    decreases |s|
  {
    if s != [] {
      EncodedIsWire(s[1..], Some(s[0].key));
      var n := |s[0].value|;
      assert U16(s[0].key) + U16(n) == [s[0].key / 256, s[0].key % 256, n / 256, n % 256];
    }
  }

  /** What decodes, said by the octets. */
  lemma DecodeIffWire(rdata: bytes, s: seq<Param>)
    ensures DecodeParams(rdata, None) == Ok(s) <==> Increasing(s) && ValuesFit(s) && ParamWire(s) == rdata
  {
    DecodeIffEncode(rdata, s);
    if Increasing(s) {
      SortIncreasing(s);
      EncodeParamsExact(s);
      EncodeSortedOk(s, None);
      if ValuesFit(s) {
        EncodedIsWire(s, None);
      }
    }
  }

  /** The decoder reads `s` out of `rdata` exactly when the keys of `s` increase and
      `rdata` is what `s` encodes to: every list has one wire form and one reading. */
  lemma DecodeIffEncode(rdata: bytes, s: seq<Param>)
    ensures DecodeParams(rdata, None) == Ok(s) <==> Increasing(s) && EncodeParams(s) == Ok(rdata)
  {
    if DecodeParams(rdata, None) == Ok(s) {
      DecodedIncreasing(rdata, None);
      DecodedOctets(rdata, None);
      SortIncreasing(s);
    }
    if Increasing(s) && EncodeParams(s) == Ok(rdata) {
      EncodeParamsExact(s);
      SortIncreasing(s);
    }
  }
}
