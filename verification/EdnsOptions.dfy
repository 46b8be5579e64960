/** The OPT record's option list (RFC 6891 section 6.1.2). */
module EdnsOptions {
  import opened Octets

  const PADDING := 12
  const EXTENDED_ERROR := 15

  datatype EdnsOption = EdnsOption(code: u16, data: bytes)

  /** What `append_to` adds to the RDATA. */
  function OptionOctets(o: EdnsOption): (r: bytes)
    requires |o.data| < TWO_16
    ensures |r| == 4 + |o.data|
  {
    U16(o.code) + U16(|o.data|) + o.data
  }

  /** `with_options`. */
  function EncodeOptions(options: seq<EdnsOption>): (r: Result<bytes>) {
    if options == [] then Ok([])
    else if |options[0].data| >= TWO_16 then Err(TooLong)
    else
      var rest :- EncodeOptions(options[1..]);
      Ok(OptionOctets(options[0]) + rest)
  }

  /** `walk_options`, collecting what it hands out. */
  function WalkOptions(rdata: bytes): (r: Result<seq<EdnsOption>>) {
    if rdata == [] then Ok([])
    else if |rdata| < 4 then Err(Truncated)
    else
      var len := ReadU16(rdata, 2);
      if |rdata| - 4 < len then Err(Truncated)
      else
        var rest :- WalkOptions(rdata[4 + len..]);
        Ok([EdnsOption(ReadU16(rdata, 0), rdata[4..4 + len])] + rest)
  }

  lemma WalkFirst(o: EdnsOption, rest: bytes)
    requires |o.data| < TWO_16
    ensures WalkOptions(OptionOctets(o) + rest)
            == match WalkOptions(rest) case Ok(os) => Ok([o] + os) case Err(e) => Err(e)
  {
    var b := OptionOctets(o) + rest;
    var n := |o.data|;
    assert b[0..2] == U16(o.code) && b[2..4] == U16(n) && b[4..4 + n] == o.data && b[4 + n..] == rest;
    ReadU16Back(b, 0, o.code);
    ReadU16Back(b, 2, n);
  }

  lemma {:induction false} EncodedWalks(options: seq<EdnsOption>)
    requires EncodeOptions(options).Ok?
    ensures WalkOptions(EncodeOptions(options).value) == Ok(options)
    decreases |options|
  {
    if options != [] {
      EncodedWalks(options[1..]);
      WalkFirst(options[0], EncodeOptions(options[1..]).value);
      assert [options[0]] + options[1..] == options;
    }
  }

  lemma {:induction false} WalkedEncodes(rdata: bytes)
    requires WalkOptions(rdata).Ok?
    ensures EncodeOptions(WalkOptions(rdata).value) == Ok(rdata)
    decreases |rdata|
  {
    if rdata != [] {
      var len, options := ReadU16(rdata, 2), WalkOptions(rdata).value;
      WalkedEncodes(rdata[4 + len..]);
      SplitOption(rdata, len);
      assert options[1..] == WalkOptions(rdata[4 + len..]).value;
    }
  }

  /** An option is its code, its length and its data. */
  lemma OptionLayout(o: EdnsOption)
    requires |o.data| < TWO_16
    ensures OptionOctets(o) == [o.code / 256, o.code % 256, |o.data| / 256, |o.data| % 256] + o.data
  {
  }

  /** A list reads back as `options` exactly when it is what they encode to: every
      well-formed list has one reading, and every reading one list. */
  lemma WalkIffEncode(rdata: bytes, options: seq<EdnsOption>)
    ensures WalkOptions(rdata) == Ok(options) <==> EncodeOptions(options) == Ok(rdata)
  {
    if EncodeOptions(options) == Ok(rdata) {
      EncodedWalks(options);
    }
    if WalkOptions(rdata) == Ok(options) {
      WalkedEncodes(rdata);
    }
  }

  lemma SplitOption(rdata: bytes, len: nat)
    requires |rdata| >= 4 && len == ReadU16(rdata, 2) && 4 + len <= |rdata|
    ensures OptionOctets(EdnsOption(ReadU16(rdata, 0), rdata[4..4 + len])) + rdata[4 + len..] == rdata
  {
    assert rdata[0..2] == U16(ReadU16(rdata, 0)) && rdata[2..4] == U16(len);
    assert rdata == rdata[0..2] + rdata[2..4] + rdata[4..4 + len] + rdata[4 + len..];
  }

  /** One more option at the end adds it to the reading and changes nothing else. */
  lemma {:induction false} AppendedReads(rdata: bytes, o: EdnsOption)
    requires |o.data| < TWO_16 && WalkOptions(rdata).Ok?
    ensures WalkOptions(rdata + OptionOctets(o)) == Ok(WalkOptions(rdata).value + [o])
    decreases |rdata|
  {
    var more := OptionOctets(o);
    if rdata == [] {
      WalkFirst(o, []);
      assert more + [] == more && [] + more == more && [o] + [] == [] + [o];
    } else {
      var len := ReadU16(rdata, 2);
      var first, rest := EdnsOption(ReadU16(rdata, 0), rdata[4..4 + len]), rdata[4 + len..];
      SplitOption(rdata, len);
      AppendedReads(rest, o);
      WalkFirst(first, rest + more);
      Assoc(OptionOctets(first), rest, more);
      Assoc([first], WalkOptions(rest).value, [o]);
    }
  }

  /** One turn of the walk. */
  lemma WalkStep(rest: bytes)
    requires rest != []
    ensures |rest| < 4 ==> WalkOptions(rest) == Err(Truncated)
    ensures |rest| >= 4 ==>
      var len := ReadU16(rest, 2);
      if |rest| - 4 < len then WalkOptions(rest) == Err(Truncated)
      else WalkOptions(rest)
           == match WalkOptions(rest[4 + len..])
              case Ok(os) => Ok([EdnsOption(ReadU16(rest, 0), rest[4..4 + len])] + os)
              case Err(e) => Err(e)
  {
    hide ReadU16;
  }

  lemma WalkDone(options: seq<EdnsOption>)
    ensures Prepend(options, WalkOptions([])) == Ok(options)
  {
    assert options + [] == options;
  }

  /** The loop of `walk_options`, with the closure of `options`. */
  method ReadOptions(rdata: bytes) returns (r: Result<seq<EdnsOption>>)
    ensures r == WalkOptions(rdata)
  {
    hide WalkOptions, ReadU16;
    var rest, options := rdata, [];
    PrependNone(WalkOptions(rdata));
    while rest != []
      invariant WalkOptions(rdata) == Prepend(options, WalkOptions(rest))
      decreases |rest|
    {
      WalkStep(rest);
      if |rest| < 4 {
        return Err(Truncated);
      }
      var code, len := ReadU16(rest, 0), ReadU16(rest, 2);
      if |rest| - 4 < len {
        return Err(Truncated);
      }
      PrependMore(options, EdnsOption(code, rest[4..4 + len]), WalkOptions(rest[4 + len..]));
      options := options + [EdnsOption(code, rest[4..4 + len])];
      rest := rest[4 + len..];
    }
    WalkDone(options);
    r := Ok(options);
  }

  predicate Holds(options: seq<EdnsOption>, code: u16) {
    exists i :: 0 <= i < |options| && options[i].code == code
  }

  lemma HoldsMore(options: seq<EdnsOption>, o: EdnsOption, code: u16)
    ensures Holds(options + [o], code) == (Holds(options, code) || o.code == code)
  {
    var more := options + [o];
    assert more[|options|] == o;
    if Holds(options, code) {
      var i :| 0 <= i < |options| && options[i].code == code;
      assert more[i] == options[i];
    }
  }

  /** `has_option`: a malformed list is an error, wherever the option stands. */
  method HasOption(rdata: bytes, code: u16) returns (r: Result<bool>)
    ensures match WalkOptions(rdata)
            case Err(e) => r == Err(e)
            case Ok(os) => r == Ok(Holds(os, code))
  {
    hide WalkOptions, ReadU16;
    var rest, found := rdata, false;
    ghost var options := [];
    PrependNone(WalkOptions(rdata));
    while rest != []
      invariant WalkOptions(rdata) == Prepend(options, WalkOptions(rest))
      invariant found == Holds(options, code)
      decreases |rest|
    {
      WalkStep(rest);
      if |rest| < 4 {
        return Err(Truncated);
      }
      var len := ReadU16(rest, 2);
      if |rest| - 4 < len {
        return Err(Truncated);
      }
      ghost var o := EdnsOption(ReadU16(rest, 0), rest[4..4 + len]);
      PrependMore(options, o, WalkOptions(rest[4 + len..]));
      HoldsMore(options, o, code);
      found := found || ReadU16(rest, 0) == code;
      options := options + [o];
      rest := rest[4 + len..];
    }
    WalkDone(options);
    r := Ok(found);
  }
}
