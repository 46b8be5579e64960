/** Octets as text: base32hex (RFC 4648 section 7), which an NSEC3 owner label is
    written in, and character-strings (RFC 1035 section 5.1). */
module TextCodecs {
  import opened Octets
  import opened Presentation

  // ---- Bit strings

  /** The low `k` bits of `n`, the highest of them first. */
  function Bits(n: nat, k: nat): (r: seq<bool>)
    ensures |r| == k
    decreases k
  {
    if k == 0 then [] else Bits(n / 2, k - 1) + [n % 2 == 1]
  }

  function Num(bs: seq<bool>): nat {
    if bs == [] then 0 else Num(bs[..|bs| - 1]) * 2 + if bs[|bs| - 1] then 1 else 0
  }

  /** `n >> k`. */
  function Shift(n: nat, k: nat): nat {
    if k == 0 then n else Shift(n / 2, k - 1)
  }

  lemma {:induction false} BitsSplit(n: nat, a: nat, b: nat)
    ensures Bits(n, a + b) == Bits(Shift(n, b), a) + Bits(n, b)
    decreases b
  {
    if b == 0 {
      assert Bits(n, a) + [] == Bits(n, a);
    } else {
      BitsSplit(n / 2, a, b - 1);
      Assoc(Bits(Shift(n, b), a), Bits(n / 2, b - 1), [n % 2 == 1]);
    }
  }

  lemma {:induction false} ShiftTwice(n: nat, a: nat, b: nat)
    ensures Shift(Shift(n, a), b) == Shift(n, a + b)
    decreases a
  {
    if a > 0 {
      ShiftTwice(n / 2, a - 1, b);
    }
  }

  lemma {:induction false} NumBits(n: nat, k: nat)
    requires n < Pow2(k)
    ensures Num(Bits(n, k)) == n
    decreases k
  {
    if k > 0 {
      NumBits(n / 2, k - 1);
      assert Bits(n, k)[..k - 1] == Bits(n / 2, k - 1);
    }
  }

  /** Multiples of 2^w do not show in the low bits, nor what is below in the high. */
  lemma {:induction false} LowBits(x: nat, w: nat, r: nat, k: nat)
    requires k <= w
    ensures Bits(x * Pow2(w) + r, k) == Bits(r, k)
    decreases k
  {
    if k > 0 {
      Halve(x, Pow2(w - 1), r);
      LowBits(x, w - 1, r / 2, k - 1);
    }
  }

  lemma {:induction false} ShiftOut(x: nat, w: nat, r: nat)
    requires r < Pow2(w)
    ensures Shift(x * Pow2(w) + r, w) == x
    decreases w
  {
    if w > 0 {
      Halve(x, Pow2(w - 1), r);
      ShiftOut(x, w - 1, r / 2);
    }
  }

  lemma Halve(x: nat, p: nat, r: nat)
    ensures (x * (2 * p) + r) / 2 == x * p + r / 2 && (x * (2 * p) + r) % 2 == r % 2
  {
    assert x * (2 * p) == 2 * (x * p);
  }

  /** Truncation to `w` bits keeps the low ones. */
  lemma Truncated(n: nat, m: nat, w: nat, k: nat)
    requires m == Pow2(w) && k <= w
    ensures Bits(n % m, k) == Bits(n, k)
  {
    hide Bits, Pow2;
    var q, r := n / m, n % m;
    assert n == q * m + r;
    LowBits(q, w, r, k);
  }

  lemma Powers()
    ensures Pow2(5) == 32 && Pow2(8) == 256 && Pow2(64) == 0x1_0000_0000_0000_0000
  {
    assert Pow2(4) == 16 && Pow2(8) == 2 * (2 * (2 * (2 * Pow2(4))));
    PowAdd(8, 8);
    PowAdd(16, 16);
    PowAdd(32, 32);
  }

  lemma {:induction false} PowAdd(a: nat, b: nat)
    ensures Pow2(a + b) == Pow2(a) * Pow2(b)
    decreases b
  {
    if b > 0 {
      PowAdd(a, b - 1);
      assert Pow2(a) * Pow2(b) == 2 * (Pow2(a) * Pow2(b - 1)) by { Twice(Pow2(a), Pow2(b - 1), Pow2(b)); }
    }
  }

  lemma Twice(v: nat, p: nat, q: nat)
    requires q == 2 * p
    ensures v * q == 2 * (v * p)
  {
  }

  /** The bits of octets, and the octets of bits, what is left over dropped. */
  function BitsOf(data: bytes): (r: seq<bool>)
    ensures |r| == 8 * |data|
  {
    if data == [] then [] else Bits(data[0], 8) + BitsOf(data[1..])
  }

  function OctetsOf(bs: seq<bool>): (r: bytes) {
    if |bs| < 8 then []
    else
      NumSmall(bs[..8]);
      Powers();
      [Num(bs[..8])] + OctetsOf(bs[8..])
  }

  lemma {:induction false} NumSmall(bs: seq<bool>)
    ensures Num(bs) < Pow2(|bs|)
    decreases |bs|
  {
    if bs != [] {
      NumSmall(bs[..|bs| - 1]);
    }
  }

  lemma {:induction false} OctetsBack(data: bytes, left: seq<bool>)
    requires |left| < 8
    ensures OctetsOf(BitsOf(data) + left) == data
    decreases |data|
  {
    if data != [] {
      hide Bits, Num, Pow2;
      var first, rest := Bits(data[0], 8), BitsOf(data[1..]);
      Powers();
      NumBits(data[0], 8);
      FirstEight(first, rest, left);
      OctetsBack(data[1..], left);
    }
  }

  lemma FirstEight(first: seq<bool>, rest: seq<bool>, left: seq<bool>)
    requires |first| == 8
    ensures var bs := first + rest + left; |bs| >= 8 && bs[..8] == first && bs[8..] == rest + left
  {
  }

  // ---- base32hex

  /** The octets of a big-endian number. */
  function BigEndian(s: bytes): nat {
    if s == [] then 0 else BigEndian(s[..|s| - 1]) * 256 + s[|s| - 1]
  }

  lemma {:induction false} BitsOfLast(s: bytes, b: byte)
    ensures BitsOf(s + [b]) == BitsOf(s) + Bits(b, 8)
    decreases |s|
  {
    hide Bits;
    if s == [] {
      assert s + [b] == [b] && BitsOf([b]) == Bits(b, 8) + [] && [] + Bits(b, 8) == Bits(b, 8);
    } else {
      assert (s + [b])[1..] == s[1..] + [b];
      BitsOfLast(s[1..], b);
      Assoc(Bits(s[0], 8), BitsOf(s[1..]), Bits(b, 8));
    }
  }

  lemma BigEndianLast(init: bytes, b: byte)
    ensures BigEndian(init + [b]) == BigEndian(init) * 256 + b
  {
    assert (init + [b])[..|init|] == init;
  }

  lemma BigEndianStep(init: bytes, b: byte, k: nat)
    requires Bits(BigEndian(init), k) == BitsOf(init)
    ensures Bits(BigEndian(init + [b]), k + 8) == BitsOf(init + [b])
  {
    hide Bits, BitsOf, BigEndian;
    BigEndianLast(init, b);
    BitsOfLast(init, b);
    LastOctet(BigEndian(init), b, k);
  }

  lemma {:induction false} BigEndianBits(s: bytes, k: nat)
    requires k == 8 * |s|
    ensures Bits(BigEndian(s), k) == BitsOf(s)
    decreases |s|
  {
    hide Bits, BitsOf, BigEndian;
    if s == [] {
      NoBits();
    } else {
      BigEndianBits(s[..|s| - 1], k - 8);
      BigEndianStep(s[..|s| - 1], s[|s| - 1], k - 8);
      LastApart(s);
    }
  }

  lemma LastApart(s: bytes)
    requires s != []
    ensures s[..|s| - 1] + [s[|s| - 1]] == s
  {
  }

  lemma LastOctet(n: nat, b: byte, k: nat)
    ensures Bits(n * 256 + b, k + 8) == Bits(n, k) + Bits(b, 8)
  {
    hide Bits, Pow2, Shift;
    Powers();
    BitsSplit(n * 256 + b, k, 8);
    ShiftOut(n, 8, b);
    LowBits(n, 8, b, 8);
  }

  lemma LastGroup(x: nat, k: nat)
    ensures Bits(x, k + 5) == Bits(Shift(x, 5), k) + Bits(x % 32, 5)
  {
    hide Bits, Pow2, Shift;
    Powers();
    Truncated(x, 32, 5, 5);
    BitsSplit(x, k, 5);
  }

  /** How many characters `n` octets take. */
  function CharCount(n: nat): nat {
    (n * 8 + 4) / 5
  }

  /** A chunk of up to five octets as a 40-bit number, zeros after a short one. */
  function ChunkNumber(chunk: bytes): nat
    requires |chunk| <= 5
  {
    BigEndian(chunk + seq(5 - |chunk|, _ => 0))
  }

  /** The first `m` five-bit groups of a 40-bit number, from the top. */
  function Groups(n: nat, m: nat): (r: seq<nat>)
    requires m <= 8
    ensures |r| == m
  {
    if m == 0 then [] else Groups(n, m - 1) + [Shift(n, 35 - 5 * (m - 1)) % 32]
  }

  lemma {:induction false} GroupsSmall(n: nat, m: nat)
    requires m <= 8
    ensures forall i :: 0 <= i < m ==> Groups(n, m)[i] < 32
    decreases m
  {
    hide Shift;
    if m > 0 {
      GroupsSmall(n, m - 1);
    }
  }

  function ValueBits(values: seq<nat>): (r: seq<bool>)
    ensures |r| == 5 * |values|
  {
    if values == [] then [] else Bits(values[0], 5) + ValueBits(values[1..])
  }

  lemma {:induction false} ValueBitsAppend(a: seq<nat>, b: seq<nat>)
    ensures ValueBits(a + b) == ValueBits(a) + ValueBits(b)
    decreases |a|
  {
    hide Bits;
    if a == [] {
      assert a + b == b && [] + ValueBits(b) == ValueBits(b);
    } else {
      assert (a + b)[1..] == a[1..] + b;
      ValueBitsAppend(a[1..], b);
      Assoc(Bits(a[0], 5), ValueBits(a[1..]), ValueBits(b));
    }
  }

  /** One group more is five bits more. */
  lemma GroupStep(n: nat, at: nat, k: nat, groups: seq<nat>)
    requires ValueBits(groups) == Bits(Shift(n, at + 5), k)
    ensures ValueBits(groups + [Shift(n, at) % 32]) == Bits(Shift(n, at), k + 5)
  {
    hide Bits, Shift, ValueBits;
    ValueBitsAppend(groups, [Shift(n, at) % 32]);
    OneValue(Shift(n, at) % 32);
    ShiftTwice(n, at, 5);
    LastGroup(Shift(n, at), k);
  }

  /** The groups spell the number's bits, from the top. */
  lemma NoGroups(n: nat)
    ensures ValueBits([]) == Bits(n, 0)
  {
  }

  lemma {:induction false} GroupBits(n: nat, m: nat)
    requires m <= 8
    ensures ValueBits(Groups(n, m)) == Bits(Shift(n, 40 - 5 * m), 5 * m)
    decreases m
  {
    hide Bits, Shift, ValueBits;
    if m == 0 {
      NoGroups(Shift(n, 40));
    } else {
      GroupBits(n, m - 1);
      GroupStep(n, 40 - 5 * m, 5 * (m - 1), Groups(n, m - 1));
    }
  }

  lemma OneValue(v: nat)
    ensures ValueBits([v]) == Bits(v, 5)
  {
    hide Bits;
    assert [v][1..] == [] && Bits(v, 5) + [] == Bits(v, 5);
  }

  /** A chunk's characters carry its bits and then fewer than eight zeros; a whole
      chunk's carry just its bits. */
  lemma ChunkBits(chunk: bytes)
    requires 0 < |chunk| <= 5
    ensures var bs := ValueBits(Groups(ChunkNumber(chunk), CharCount(|chunk|)));
            BitsOf(chunk) <= bs && |bs| < 8 * |chunk| + 8 && (|chunk| == 5 ==> bs == BitsOf(chunk))
  {
    hide Bits, Shift, ValueBits, BitsOf;
    var padded := chunk + seq(5 - |chunk|, _ => 0);
    var n, m := BigEndian(padded), CharCount(|chunk|);
    BigEndianBits(padded, 40);
    GroupBits(n, m);
    BitsSplit(n, 5 * m, 40 - 5 * m);
    BitsOfAppend(chunk, seq(5 - |chunk|, _ => 0));
    TopBits(Bits(n, 40), Bits(Shift(n, 40 - 5 * m), 5 * m), Bits(n, 40 - 5 * m), BitsOf(chunk),
            BitsOf(seq(5 - |chunk|, _ => 0)));
  }

  lemma TopBits(all: seq<bool>, top: seq<bool>, low: seq<bool>, head: seq<bool>, zeros: seq<bool>)
    requires all == top + low && all == head + zeros && |head| <= |top|
    ensures head <= top && (|head| == |top| ==> head == top)
  {
    assert all[..|head|] == head && top[..|head|] == all[..|head|];
  }

  lemma {:induction false} BitsOfAppend(a: bytes, b: bytes)
    ensures BitsOf(a + b) == BitsOf(a) + BitsOf(b)
    decreases |a|
  {
    hide Bits;
    if a == [] {
      assert a + b == b && [] + BitsOf(b) == BitsOf(b);
    } else {
      assert (a + b)[1..] == a[1..] + b;
      BitsOfAppend(a[1..], b);
      Assoc(Bits(a[0], 8), BitsOf(a[1..]), BitsOf(b));
    }
  }

  /** The five-bit values `base32hex_chars` goes through, chunk by chunk. */
  function EncodeValues(data: bytes): (r: seq<nat>) {
    if data == [] then []
    else
      var n := if |data| < 5 then |data| else 5;
      Groups(ChunkNumber(data[..n]), CharCount(n)) + EncodeValues(data[n..])
  }

  /** The values carry the data's bits, and fewer than eight more. */
  lemma {:induction false} EncodedBits(data: bytes)
    ensures BitsOf(data) <= ValueBits(EncodeValues(data)) && |ValueBits(EncodeValues(data))| < 8 * |data| + 8
    decreases |data|
  {
    if data != [] {
      hide Groups, BitsOf, ValueBits, ChunkNumber;
      var n := if |data| < 5 then |data| else 5;
      var head, rest := Groups(ChunkNumber(data[..n]), CharCount(n)), EncodeValues(data[n..]);
      ChunkBits(data[..n]);
      EncodedBits(data[n..]);
      ValueBitsAppend(head, rest);
      BitsOfAppend(data[..n], data[n..]);
      assert data == data[..n] + data[n..];
      NoBits();
      PrefixJoin(BitsOf(data[..n]), BitsOf(data[n..]), ValueBits(head), ValueBits(rest));
    }
  }

  lemma PrefixJoin(a: seq<bool>, b: seq<bool>, x: seq<bool>, y: seq<bool>)
    requires a <= x && b <= y && (a == x || (b == [] && y == []))
    ensures a + b <= x + y
  {
  }

  lemma NoBits()
    ensures ValueBits([]) == [] && BitsOf([]) == []
  {
  }

  // ---- Characters

  function Digit32(v: nat, lower: bool): (c: byte)
    requires v < 32
  {
    if v < 10 then 48 + v else if lower then 97 + v - 10 else 65 + v - 10
  }

  /** Either case, as DNS labels are. */
  function DigitValue(c: byte): (r: Option<nat>)
    ensures r.Some? ==> r.value < 32
  {
    if 48 <= c <= 57 then Some(c - 48)
    else if 97 <= c <= 118 then Some(c - 97 + 10)
    else if 65 <= c <= 86 then Some(c - 65 + 10)
    else None
  }

  function Spelled(values: seq<nat>, lower: bool): (r: bytes)
    requires forall i :: 0 <= i < |values| ==> values[i] < 32
    ensures |r| == |values|
  {
    if values == [] then [] else [Digit32(values[0], lower)] + Spelled(values[1..], lower)
  }

  function ReadDigits(text: bytes): (r: Result<seq<nat>>)
    ensures r.Ok? ==> forall i :: 0 <= i < |r.value| ==> r.value[i] < 32
  {
    if text == [] then Ok([])
    else if DigitValue(text[0]).None? then Err(Malformed)
    else
      var rest :- ReadDigits(text[1..]);
      Ok([DigitValue(text[0]).value] + rest)
  }

  lemma {:induction false} EncodeSmall(data: bytes)
    ensures forall i :: 0 <= i < |EncodeValues(data)| ==> EncodeValues(data)[i] < 32
    decreases |data|
  {
    hide Groups, ChunkNumber;
    if data != [] {
      var n := if |data| < 5 then |data| else 5;
      GroupsSmall(ChunkNumber(data[..n]), CharCount(n));
      EncodeSmall(data[n..]);
    }
  }

  /** `base32hex_encode`, in either alphabet. */
  function Base32Encode(data: bytes, lower: bool): bytes {
    EncodeSmall(data);
    Spelled(EncodeValues(data), lower)
  }

  /** `base32hex_decode`: the octets of the characters' bits. */
  function Base32Decode(text: bytes): (r: Result<bytes>) {
    var values :- ReadDigits(text);
    Ok(OctetsOf(ValueBits(values)))
  }

  /** The digits of base32hex are 0 to 9, then A to V in either case. */
  lemma Base32Digits(v: nat)
    requires v < 32
    ensures Digit32(v, false) == if v < 10 then [48, 49, 50, 51, 52, 53, 54, 55, 56, 57][v]
                                 else [65, 66, 67, 68, 69, 70, 71, 72, 73, 74, 75, 76, 77, 78, 79, 80, 81, 82, 83, 84, 85, 86][v - 10]
    ensures forall c: byte :: DigitValue(c) == Some(v) <==> c == Digit32(v, false) || (v > 9 && c == Digit32(v, false) + 32)
  {
  }

  lemma DigitBack(v: nat, lower: bool)
    requires v < 32
    ensures DigitValue(Digit32(v, lower)) == Some(v)
  {
  }

  lemma ReadFirst(c: byte, rest: bytes, v: nat)
    requires DigitValue(c) == Some(v)
    ensures ReadDigits([c] + rest)
            == match ReadDigits(rest) case Ok(vs) => Ok([v] + vs) case Err(e) => Err(e)
  {
    hide DigitValue;
    assert ([c] + rest)[1..] == rest;
  }

  lemma {:induction false} DigitsBack(values: seq<nat>, lower: bool)
    requires forall i :: 0 <= i < |values| ==> values[i] < 32
    ensures ReadDigits(Spelled(values, lower)) == Ok(values)
    decreases |values|
  {
    if values != [] {
      hide DigitValue, Digit32, ReadDigits;
      DigitBack(values[0], lower);
      DigitsBack(values[1..], lower);
      ReadFirst(Digit32(values[0], lower), Spelled(values[1..], lower), values[0]);
      assert [values[0]] + values[1..] == values;
    }
  }

  /** Decoding undoes encoding for every octet string, short final chunks included,
      in either case. */
  lemma Base32Back(data: bytes, lower: bool)
    ensures Base32Decode(Base32Encode(data, lower)) == Ok(data)
  {
    hide ValueBits, BitsOf, Spelled, ReadDigits, EncodeValues, OctetsOf;
    EncodeSmall(data);
    DigitsBack(EncodeValues(data), lower);
    EncodedBits(data);
    var bs := ValueBits(EncodeValues(data));
    assert bs == BitsOf(data) + bs[8 * |data|..];
    OctetsBack(data, bs[8 * |data|..]);
  }

  /** One character into the accumulator, which wraps at 64 bits: the bits waiting
      stay its low ones. */
  lemma Accumulated(acc: nat, v: nat, k: nat)
    requires v < 32 && k < 8
    ensures Bits((acc * 32 + v) % 0x1_0000_0000_0000_0000, k + 5) == Bits(acc, k) + Bits(v, 5)
  {
    hide Bits, Shift, Pow2;
    Powers();
    Truncated(acc * 32 + v, 0x1_0000_0000_0000_0000, 64, k + 5);
    BitsSplit(acc * 32 + v, k, 5);
    ShiftOut(acc, 5, v);
    LowBits(acc, 5, v, 5);
  }

  /** The octet that comes out, and the bits that wait on. */
  lemma Emitted(acc: nat, k: nat)
    ensures Bits(acc, k + 8)[..8] == Bits(Shift(acc, k), 8) && Bits(acc, k + 8)[8..] == Bits(acc, k)
    ensures Num(Bits(Shift(acc, k), 8)) == Shift(acc, k) % 256
  {
    hide Bits, Shift, Pow2;
    Powers();
    BitsSplit(acc, 8, k);
    Truncated(Shift(acc, k), 256, 8, 8);
    NumBits(Shift(acc, k) % 256, 8);
  }

  /** `base32hex_decode` as it runs: a 64-bit accumulator and a count of bits. */
  method DecodeBase32(text: bytes) returns (r: Result<bytes>)
    ensures r == Base32Decode(text)
  {
    hide Bits, Shift, Num, DigitValue, OctetsOf;
    var acc: nat, bits: nat, out: bytes, i: nat := 0, 0, [], 0;
    ghost var values: seq<nat> := [];
    assert text[0..] == text && Prepend(values, ReadDigits(text)) == ReadDigits(text) by { PrependNone(ReadDigits(text)); }
    NoneLeft(out);
    while i < |text|
      invariant i <= |text| && bits < 8
      invariant ReadDigits(text) == Prepend(values, ReadDigits(text[i..]))
      invariant Partial(values, out, Bits(acc, bits))
    {
      assert text[i..][1..] == text[i + 1..];
      var value := DigitValue(text[i]);
      if value.None? { return Err(Malformed); }
      PrependMore(values, value.value, ReadDigits(text[i + 1..]));
      Accumulated(acc, value.value, bits);
      ghost var waiting := Bits(acc, bits);
      acc := (acc * 32 + value.value) % 0x1_0000_0000_0000_0000;
      bits := bits + 5;
      PartialMore(values, out, waiting, value.value);
      values := values + [value.value];
      if bits >= 8 {
        bits := bits - 8;
        Emitted(acc, bits);
        PartialOut(values, out, Bits(acc, bits + 8));
        out := out + [Shift(acc, bits) % 256];
      }
      i := i + 1;
    }
    assert text[i..] == [];
    ReadEnd(values);
    PartialEnd(values, out, Bits(acc, bits));
    r := Ok(out);
  }

  lemma ReadEnd(done: seq<nat>)
    ensures Prepend(done, ReadDigits([])) == Ok(done)
  {
    assert done + [] == done;
  }

  /** `out` and the bits waiting are what the values so far come to. */
  ghost predicate Partial(values: seq<nat>, out: bytes, waiting: seq<bool>) {
    forall more: seq<bool> :: OctetsOf(ValueBits(values) + more) == out + OctetsOf(waiting + more)
  }

  lemma NoneLeft(out: bytes)
    requires out == []
    ensures Partial([], out, Bits(0, 0))
  {
    hide OctetsOf;
    forall more: seq<bool> ensures OctetsOf(ValueBits([]) + more) == out + OctetsOf(Bits(0, 0) + more) {
      assert [] + OctetsOf(more) == OctetsOf(more) && [] + more == more;
    }
  }

  lemma PartialMore(values: seq<nat>, out: bytes, waiting: seq<bool>, v: nat)
    requires Partial(values, out, waiting)
    ensures Partial(values + [v], out, waiting + Bits(v, 5))
  {
    hide OctetsOf, Bits, ValueBits;
    ValueBitsAppend(values, [v]);
    OneValue(v);
    forall more: seq<bool>
      ensures OctetsOf(ValueBits(values + [v]) + more) == out + OctetsOf(waiting + Bits(v, 5) + more)
    {
      Assoc(ValueBits(values), Bits(v, 5), more);
      Assoc(waiting, Bits(v, 5), more);
      assert OctetsOf(ValueBits(values) + (Bits(v, 5) + more)) == out + OctetsOf(waiting + (Bits(v, 5) + more));
    }
  }

  lemma PartialOut(values: seq<nat>, out: bytes, waiting: seq<bool>)
    requires Partial(values, out, waiting) && |waiting| >= 8
    ensures Num(waiting[..8]) < 256 && Partial(values, out + [Num(waiting[..8])], waiting[8..])
  {
    NumSmall(waiting[..8]);
    Powers();
    hide ValueBits, Num, Pow2;
    var b := Num(waiting[..8]);
    forall more: seq<bool>
      ensures OctetsOf(ValueBits(values) + more) == out + [b] + OctetsOf(waiting[8..] + more)
    {
      var all := waiting + more;
      assert all[..8] == waiting[..8] && all[8..] == waiting[8..] + more;
      Assoc(out, [b], OctetsOf(waiting[8..] + more));
    }
  }

  lemma PartialEnd(values: seq<nat>, out: bytes, waiting: seq<bool>)
    requires Partial(values, out, waiting) && |waiting| < 8
    ensures OctetsOf(ValueBits(values)) == out
  {
    hide ValueBits, Num;
    assert ValueBits(values) + [] == ValueBits(values) && waiting + [] == waiting;
    assert OctetsOf(ValueBits(values) + []) == out + OctetsOf(waiting + []);
    assert OctetsOf(waiting) == [] && out + [] == out;
  }

  // ---- Character-strings

  function EscapeCharOctet(b: byte): (r: bytes)
    ensures |r| > 0
  {
    if b == 34 || b == BACKSLASH then [BACKSLASH, b]
    else if 0x20 <= b <= 0x7e then [b]
    else [BACKSLASH, 48 + b / 100, 48 + b / 10 % 10, 48 + b % 10]
  }

  /** `char_string_escaped`: what goes between quotes. */
  function EscapeString(s: bytes): bytes {
    if s == [] then [] else EscapeCharOctet(s[0]) + EscapeString(s[1..])
  }

  /** The octets marks stand for, a separator being a dot here. */
  function MarkOctets(marks: seq<Mark>): (r: bytes) {
    if marks == [] then []
    else [if marks[0].Separates? then 46 else marks[0].octet] + MarkOctets(marks[1..])
  }

  lemma FirstMark(m: Mark, rest: seq<Mark>)
    ensures MarkOctets([m] + rest) == [if m.Separates? then 46 else m.octet] + MarkOctets(rest)
  {
    assert ([m] + rest)[1..] == rest;
  }

  /** Reading is exact: a string is what the marks of its text stand for. */
  lemma {:induction false} DecodeStringExact(text: bytes)
    ensures DecodeString(text).Ok? <==> Marks(text).Some?
    ensures DecodeString(text).Ok? ==> DecodeString(text).value == MarkOctets(Marks(text).value)
    decreases |text|
  {
    if text != [] {
      if text[0] == 46 {
        DecodeStringExact(text[1..]);
        if Marks(text).Some? {
          FirstMark(Separates, Marks(text[1..]).value);
        }
      } else {
        TokenMarks(text);
        var t := NextOctet(text);
        hide Marks, NextOctet;
        if t.Ok? {
          DecodeStringExact(text[t.value.used..]);
          if Marks(text).Some? {
            FirstMark(Holds(t.value.octet), Marks(text[t.value.used..]).value);
          }
        }
      }
    }
  }

  /** What stands bare between quotes: visible octets and the space, but `"` and `\\`. */
  function BareOf(s: bytes): (r: bytes) {
    if s == [] then []
    else (if 0x20 <= s[0] <= 0x7e && s[0] != 34 && s[0] != 92 then [s[0]] else []) + BareOf(s[1..])
  }

  lemma BareCharOctet(b: byte, rest: bytes)
    ensures Bare(EscapeCharOctet(b) + rest)
            == (if 0x20 <= b <= 0x7e && b != 34 && b != 92 then [b] else []) + Bare(rest)
    ensures forall i :: 0 <= i < |EscapeCharOctet(b)| ==> 0x20 <= EscapeCharOctet(b)[i] <= 0x7e
  {
    var e := EscapeCharOctet(b);
    var s := e + rest;
    forall i | 0 <= i < |e| ensures s[i] == e[i] {
    }
    assert s[|e|..] == rest;
  }

  /** An escaped string is safe between quotes: all of it is printable, and what no
      backslash covers is the octets that were so already, but for `"` and the backslash. */
  lemma {:induction false} EscapedIsSafe(s: bytes)
    ensures forall i :: 0 <= i < |EscapeString(s)| ==> 0x20 <= EscapeString(s)[i] <= 0x7e
    ensures Bare(EscapeString(s)) == BareOf(s)
    decreases |s|
  {
    if s != [] {
      EscapedIsSafe(s[1..]);
      BareCharOctet(s[0], EscapeString(s[1..]));
      hide EscapeCharOctet, Bare;
    }
  }

  /** `char_string_decode`: the same escapes as in a name, with no separators. */
  function DecodeString(text: bytes): (r: Result<bytes>)
    decreases |text|
  {
    if text == [] then Ok([])
    else
      var t :- NextOctet(text);
      var rest :- DecodeString(text[t.used..]);
      Ok([t.octet] + rest)
  }

  lemma CharOctetBack(b: byte, rest: bytes)
    ensures NextOctet(EscapeCharOctet(b) + rest) == Ok(Token(b, |EscapeCharOctet(b)|))
    ensures (EscapeCharOctet(b) + rest)[|EscapeCharOctet(b)|..] == rest
  {
    var e := EscapeCharOctet(b);
    var s := e + rest;
    forall i | 0 <= i < |e| ensures s[i] == e[i] {
    }
    assert b / 100 * 100 + b / 10 % 10 * 10 + b % 10 == b by { ThreeDigits(b); }
  }

  /** Decoding undoes escaping for every octet string. */
  lemma {:induction false} StringBack(s: bytes)
    ensures DecodeString(EscapeString(s)) == Ok(s)
    decreases |s|
  {
    if s != [] {
      StringBack(s[1..]);
      CharOctetBack(s[0], EscapeString(s[1..]));
      hide NextOctet, EscapeCharOctet;
      assert s == [s[0]] + s[1..];
    }
  }

  method CharStringDecode(text: bytes) returns (r: Result<bytes>)
    ensures r == DecodeString(text)
  {
    hide NextOctet;
    var out: bytes, i: nat := [], 0;
    assert text[0..] == text;
    assert DecodeString(text) == Prepend(out, DecodeString(text)) by { PrependNone(DecodeString(text)); }
    while i < |text|
      invariant i <= |text| && DecodeString(text) == Prepend(out, DecodeString(text[i..]))
    {
      var t := NextOctet(text[i..]);
      if t.Err? { return Err(t.error); }
      assert text[i..][t.value.used..] == text[i + t.value.used..];
      PrependMore(out, t.value.octet, DecodeString(text[i + t.value.used..]));
      out, i := out + [t.value.octet], i + t.value.used;
    }
    assert text[i..] == [] && out + [] == out;
    r := Ok(out);
  }

  /** `char_string_escaped` as it loops. */
  method CharStringEscaped(octets: bytes) returns (text: bytes)
    ensures text == EscapeString(octets)
  {
    hide EscapeCharOctet;
    text := [];
    var i := 0;
    assert octets[0..] == octets;
    while i < |octets|
      invariant i <= |octets| && text + EscapeString(octets[i..]) == EscapeString(octets)
    {
      assert octets[i..][1..] == octets[i + 1..];
      Assoc(text, EscapeCharOctet(octets[i]), EscapeString(octets[i + 1..]));
      text := text + EscapeCharOctet(octets[i]);
      i := i + 1;
    }
    assert octets[i..] == [] && text + [] == text;
  }

  // ---- Hex

  function HexDigit(v: nat): byte
    requires v < 16
  {
    if v < 10 then 48 + v else 65 + v - 10
  }

  function HexValue(c: byte): (r: Option<nat>)
    ensures r.Some? ==> r.value < 16
  {
    if 48 <= c <= 57 then Some(c - 48)
    else if 97 <= c <= 102 then Some(c - 97 + 10)
    else if 65 <= c <= 70 then Some(c - 65 + 10)
    else None
  }

  /** ASCII whitespace, which the form feed is of and the vertical tab is not. */
  predicate IsBlank(c: byte) {
    c == 32 || c == 9 || c == 10 || c == 12 || c == 13
  }

  /** The digits in order. */
  lemma HexDigits(v: nat)
    requires v < 16
    ensures HexDigit(v) == [48, 49, 50, 51, 52, 53, 54, 55, 56, 57, 65, 66, 67, 68, 69, 70][v]
    ensures forall c: byte :: HexValue(c) == Some(v) <==> c == HexDigit(v) || (v > 9 && c == HexDigit(v) + 32)
  {
  }

  /** `hex_encode`. */
  function HexEncode(data: bytes): bytes {
    if data == [] then [] else [HexDigit(data[0] / 16), HexDigit(data[0] % 16)] + HexEncode(data[1..])
  }

  /** Two digits an octet, the high nibble first. */
  lemma {:induction false} HexPlaces(data: bytes, i: nat)
    requires i < |data|
    ensures |HexEncode(data)| == 2 * |data|
    ensures HexEncode(data)[2 * i] == HexDigit(data[i] / 16) && HexEncode(data)[2 * i + 1] == HexDigit(data[i] % 16)
    decreases |data|
  {
    if |data| > 1 {
      HexPlaces(data[1..], if i > 0 then i - 1 else 0);
    }
  }

  /** `hex_decode`, with the nibble waiting for its other half. */
  function HexScan(text: bytes, high: Option<nat>): (r: Result<bytes>)
    requires high.Some? ==> high.value < 16
  {
    if text == [] then if high.Some? then Err(Malformed) else Ok([])
    else if IsBlank(text[0]) then HexScan(text[1..], high)
    else if HexValue(text[0]).None? then Err(Malformed)
    else if high.None? then HexScan(text[1..], HexValue(text[0]))
    else
      var rest :- HexScan(text[1..], None);
      Ok([high.value * 16 + HexValue(text[0]).value] + rest)
  }

  function HexDecode(text: bytes): Result<bytes> {
    HexScan(text, None)
  }

  function WithoutBlanks(text: bytes): bytes {
    if text == [] then []
    else if text[0] in {9, 10, 12, 13, 32} then WithoutBlanks(text[1..])
    else [text[0]] + WithoutBlanks(text[1..])
  }

  /** Whitespace anywhere, inside a pair of digits too, changes nothing. */
  lemma {:induction false} BlanksIgnored(text: bytes, high: Option<nat>)
    requires high.Some? ==> high.value < 16
    ensures HexScan(WithoutBlanks(text), high) == HexScan(text, high)
    decreases |text|
  {
    hide HexValue;
    if text != [] {
      var rest := text[1..];
      if IsBlank(text[0]) {
        BlanksIgnored(rest, high);
      } else {
        NotBlankStays(text[0], WithoutBlanks(rest));
        BlanksIgnored(rest, None);
        if HexValue(text[0]).Some? {
          BlanksIgnored(rest, HexValue(text[0]));
        }
      }
    }
  }

  /** Pairs of digits, and no digit left over. */
  ghost predicate Pairs(w: bytes, data: bytes) {
    && |w| == 2 * |data|
    && forall i :: 0 <= i < |data| ==> HexValue(w[2 * i]) == Some(data[i] / 16) && HexValue(w[2 * i + 1]) == Some(data[i] % 16)
  }

  predicate NoBlanks(w: bytes) {
    forall i :: 0 <= i < |w| ==> !IsBlank(w[i])
  }

  lemma {:induction false} BlanksGone(text: bytes)
    ensures NoBlanks(WithoutBlanks(text))
    decreases |text|
  {
    if text != [] {
      BlanksGone(text[1..]);
    }
  }

  lemma PairsMore(w: bytes, data: bytes)
    requires |w| >= 2 && data != []
    ensures Pairs(w, data) <==> && HexValue(w[0]) == Some(data[0] / 16) && HexValue(w[1]) == Some(data[0] % 16)
                                && Pairs(w[2..], data[1..])
  {
    hide HexValue;
    var x, rest := w[2..], data[1..];
    if Pairs(w, data) {
      assert w[2 * 0] == w[0] && w[2 * 0 + 1] == w[1];
      forall i | 0 <= i < |rest| ensures HexValue(x[2 * i]) == Some(rest[i] / 16) && HexValue(x[2 * i + 1]) == Some(rest[i] % 16) {
        assert x[2 * i] == w[2 * (i + 1)] && x[2 * i + 1] == w[2 * (i + 1) + 1] && rest[i] == data[i + 1];
      }
    }
    if HexValue(w[0]) == Some(data[0] / 16) && HexValue(w[1]) == Some(data[0] % 16) && Pairs(x, rest) {
      forall i | 0 <= i < |data| ensures HexValue(w[2 * i]) == Some(data[i] / 16) && HexValue(w[2 * i + 1]) == Some(data[i] % 16) {
        if i > 0 {
          assert w[2 * i] == x[2 * (i - 1)] && w[2 * i + 1] == x[2 * (i - 1) + 1] && data[i] == rest[i - 1];
        }
      }
    }
  }

  lemma {:induction false} PairsIff(w: bytes, data: bytes)
    requires NoBlanks(w)
    ensures HexDecode(w) == Ok(data) <==> Pairs(w, data)
    decreases |w|
  {
    hide HexScan, HexValue;
    if |w| < 2 {
      FewDigits(w);
    } else {
      FirstPair(w);
      if data != [] {
        assert NoBlanks(w[2..]);
        PairsMore(w, data);
        PairsIff(w[2..], data[1..]);
        if HexValue(w[0]).Some? && HexValue(w[1]).Some? {
          Nibbles(w[0], w[1], data[0]);
        }
        assert data == [data[0]] + data[1..];
      }
    }
  }

  lemma Nibbles(h: byte, l: byte, b: byte)
    requires HexValue(h).Some? && HexValue(l).Some?
    ensures HexValue(h).value * 16 + HexValue(l).value == b
            <==> HexValue(h) == Some(b / 16) && HexValue(l) == Some(b % 16)
  {
    hide HexValue;
  }

  lemma FewDigits(w: bytes)
    requires |w| < 2 && NoBlanks(w)
    ensures HexDecode(w) == if w == [] then Ok([]) else Err(Malformed)
  {
    hide HexValue;
    if w != [] {
      assert !IsBlank(w[0]) && w[1..] == [];
      if HexValue(w[0]).Some? {
        assert HexDecode(w) == HexScan([], HexValue(w[0])) == Err(Malformed);
      }
    }
  }

  /** The first pair decides the first octet. */
  lemma FirstPair(w: bytes)
    requires |w| >= 2 && NoBlanks(w)
    ensures var h, l, rest := HexValue(w[0]), HexValue(w[1]), HexDecode(w[2..]);
            && (HexDecode(w).Ok? <==> h.Some? && l.Some? && rest.Ok?)
            && (HexDecode(w).Ok? ==> HexDecode(w) == Ok([h.value * 16 + l.value] + rest.value))
  {
    hide HexValue;
    var tail := w[1..];
    assert !IsBlank(w[0]) && !IsBlank(w[1]) && tail[0] == w[1] && tail[1..] == w[2..];
    if HexValue(w[0]).Some? {
      assert HexDecode(w) == HexScan(tail, HexValue(w[0]));
    }
  }

  /** Reading is exact: text gives octets exactly when, its white space aside, it is two
      digits for each of them, the high nibble first. */
  lemma HexIff(text: bytes, data: bytes)
    ensures HexDecode(text) == Ok(data) <==> Pairs(WithoutBlanks(text), data)
  {
    hide HexScan, Pairs;
    BlanksIgnored(text, None);
    BlanksGone(text);
    PairsIff(WithoutBlanks(text), data);
  }

  lemma NotBlankStays(c: byte, rest: bytes)
    ensures ([c] + rest)[1..] == rest && ([c] + rest)[0] == c
  {
  }

  lemma DigitsOfOctet(b: byte)
    ensures var h, l := HexDigit(b / 16), HexDigit(b % 16);
            !IsBlank(h) && !IsBlank(l) && HexValue(h) == Some(b / 16) && HexValue(l) == Some(b % 16)
  {
  }

  lemma PairReads(h: byte, l: byte, rest: bytes, b: byte)
    requires !IsBlank(h) && !IsBlank(l) && HexValue(h) == Some(b / 16) && HexValue(l) == Some(b % 16)
    ensures HexDecode([h, l] + rest)
            == match HexDecode(rest) case Ok(m) => Ok([b] + m) case Err(e) => Err(e)
  {
    hide IsBlank, HexValue;
    var text := [h, l] + rest;
    assert text[1..] == [l] + rest && text[1..][1..] == rest;
    assert HexScan(text, None) == HexScan([l] + rest, Some(b / 16));
    assert b / 16 * 16 + b % 16 == b;
  }

  /** Decoding undoes encoding for every octet string. */
  lemma {:induction false} HexBack(data: bytes)
    ensures HexDecode(HexEncode(data)) == Ok(data)
    decreases |data|
  {
    if data != [] {
      hide HexDigit, HexValue, IsBlank, HexScan;
      HexBack(data[1..]);
      DigitsOfOctet(data[0]);
      PairReads(HexDigit(data[0] / 16), HexDigit(data[0] % 16), HexEncode(data[1..]), data[0]);
      assert [data[0]] + data[1..] == data;
    }
  }

  /** `hex_decode` as it runs. */
  method DecodeHex(text: bytes) returns (r: Result<bytes>)
    ensures r == HexDecode(text)
  {
    hide IsBlank, HexValue;
    var out: bytes, high: Option<nat>, i: nat := [], None, 0;
    assert text[0..] == text;
    assert HexDecode(text) == Prepend(out, HexScan(text, None)) by { PrependNone(HexScan(text, None)); }
    while i < |text|
      invariant i <= |text| && (high.Some? ==> high.value < 16)
      invariant HexDecode(text) == Prepend(out, HexScan(text[i..], high))
    {
      var c := text[i];
      assert text[i..][1..] == text[i + 1..];
      i := i + 1;
      if IsBlank(c) { continue; }
      var nibble := HexValue(c);
      if nibble.None? { return Err(Malformed); }
      if high.None? {
        high := nibble;
      } else {
        PrependMore(out, high.value * 16 + nibble.value, HexScan(text[i..], None));
        out, high := out + [high.value * 16 + nibble.value], None;
      }
    }
    assert text[i..] == [];
    if high.Some? { return Err(Malformed); }
    assert out + [] == out;
    r := Ok(out);
  }
}
