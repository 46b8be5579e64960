/** Octet strings, the error categories of the codec, and big-endian fields. */
module Octets {

  type byte = b: int | 0 <= b < 256
  type bytes = seq<byte>

  /** The four categories of `WireError`, with the one `Truncated` the writers
      branch on (what = "the output buffer") given its own constructor. */
  datatype WireError = OutputFull | Truncated | TooLong | Unsupported | Malformed

  datatype Result<+T> = Ok(value: T) | Err(error: WireError) {
    predicate IsFailure() { Err? }

    function PropagateFailure<U>(): Result<U>
      requires Err?
    {
      Err(error)
    }

    function Extract(): T
      requires Ok?
    {
      value
    }
  }

  datatype Option<+T> = None | Some(value: T)

  type u16 = n: int | 0 <= n < 0x1_0000
  type u32 = n: int | 0 <= n < 0x1_0000_0000

  const TWO_16 := 0x1_0000
  const TWO_31 := 0x8000_0000
  const TWO_32 := 0x1_0000_0000

  /** `to_be_bytes` of a 16-bit field. */
  function U16(n: nat): (r: bytes)
    requires n < TWO_16
    ensures |r| == 2
  {
    [n / 256, n % 256]
  }

  function ReadU16(data: bytes, at: nat): (n: nat)
    requires at + 2 <= |data|
    ensures n < TWO_16
    ensures data[at..at + 2] == U16(n)
  {
    data[at] as int * 256 + data[at + 1] as int
  }

  /** `to_be_bytes` of a 32-bit field. */
  function U32(n: nat): (r: bytes)
    requires n < TWO_32
    ensures |r| == 4
  {
    U16(n / TWO_16) + U16(n % TWO_16)
  }

  function ReadU32(data: bytes, at: nat): (n: nat)
    requires at + 4 <= |data|
    ensures n < TWO_32
  {
    ReadU16(data, at) * TWO_16 + ReadU16(data, at + 2)
  }

  lemma ReadU16Back(data: bytes, at: nat, n: nat)
    requires at + 2 <= |data| && n < TWO_16
    requires data[at..at + 2] == U16(n)
    ensures ReadU16(data, at) == n
  {
    assert data[at] == data[at..at + 2][0] && data[at + 1] == data[at..at + 2][1];
  }

  lemma ReadU32Back(data: bytes, at: nat, n: nat)
    requires at + 4 <= |data| && n < TWO_32
    requires data[at..at + 4] == U32(n)
    ensures ReadU32(data, at) == n
  {
    var f := data[at..at + 4];
    assert f[..2] == U16(n / TWO_16) && f[2..] == U16(n % TWO_16);
    assert data[at..at + 2] == f[..2] && data[at + 2..at + 4] == f[2..];
    ReadU16Back(data, at, n / TWO_16);
    ReadU16Back(data, at + 2, n % TWO_16);
  }

  function Pow2(n: nat): (r: nat)
    ensures r > 0
  {
    if n == 0 then 1 else 2 * Pow2(n - 1)
  }

  lemma SliceOfSlice<T>(s: seq<T>, i: nat, j: nat, a: nat, b: nat)
    requires i <= j <= |s| && a <= b <= j - i
    ensures s[i..j][a..b] == s[i + a..i + b]
  {
    var inner := s[i..j];
    forall k | 0 <= k < b - a
      ensures inner[a..b][k] == s[i + a..i + b][k]
    {
      assert inner[a..b][k] == inner[a + k] == s[i + (a + k)];
    }
  }

  lemma Assoc<T>(a: seq<T>, b: seq<T>, c: seq<T>)
    ensures a + (b + c) == (a + b) + c
  {
  }

  /** `octets` are in place at `at`. */
  ghost predicate Has(data: bytes, at: nat, octets: bytes) {
    at + |octets| <= |data| && data[at..at + |octets|] == octets
  }

  lemma HasParts(data: bytes, at: nat, head: bytes, tail: bytes)
    requires Has(data, at, head + tail)
    ensures Has(data, at, head) && Has(data, at + |head|, tail)
  {
    var n, m := |head|, |head + tail|;
    SliceOfSlice(data, at, at + m, 0, n);
    SliceOfSlice(data, at, at + m, n, m);
    assert (head + tail)[0..n] == head && (head + tail)[n..m] == tail;
  }

  lemma HasAppended(out: bytes, octets: bytes, data: bytes)
    requires out + octets <= data
    ensures Has(data, |out|, octets)
  {
    assert data[..|out| + |octets|] == out + octets;
  }

  // What a loop has collected so far, and what the rest of the input will add.

  function Prepend<T>(done: seq<T>, rest: Result<seq<T>>): Result<seq<T>> {
    match rest
    case Ok(more) => Ok(done + more)
    case Err(e) => Err(e)
  }

  lemma PrependNone<T>(rest: Result<seq<T>>)
    ensures Prepend([], rest) == rest
  {
    if rest.Ok? {
      assert [] + rest.value == rest.value;
    }
  }

  lemma PrependTwice<T>(a: seq<T>, b: seq<T>, rest: Result<seq<T>>)
    ensures Prepend(a, Prepend(b, rest)) == Prepend(a + b, rest)
  {
    if rest.Ok? {
      Assoc(a, b, rest.value);
    }
  }

  lemma PrependMore<T>(done: seq<T>, x: T, rest: Result<seq<T>>)
    ensures Prepend(done + [x], rest) == Prepend(done, match rest case Ok(xs) => Ok([x] + xs) case Err(e) => Err(e))
  {
    PrependTwice(done, [x], rest);
  }

  // ASCII case folding (RFC 4343): only 'A'..'Z' move.

  function FoldByte(b: byte): (r: byte)
    ensures b <= 63 ==> r == b
    ensures r <= 63 ==> b == r
  {
    if 65 <= b <= 90 then b + 32 else b
  }

  function Fold(s: bytes): (r: bytes)
    ensures |r| == |s|
    ensures forall i :: 0 <= i < |s| ==> r[i] == FoldByte(s[i])
  {
    seq(|s|, i requires 0 <= i < |s| => FoldByte(s[i]))
  }

  lemma FoldAppend(a: bytes, b: bytes)
    ensures Fold(a + b) == Fold(a) + Fold(b)
  {
  }

  /** One octet, or the two cases of one letter of `A` to `Z`. */
  predicate SameLetter(x: byte, y: byte) {
    x == y || (65 <= x <= 90 && y == x + 32) || (65 <= y <= 90 && x == y + 32)
  }

  /** Equal up to ASCII case, place by place. */
  predicate SameText(a: bytes, b: bytes) {
    |a| == |b| && forall i :: 0 <= i < |a| ==> SameLetter(a[i], b[i])
  }

  lemma FoldedLetter(x: byte, y: byte)
    ensures FoldByte(x) == FoldByte(y) <==> SameLetter(x, y)
  {
  }

  /** Folding two octet strings makes them equal exactly when they were, up to case. */
  lemma FoldIff(a: bytes, b: bytes)
    ensures Fold(a) == Fold(b) <==> SameText(a, b)
  {
    hide FoldByte, SameLetter;
    assert |Fold(a)| == |a| && |Fold(b)| == |b|;
    if Fold(a) == Fold(b) {
      forall i | 0 <= i < |a| ensures SameLetter(a[i], b[i]) {
        assert Fold(a)[i] == Fold(b)[i];
        FoldedLetter(a[i], b[i]);
      }
    }
    if SameText(a, b) {
      forall i | 0 <= i < |a| ensures Fold(a)[i] == Fold(b)[i] {
        FoldedLetter(a[i], b[i]);
      }
    }
  }
}
