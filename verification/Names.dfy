/** A domain name in wire form: length-prefixed labels ending in the root's zero
    octet (RFC 1035 section 3.1). A name is its octets, and a position where a
    label starts stands for the ancestor that starts there. */
module Names {
  import opened Octets

  const MAX_LABEL_LEN := 63
  const MAX_NAME_LEN := 255

  /** From `k` on, `w` is whole labels and then the root octet, which is last. */
  predicate NameAt(w: bytes, k: nat)
    decreases |w| - k
  {
    && k < |w|
    && if w[k] == 0 then k + 1 == |w| else w[k] <= MAX_LABEL_LEN && NameAt(w, k + 1 + w[k])
  }

  predicate IsName(w: bytes) {
    NameAt(w, 0) && |w| <= MAX_NAME_LEN
  }

  predicate IsRoot(w: bytes) {
    |w| == 1
  }

  function LabelCount(w: bytes, k: nat): (n: nat)
    requires NameAt(w, k)
    ensures w[k] == 0 <==> n == 0
    ensures 2 * n < |w| - k
    decreases |w| - k
  {
    if w[k] == 0 then 0 else 1 + LabelCount(w, k + 1 + w[k])
  }

  /** `k` is a label boundary found by walking forward from boundary `j`. */
  predicate Reaches(w: bytes, j: nat, k: nat)
    requires NameAt(w, j)
    decreases |w| - j
  {
    j == k || (w[j] != 0 && Reaches(w, j + 1 + w[j], k))
  }

  lemma {:induction false} ReachesNameAt(w: bytes, j: nat, k: nat)
    requires NameAt(w, j) && Reaches(w, j, k)
    ensures j <= k && NameAt(w, k)
    ensures LabelCount(w, k) <= LabelCount(w, j)
    ensures j < k ==> LabelCount(w, k) < LabelCount(w, j)
    decreases |w| - j
  {
    if j != k {
      ReachesNameAt(w, j + 1 + w[j], k);
    }
  }

  /** Every name ends at its root octet, one label boundary after another. */
  lemma {:induction false} ReachesRoot(w: bytes, j: nat)
    requires NameAt(w, j)
    ensures Reaches(w, j, |w| - 1) && w[|w| - 1] == 0
    decreases |w| - j
  {
    if w[j] != 0 {
      ReachesRoot(w, j + 1 + w[j]);
    }
  }

  /** Dropping leading octets changes nothing of how the rest reads. */
  lemma {:induction false} NameAtShift(w: bytes, i: nat, k: nat)
    requires i <= k && i <= |w|
    ensures NameAt(w, k) <==> NameAt(w[i..], k - i)
    ensures NameAt(w, k) ==> LabelCount(w, k) == LabelCount(w[i..], k - i)
    decreases |w| - k
  {
    if k < |w| && w[k] != 0 {
      assert w[i..][k - i] == w[k];
      NameAtShift(w, i, k + 1 + w[k]);
    }
  }

  lemma SuffixIsName(w: bytes, k: nat)
    requires |w| <= MAX_NAME_LEN && NameAt(w, k)
    ensures IsName(w[k..]) && LabelCount(w[k..], 0) == LabelCount(w, k)
  {
    NameAtShift(w, k, k);
  }

  /** Length octets are at most 63, below 'A': folding moves no label boundary. */
  lemma {:induction false} FoldKeepsShape(a: bytes, b: bytes, k: nat)
    requires Fold(a) == Fold(b)
    requires NameAt(a, k)
    ensures NameAt(b, k) && LabelCount(a, k) == LabelCount(b, k)
    decreases |a| - k
  {
    assert |a| == |Fold(a)| == |Fold(b)| == |b|;
    assert FoldByte(a[k]) == Fold(a)[k] == Fold(b)[k] == FoldByte(b[k]);
    if a[k] != 0 {
      FoldKeepsShape(a, b, k + 1 + a[k]);
    }
  }

  // ---- Names from labels

  predicate GoodLabels(labels: seq<bytes>) {
    forall i :: 0 <= i < |labels| ==> 0 < |labels[i]| <= MAX_LABEL_LEN
  }

  /** The octets of labels without the root. */
  function Joined(labels: seq<bytes>): (r: bytes)
    requires GoodLabels(labels)
  {
    if labels == [] then [] else [|labels[0]|] + labels[0] + Joined(labels[1..])
  }

  lemma {:induction false} JoinedAppend(a: seq<bytes>, b: seq<bytes>)
    requires GoodLabels(a) && GoodLabels(b)
    ensures GoodLabels(a + b) && Joined(a + b) == Joined(a) + Joined(b)
    decreases |a|
  {
    if a == [] {
      assert a + b == b;
    } else {
      JoinedAppend(a[1..], b);
      assert (a + b)[1..] == a[1..] + b;
      Assoc([|a[0]|] + a[0], Joined(a[1..]), Joined(b));
    }
  }

  lemma JoinedPush(labels: seq<bytes>, open: bytes)
    requires GoodLabels(labels) && 0 < |open| <= MAX_LABEL_LEN
    ensures GoodLabels(labels + [open]) && Joined(labels + [open]) == Joined(labels) + ([|open|] + open)
  {
    JoinedAppend(labels, [open]);
    assert [open][1..] == [] && [|open|] + open + [] == [|open|] + open;
  }

  /** `NameRef::from_wire_slice`: the one validating door for octets that claim
      to be a name. */
  method FromWireSlice(wire: bytes) returns (r: Result<bytes>)
    ensures r.Ok? <==> IsName(wire)
    ensures r.Ok? ==> r.value == wire
  {
    var pos := 0;
    while true
      invariant pos <= |wire| + MAX_LABEL_LEN
      invariant NameAt(wire, 0) <==> NameAt(wire, pos)
      decreases |wire| + 1 + MAX_LABEL_LEN - pos
    {
      if pos >= |wire| { return Err(Malformed); }
      var len := wire[pos];
      if len > MAX_LABEL_LEN { return Err(TooLong); }
      if len == 0 { pos := pos + 1; break; }
      pos := pos + 1 + len;
    }
    if pos != |wire| { return Err(Malformed); }
    if |wire| > MAX_NAME_LEN { return Err(TooLong); }
    r := Ok(wire);
  }
}
