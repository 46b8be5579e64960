/** A name as its labels, its place under other names, and DNAME substitution
    (RFC 6672). */
module NameTree {
  import opened Octets
  import opened Names

  // ---- Names are lists of labels

  /** `parent`: the name without its first label. */
  function Parent(w: bytes): (p: bytes)
    requires NameAt(w, 0) && w[0] != 0
    ensures 1 + w[0] < |w| && NameAt(p, 0) && p == w[1 + w[0]..]
  {
    assert NameAt(w, 1 + w[0]);
    NameAtShift(w, 1 + w[0], 1 + w[0]);
    w[1 + w[0]..]
  }

  /** `labels`. */
  function Labels(w: bytes): (r: seq<bytes>)
    requires NameAt(w, 0)
    decreases |w|
  {
    if w[0] == 0 then []
    else
      var p := Parent(w);
      [w[1..1 + w[0]]] + Labels(p)
  }

  function ToWire(labels: seq<bytes>): bytes
    requires GoodLabels(labels)
  {
    Joined(labels) + [0]
  }

  lemma ToWireFirst(first: bytes, rest: seq<bytes>)
    requires GoodLabels([first] + rest)
    ensures GoodLabels(rest) && ToWire([first] + rest) == [|first|] + first + ToWire(rest)
  {
    assert ([first] + rest)[1..] == rest;
    Assoc([|first|] + first, Joined(rest), [0]);
  }

  /** A label put before a name is a name. */
  lemma Prepended(first: bytes, p: bytes)
    requires 0 < |first| <= MAX_LABEL_LEN && NameAt(p, 0)
    ensures var w: bytes := [|first|] + first + p; NameAt(w, 0) && Parent(w) == p && Labels(w) == [first] + Labels(p)
  {
    var w: bytes := [|first|] + first + p;
    assert w[0] == |first| && w[1..1 + |first|] == first && w[1 + |first|..] == p;
    NameAtShift(w, 1 + |first|, 1 + |first|);
  }

  lemma Split(w: bytes)
    requires NameAt(w, 0) && w[0] != 0
    ensures 1 + w[0] < |w| && w == [w[0]] + w[1..1 + w[0]] + Parent(w) && 0 < |w[1..1 + w[0]]| <= MAX_LABEL_LEN
    ensures Labels(w) == [w[1..1 + w[0]]] + Labels(Parent(w))
  {
    var p := Parent(w);
    hide NameAt;
    Cut(w, 1 + w[0]);
  }

  lemma Cut(w: bytes, k: nat)
    requires 1 <= k <= |w|
    ensures w == [w[0]] + w[1..k] + w[k..]
  {
  }

  lemma {:induction false} LabelsBack(labels: seq<bytes>)
    requires GoodLabels(labels)
    ensures NameAt(ToWire(labels), 0) && Labels(ToWire(labels)) == labels
    decreases |labels|
  {
    if labels != [] {
      hide NameAt, Labels, ToWire;
      assert labels == [labels[0]] + labels[1..];
      LabelsBack(labels[1..]);
      ToWireFirst(labels[0], labels[1..]);
      Prepended(labels[0], ToWire(labels[1..]));
    }
  }

  lemma {:induction false} WireBack(w: bytes)
    requires NameAt(w, 0)
    ensures GoodLabels(Labels(w)) && ToWire(Labels(w)) == w
    decreases |w|
  {
    hide NameAt, Labels, ToWire, GoodLabels, Joined;
    NotEmpty(w);
    if w[0] == 0 {
      RootWire(w);
    } else {
      Split(w);
      hide Parent;
      WireBack(Parent(w));
      GoodMore(w[1..1 + w[0]], Labels(Parent(w)));
      ToWireFirst(w[1..1 + w[0]], Labels(Parent(w)));
    }
  }

  /** A name is labels of 1 to 63 octets, each after its length, then the root octet, at
      most 255 octets in all. */
  lemma NameIff(w: bytes)
    ensures IsName(w) <==> |w| <= 255 && exists labels: seq<bytes> :: NameOf(labels, w)
  {
    hide NameAt, Labels;
    if IsName(w) {
      WireBack(w);
      assert NameOf(Labels(w), w);
    }
    if exists labels: seq<bytes> :: NameOf(labels, w) {
      var labels: seq<bytes> :| NameOf(labels, w);
      LabelsBack(labels);
    }
  }

  ghost predicate NameOf(labels: seq<bytes>, w: bytes) {
    (forall i :: 0 <= i < |labels| ==> 1 <= |labels[i]| <= 63) && w == Joined(labels) + [0]
  }

  lemma RootWire(w: bytes)
    requires NameAt(w, 0) && w[0] == 0
    ensures GoodLabels(Labels(w)) && ToWire(Labels(w)) == w
  {
    assert w == [0];
  }

  lemma GoodMore(first: bytes, rest: seq<bytes>)
    requires 0 < |first| <= MAX_LABEL_LEN && GoodLabels(rest)
    ensures GoodLabels([first] + rest)
  {
  }

  // ---- Case

  function FoldAll(labels: seq<bytes>): (r: seq<bytes>)
    ensures |r| == |labels|
    ensures forall i :: 0 <= i < |labels| ==> r[i] == Fold(labels[i])
  {
    seq(|labels|, i requires 0 <= i < |labels| => Fold(labels[i]))
  }

  lemma {:induction false} FoldJoined(labels: seq<bytes>)
    requires GoodLabels(labels)
    ensures GoodLabels(FoldAll(labels)) && Fold(Joined(labels)) == Joined(FoldAll(labels))
    decreases |labels|
  {
    if labels != [] {
      var first, rest := labels[0], labels[1..];
      FoldJoined(rest);
      FoldAppend([|first|] + first, Joined(rest));
      FoldAppend([|first|], first);
      assert Fold([|first|]) == [|first|];
      assert FoldAll(labels)[1..] == FoldAll(rest);
    }
  }

  /** Labels equal up to ASCII case, one by one. */
  predicate SameLabels(x: seq<bytes>, y: seq<bytes>) {
    |x| == |y| && forall i :: 0 <= i < |x| ==> SameText(x[i], y[i])
  }

  lemma FoldAllIff(x: seq<bytes>, y: seq<bytes>)
    ensures FoldAll(x) == FoldAll(y) <==> SameLabels(x, y)
  {
    hide Fold, SameText;
    assert |FoldAll(x)| == |x| && |FoldAll(y)| == |y|;
    if FoldAll(x) == FoldAll(y) {
      forall i | 0 <= i < |x| ensures SameText(x[i], y[i]) {
        assert FoldAll(x)[i] == FoldAll(y)[i];
        FoldIff(x[i], y[i]);
      }
    }
    if SameLabels(x, y) {
      forall i | 0 <= i < |x| ensures FoldAll(x)[i] == FoldAll(y)[i] {
        FoldIff(x[i], y[i]);
      }
    }
  }

  lemma FoldedLabels(a: bytes, b: bytes)
    requires NameAt(a, 0) && NameAt(b, 0)
    ensures Fold(a) == Fold(b) <==> FoldAll(Labels(a)) == FoldAll(Labels(b))
  {
    FoldedBack(a);
    FoldedBack(b);
  }

  /** The equality of names: their octets are the same up to the case of letters, and
      so are their labels, one by one. */
  lemma SameIffLabels(a: bytes, b: bytes)
    requires NameAt(a, 0) && NameAt(b, 0)
    ensures Fold(a) == Fold(b) <==> SameLabels(Labels(a), Labels(b))
    ensures Fold(a) == Fold(b) <==> SameText(a, b)
  {
    hide NameAt, Labels, FoldAll, Fold, SameText, SameLabels;
    FoldedLabels(a, b);
    FoldAllIff(Labels(a), Labels(b));
    FoldIff(a, b);
  }

  lemma FoldedBack(a: bytes)
    requires NameAt(a, 0)
    ensures GoodLabels(FoldAll(Labels(a))) && Fold(a) == ToWire(FoldAll(Labels(a)))
    ensures NameAt(Fold(a), 0) && Labels(Fold(a)) == FoldAll(Labels(a))
  {
    WireBack(a);
    FoldJoined(Labels(a));
    FoldAppend(Joined(Labels(a)), [0]);
    LabelsBack(FoldAll(Labels(a)));
  }

  // ---- Ancestors

  /** The `n`th of `ancestors`. */
  function Ancestor(w: bytes, n: nat): (r: bytes)
    requires NameAt(w, 0) && n <= |Labels(w)|
    ensures NameAt(r, 0) && Labels(r) == Labels(w)[n..]
    decreases n
  {
    if n == 0 then w else Ancestor(Parent(w), n - 1)
  }

  /** `suffix`: the last `n` labels, or the whole name. */
  function Suffix(w: bytes, n: nat): (r: bytes)
    requires NameAt(w, 0)
    ensures NameAt(r, 0) && Labels(r) == if n <= |Labels(w)| then Labels(w)[|Labels(w)| - n..] else Labels(w)
  {
    var count := |Labels(w)|;
    Ancestor(w, if n <= count then count - n else 0)
  }

  /** The walk of `is_at_or_under`: the first ancestor no longer than `n`. */
  function FirstWithin(w: bytes, n: nat): (r: bytes)
    requires NameAt(w, 0) && n > 0
    decreases |w|
  {
    if |w| <= n then w else FirstWithin(Parent(w), n)
  }

  predicate IsAtOrUnder(w: bytes, other: bytes)
    requires NameAt(w, 0) && NameAt(other, 0)
  {
    |other| <= |w| && Fold(FirstWithin(w, |other|)) == Fold(other)
  }

  /** `is_at_or_under` as it walks. */
  method AtOrUnder(w: bytes, other: bytes) returns (r: bool)
    requires NameAt(w, 0) && NameAt(other, 0)
    ensures r == IsAtOrUnder(w, other)
  {
    if |other| > |w| {
      return false;
    }
    var ancestor := w;
    while |ancestor| > |other|
      invariant NameAt(ancestor, 0) && FirstWithin(w, |other|) == FirstWithin(ancestor, |other|)
      decreases |ancestor|
    {
      ancestor := Parent(ancestor);
    }
    r := Fold(ancestor) == Fold(other);
  }

  predicate LabelSuffix(labels: seq<bytes>, other: seq<bytes>) {
    |other| <= |labels| && FoldAll(labels[|labels| - |other|..]) == FoldAll(other)
  }

  /** Labels a name's labels end with are the labels of one of its ancestors, as
      long as they are in octets. */
  lemma SuffixLength(w: bytes, other: bytes)
    requires NameAt(w, 0) && NameAt(other, 0) && LabelSuffix(Labels(w), Labels(other))
    ensures var a := Ancestor(w, |Labels(w)| - |Labels(other)|); Fold(a) == Fold(other) && |a| == |other|
  {
    var a := Ancestor(w, |Labels(w)| - |Labels(other)|);
    FoldedLabels(a, other);
    assert |Fold(a)| == |a| && |Fold(other)| == |other|;
  }

  lemma {:induction false} AncestorShorter(w: bytes, n: nat)
    requires NameAt(w, 0) && n <= |Labels(w)|
    ensures n > 0 ==> |Ancestor(w, n)| < |w|
    ensures |Ancestor(w, n)| <= |w|
    decreases n
  {
    if n > 0 {
      AncestorShorter(Parent(w), n - 1);
    }
  }

  /** The walk stops at the ancestor of just that length, if there is one. */
  lemma {:induction false} WalkStops(w: bytes, n: nat)
    requires NameAt(w, 0) && n <= |Labels(w)|
    ensures FirstWithin(w, |Ancestor(w, n)|) == Ancestor(w, n)
    decreases n
  {
    if n > 0 {
      AncestorShorter(w, n);
      WalkStops(Parent(w), n - 1);
    }
  }

  /** What the walk stops at is an ancestor. */
  lemma {:induction false} WalkIsAncestor(w: bytes, n: nat) returns (k: nat)
    requires NameAt(w, 0) && n > 0
    ensures k <= |Labels(w)| && FirstWithin(w, n) == Ancestor(w, k)
    decreases |w|
  {
    if |w| <= n {
      k := 0;
    } else {
      var j := WalkIsAncestor(Parent(w), n);
      k := j + 1;
    }
  }

  lemma UnderIffFolded(w: bytes, other: bytes)
    requires NameAt(w, 0) && NameAt(other, 0)
    ensures IsAtOrUnder(w, other) <==> LabelSuffix(Labels(w), Labels(other))
  {
    hide FirstWithin, Labels, FoldAll, Fold, NameAt;
    if LabelSuffix(Labels(w), Labels(other)) {
      var n := |Labels(w)| - |Labels(other)|;
      SuffixLength(w, other);
      WalkStops(w, n);
      AncestorShorter(w, n);
    }
    if IsAtOrUnder(w, other) {
      NotEmpty(other);
      var k := WalkIsAncestor(w, |other|);
      FoldedLabels(Ancestor(w, k), other);
      SuffixAgain(Labels(w), k, Labels(other));
    }
  }

  /** `is_at_or_under` holds exactly when the other name's labels are the last of this
      one's, up to the case of letters. */
  lemma UnderIffSuffix(w: bytes, other: bytes)
    requires NameAt(w, 0) && NameAt(other, 0)
    ensures var x, y := Labels(w), Labels(other);
            IsAtOrUnder(w, other) <==> |y| <= |x| && SameLabels(x[|x| - |y|..], y)
  {
    hide Labels, NameAt, IsAtOrUnder, FoldAll, SameLabels;
    UnderIffFolded(w, other);
    var x, y := Labels(w), Labels(other);
    if |y| <= |x| {
      FoldAllIff(x[|x| - |y|..], y);
    }
  }

  lemma NotEmpty(w: bytes)
    requires NameAt(w, 0)
    ensures |w| > 0
  {
  }

  lemma SuffixAgain(labels: seq<bytes>, k: nat, other: seq<bytes>)
    requires k <= |labels| && FoldAll(labels[k..]) == FoldAll(other)
    ensures LabelSuffix(labels, other)
  {
    assert |FoldAll(labels[k..])| == |labels| - k;
  }

  // ---- DNAME

  datatype Redirect = To(name: bytes) | NoMatch | Overlong

  /** `dname_redirect`. */
  function DnameRedirect(qname: bytes, owner: bytes, target: bytes): (r: Redirect)
    requires IsName(qname) && IsName(owner) && IsName(target)
  {
    if !IsAtOrUnder(qname, owner) || Fold(qname) == Fold(owner) then NoMatch
    else
      var out := qname[..|qname| - |owner|] + target;
      if IsName(out) then To(out) else Overlong
  }

  /** The octets before an ancestor are the labels before it. */
  lemma {:induction false} LeadingLabels(w: bytes, n: nat)
    requires NameAt(w, 0) && n <= |Labels(w)|
    ensures |Ancestor(w, n)| <= |w| && GoodLabels(Labels(w)[..n])
    ensures w[..|w| - |Ancestor(w, n)|] == Joined(Labels(w)[..n])
    decreases n
  {
    hide NameAt, Labels, Joined, GoodLabels;
    AncestorShorter(w, n);
    if n == 0 {
      NoLabels();
      assert Labels(w)[..0] == [];
    } else {
      NotRoot(w);
      var first, p := w[1..1 + w[0]], Parent(w);
      Split(w);
      hide Ancestor;
      LeadingLabels(p, n - 1);
      AncestorShorter(p, n - 1);
      FirstOf(first, Labels(p), n);
      GoodMore(first, Labels(p)[..n - 1]);
      JoinedFirst(first, Labels(p)[..n - 1]);
      HeadThen([w[0]] + first, p, |p| - |Ancestor(p, n - 1)|);
    }
  }

  lemma NoLabels()
    ensures GoodLabels([]) && Joined([]) == []
  {
  }

  lemma NotRoot(w: bytes)
    requires NameAt(w, 0) && Labels(w) != []
    ensures w[0] != 0 && 1 + w[0] < |w|
  {
    assert w[0] != 0;
    var p := Parent(w);
  }

  lemma FirstOf(first: bytes, rest: seq<bytes>, n: nat)
    requires 0 < n <= |rest| + 1
    ensures ([first] + rest)[..n] == [first] + rest[..n - 1]
  {
  }

  lemma HeadThen(head: bytes, p: bytes, k: nat)
    requires k <= |p|
    ensures (head + p)[..|head| + k] == head + p[..k]
  {
  }

  lemma JoinedFirst(first: bytes, rest: seq<bytes>)
    requires GoodLabels([first] + rest)
    ensures GoodLabels(rest) && Joined([first] + rest) == [|first|] + first + Joined(rest)
  {
    assert ([first] + rest)[1..] == rest;
  }

  /** Leading labels in front of another name are a name again, but for its length. */
  lemma Substituted(lead: seq<bytes>, target: bytes)
    requires GoodLabels(lead) && NameAt(target, 0)
    ensures NameAt(Joined(lead) + target, 0) && Labels(Joined(lead) + target) == lead + Labels(target)
  {
    hide NameAt, Labels;
    WireBack(target);
    var rest := Labels(target);
    JoinedAppend(lead, rest);
    Assoc(Joined(lead), Joined(rest), [0]);
    LabelsBack(lead + rest);
  }

  /** A DNAME redirects exactly the names strictly below its owner; it keeps their
      leading labels octet for octet, puts the target's after them, and overflows
      exactly when that is more than 255 octets. */
  lemma DnameExact(qname: bytes, owner: bytes, target: bytes)
    requires IsName(qname) && IsName(owner) && IsName(target)
    ensures var r := DnameRedirect(qname, owner, target);
            var q, o := Labels(qname), Labels(owner);
            && (r.NoMatch? <==> !(LabelSuffix(q, o) && |o| < |q|))
            && (!r.NoMatch? ==> |owner| < |qname|)
            && (!r.NoMatch? ==> (r.Overlong? <==> |qname| - |owner| + |target| > MAX_NAME_LEN))
            && (r.To? ==> && IsName(r.name) && r.name == qname[..|qname| - |owner|] + target
                          && Labels(r.name) == q[..|q| - |o|] + Labels(target))
  {
    hide Labels, IsAtOrUnder, Fold, FoldAll, NameAt, LabelSuffix, Joined, GoodLabels;
    StrictlyUnder(qname, owner);
    if IsAtOrUnder(qname, owner) && Fold(qname) != Fold(owner) {
      OwnerFits(qname, owner);
      var lead := Lead(qname, owner);
      Substituted(lead, target);
    }
  }

  lemma SuffixCut(w: bytes, other: bytes)
    requires NameAt(w, 0) && NameAt(other, 0) && LabelSuffix(Labels(w), Labels(other))
    ensures |Labels(other)| <= |Labels(w)| && |Ancestor(w, |Labels(w)| - |Labels(other)|)| == |other|
  {
    hide Labels, Fold, FoldAll, NameAt, Ancestor;
    SuffixLength(w, other);
  }

  lemma Lead(w: bytes, other: bytes) returns (lead: seq<bytes>)
    requires NameAt(w, 0) && NameAt(other, 0) && LabelSuffix(Labels(w), Labels(other)) && |other| <= |w|
    ensures |Labels(other)| <= |Labels(w)| && lead == Labels(w)[..|Labels(w)| - |Labels(other)|]
    ensures GoodLabels(lead) && w[..|w| - |other|] == Joined(lead)
  {
    hide Labels, NameAt, Ancestor, LabelSuffix, Joined, GoodLabels;
    SuffixCut(w, other);
    LeadingLabels(w, |Labels(w)| - |Labels(other)|);
    lead := Labels(w)[..|Labels(w)| - |Labels(other)|];
  }

  lemma OwnerFits(w: bytes, other: bytes)
    requires NameAt(w, 0) && NameAt(other, 0) && LabelSuffix(Labels(w), Labels(other)) && |Labels(other)| < |Labels(w)|
    ensures |other| < |w|
  {
    hide Labels, NameAt, Ancestor, LabelSuffix;
    SuffixCut(w, other);
    AncestorShorter(w, |Labels(w)| - |Labels(other)|);
  }

  lemma StrictlyUnder(w: bytes, other: bytes)
    requires NameAt(w, 0) && NameAt(other, 0)
    ensures IsAtOrUnder(w, other) && Fold(w) != Fold(other)
            <==> LabelSuffix(Labels(w), Labels(other)) && |Labels(other)| < |Labels(w)|
  {
    hide Labels, IsAtOrUnder, Fold, NameAt;
    UnderIffFolded(w, other);
    FoldedLabels(w, other);
    assert Labels(w)[0..] == Labels(w);
    assert |FoldAll(Labels(w))| == |Labels(w)| && |FoldAll(Labels(other))| == |Labels(other)|;
  }
}
