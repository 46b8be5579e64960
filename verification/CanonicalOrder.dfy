/** DNSSEC canonical name order (RFC 4034 section 6.1) and the sort key whose plain
    octet order stands for it. */
module CanonicalOrder {
  import opened Octets
  import opened Names
  import opened NameTree

  datatype Ordering = Less | Equal | Greater

  function CmpBytes(a: bytes, b: bytes): Ordering {
    if a == [] && b == [] then Equal
    else if a == [] then Less
    else if b == [] then Greater
    else if a[0] < b[0] then Less
    else if a[0] > b[0] then Greater
    else CmpBytes(a[1..], b[1..])
  }

  /** `Iterator::cmp` over labels already folded. */
  function CmpLabels(a: seq<bytes>, b: seq<bytes>): Ordering {
    if a == [] && b == [] then Equal
    else if a == [] then Less
    else if b == [] then Greater
    else if CmpBytes(a[0], b[0]) != Equal then CmpBytes(a[0], b[0])
    else CmpLabels(a[1..], b[1..])
  }

  /** The `i`th label from the right, folded: the first of `suffix(i + 1)`. */
  function FromRight(w: bytes, i: nat): (r: bytes)
    requires NameAt(w, 0) && i < |Labels(w)|
    ensures r == Fold(Labels(w)[|Labels(w)| - 1 - i])
  {
    var tail := Labels(Suffix(w, i + 1));
    assert tail == Labels(w)[|Labels(w)| - (i + 1)..];
    Fold(tail[0])
  }

  /** `reversed_labels`, folded as they are compared. */
  function Reversed(w: bytes): (r: seq<bytes>)
    requires NameAt(w, 0)
    ensures |r| == |Labels(w)|
    ensures forall i :: 0 <= i < |r| ==> r[i] == Fold(Labels(w)[|r| - 1 - i])
  {
    var count := |Labels(w)|;
    seq(count, i requires 0 <= i < count => FromRight(w, i))
  }

  /** `canonical_name_cmp`. */
  function CanonicalCmp(a: bytes, b: bytes): Ordering
    requires NameAt(a, 0) && NameAt(b, 0)
  {
    CmpLabels(Reversed(a), Reversed(b))
  }

  function KeyOf(labels: seq<bytes>): bytes {
    if labels == [] then [] else labels[0] + [0] + KeyOf(labels[1..])
  }

  /** `canonical_sort_key`. */
  function SortKey(w: bytes): bytes
    requires NameAt(w, 0)
  {
    KeyOf(Reversed(w))
  }

  /** The loop of `canonical_sort_key`. */
  method CanonicalSortKey(w: bytes) returns (key: bytes)
    requires NameAt(w, 0)
    ensures key == SortKey(w)
  {
    key := [];
    var count := |Labels(w)|;
    var n: nat := 0;
    assert Reversed(w)[0..] == Reversed(w);
    while n < count
      invariant n <= count && key + KeyOf(Reversed(w)[n..]) == SortKey(w)
    {
      var label_ := FromRight(w, n);
      assert Reversed(w)[n..][1..] == Reversed(w)[n + 1..];
      Assoc(key, label_ + [0], KeyOf(Reversed(w)[n + 1..]));
      Assoc(key, label_, [0]);
      key := key + label_;
      key := key + [0];
      n := n + 1;
    }
    assert Reversed(w)[count..] == [] && key + [] == key;
  }

  // ---- Comparing octets

  lemma {:induction false} EqualIff(a: bytes, b: bytes)
    ensures CmpBytes(a, b) == Equal <==> a == b
  {
    if a != [] && b != [] {
      EqualIff(a[1..], b[1..]);
      assert a == [a[0]] + a[1..] && b == [b[0]] + b[1..];
    }
  }

  /** They agree up to `i`, where `a` has run out or has the smaller octet. */
  predicate OctetsPart(a: bytes, b: bytes, i: nat) {
    && i <= |a| && i < |b| && a[..i] == b[..i]
    && (i == |a| || a[i] < b[i])
  }

  /** Octet strings in the order of a dictionary whose letters are the numbers. */
  ghost predicate OctetsBefore(a: bytes, b: bytes) {
    exists i: nat :: OctetsPart(a, b, i)
  }

  lemma PartLater(a: bytes, b: bytes, i: nat)
    requires a != [] && b != [] && a[0] == b[0]
    ensures OctetsPart(a, b, i + 1) <==> OctetsPart(a[1..], b[1..], i)
  {
    var x, y := a[1..], b[1..];
    assert a == [a[0]] + x && b == [b[0]] + y;
    if i < |a| && i < |b| {
      assert a[..i + 1] == [a[0]] + x[..i] && b[..i + 1] == [b[0]] + y[..i];
      assert a[..i + 1][1..] == x[..i] && b[..i + 1][1..] == y[..i];
    }
  }

  lemma PartHere(a: bytes, b: bytes, i: nat)
    requires a != [] && b != [] && a[0] != b[0] && OctetsPart(a, b, i)
    ensures i == 0 && a[0] < b[0]
  {
  }

  lemma {:induction false} LessIffBefore(a: bytes, b: bytes)
    ensures CmpBytes(a, b) == Less <==> OctetsBefore(a, b)
    decreases |a|
  {
    if a == [] || b == [] || a[0] != b[0] {
      if CmpBytes(a, b) == Less {
        assert OctetsPart(a, b, 0);
      }
      if OctetsBefore(a, b) {
        var i: nat :| OctetsPart(a, b, i);
        if a != [] {
          PartHere(a, b, i);
        }
      }
    } else {
      LessIffBefore(a[1..], b[1..]);
      if OctetsBefore(a[1..], b[1..]) {
        var i: nat :| OctetsPart(a[1..], b[1..], i);
        PartLater(a, b, i);
      }
      if OctetsBefore(a, b) {
        var i: nat :| OctetsPart(a, b, i);
        assert i != 0;
        PartLater(a, b, i - 1);
      }
    }
  }

  /** Different labels without zero octets decide the comparison, whatever follows
      their terminators. */
  lemma {:induction false} LabelDecides(x: bytes, y: bytes, s: bytes, t: bytes)
    requires x != y && 0 !in x && 0 !in y
    ensures CmpBytes(x + [0] + s, y + [0] + t) == CmpBytes(x, y) != Equal
    decreases |x|
  {
    EqualIff(x, y);
    var p, q := x + [0] + s, y + [0] + t;
    if x != [] && y != [] && x[0] == y[0] {
      assert p[1..] == x[1..] + [0] + s && q[1..] == y[1..] + [0] + t;
      assert x == [x[0]] + x[1..] && y == [y[0]] + y[1..];
      LabelDecides(x[1..], y[1..], s, t);
    }
  }

  lemma {:induction false} SkipPrefix(p: bytes, s: bytes, t: bytes)
    ensures CmpBytes(p + s, p + t) == CmpBytes(s, t)
  {
    if p == [] {
      assert p + s == s && p + t == t;
    } else {
      assert (p + s)[1..] == p[1..] + s && (p + t)[1..] == p[1..] + t;
      SkipPrefix(p[1..], s, t);
    }
  }

  // ---- Comparing labels

  /** They agree up to the `i`th, where `a` has run out or has the earlier label. */
  ghost predicate LabelsPart(a: seq<bytes>, b: seq<bytes>, i: nat) {
    && i <= |a| && i < |b| && a[..i] == b[..i]
    && (i == |a| || OctetsBefore(a[i], b[i]))
  }

  ghost predicate LabelsBefore(a: seq<bytes>, b: seq<bytes>) {
    exists i: nat :: LabelsPart(a, b, i)
  }

  lemma LabelsPartLater(a: seq<bytes>, b: seq<bytes>, i: nat)
    requires a != [] && b != [] && a[0] == b[0]
    ensures LabelsPart(a, b, i + 1) <==> LabelsPart(a[1..], b[1..], i)
  {
    hide OctetsBefore;
    var x, y := a[1..], b[1..];
    assert a == [a[0]] + x && b == [b[0]] + y;
    if i < |a| && i < |b| {
      assert a[..i + 1] == [a[0]] + x[..i] && b[..i + 1] == [b[0]] + y[..i];
      assert a[..i + 1][1..] == x[..i] && b[..i + 1][1..] == y[..i];
    }
  }

  lemma LabelsPartHere(a: seq<bytes>, b: seq<bytes>, i: nat)
    requires a != [] && b != [] && a[0] != b[0] && LabelsPart(a, b, i)
    ensures i == 0
  {
    hide OctetsBefore;
  }

  lemma {:induction false} LabelsIffBefore(a: seq<bytes>, b: seq<bytes>)
    ensures CmpLabels(a, b) == Less <==> LabelsBefore(a, b)
    decreases |a|
  {
    hide OctetsBefore, CmpBytes;
    if a != [] && b != [] {
      EqualIff(a[0], b[0]);
      LessIffBefore(a[0], b[0]);
    }
    if a == [] || b == [] || a[0] != b[0] {
      if CmpLabels(a, b) == Less {
        assert LabelsPart(a, b, 0);
      }
      if LabelsBefore(a, b) {
        var i: nat :| LabelsPart(a, b, i);
        if a != [] {
          LabelsPartHere(a, b, i);
        }
      }
    } else {
      NotBeforeItself(a[0]);
      LabelsIffBefore(a[1..], b[1..]);
      if LabelsBefore(a[1..], b[1..]) {
        var i: nat :| LabelsPart(a[1..], b[1..], i);
        LabelsPartLater(a, b, i);
      }
      if LabelsBefore(a, b) {
        var i: nat :| LabelsPart(a, b, i);
        assert i != 0;
        LabelsPartLater(a, b, i - 1);
      }
    }
  }

  lemma NotBeforeItself(a: bytes)
    ensures !OctetsBefore(a, a)
  {
    EqualIff(a, a);
    LessIffBefore(a, a);
  }

  /** The order of names, right to left and label by label: `a` comes before `b` exactly
      when their reversed folded labels agree up to one where `a` has run out, or where
      the label of `a` is the start of the other or has the smaller number at the first
      octet in which they differ. The keys are ordered as plain octets the same way. */
  lemma LessIffLabels(a: bytes, b: bytes)
    requires NameAt(a, 0) && NameAt(b, 0)
    ensures CanonicalCmp(a, b) == Less <==> LabelsBefore(Reversed(a), Reversed(b))
    ensures CanonicalCmp(a, b) == Greater <==> LabelsBefore(Reversed(b), Reversed(a))
    ensures CmpBytes(SortKey(a), SortKey(b)) == Less <==> OctetsBefore(SortKey(a), SortKey(b))
    ensures CmpBytes(SortKey(a), SortKey(b)) == Greater <==> OctetsBefore(SortKey(b), SortKey(a))
  {
    hide Reversed, CmpLabels, CmpBytes, LabelsBefore, OctetsBefore, KeyOf;
    LabelsIffBefore(Reversed(a), Reversed(b));
    LabelsIffBefore(Reversed(b), Reversed(a));
    LessIffBefore(SortKey(a), SortKey(b));
    LessIffBefore(SortKey(b), SortKey(a));
    Opposite(SortKey(a), SortKey(b));
    OppositeLabels(Reversed(a), Reversed(b));
  }

  lemma {:induction false} Opposite(a: bytes, b: bytes)
    ensures CmpBytes(a, b) == Greater <==> CmpBytes(b, a) == Less
    decreases |a|
  {
    if a != [] && b != [] {
      Opposite(a[1..], b[1..]);
    }
  }

  lemma {:induction false} OppositeLabels(a: seq<bytes>, b: seq<bytes>)
    ensures CmpLabels(a, b) == Greater <==> CmpLabels(b, a) == Less
    decreases |a|
  {
    hide CmpBytes;
    if a != [] && b != [] {
      OppositeLabels(a[1..], b[1..]);
      EqualIff(a[0], b[0]);
      EqualIff(b[0], a[0]);
      Opposite(a[0], b[0]);
    }
  }

  // ---- Comparing keys

  predicate NoZero(labels: seq<bytes>) {
    forall i :: 0 <= i < |labels| ==> 0 !in labels[i]
  }

  /** Labels without zero octets compare as their keys do. */
  lemma {:induction false} CleanKeys(a: seq<bytes>, b: seq<bytes>)
    requires NoZero(a) && NoZero(b)
    ensures CmpBytes(KeyOf(a), KeyOf(b)) == CmpLabels(a, b)
    decreases |a|
  {
    if a != [] && b != [] {
      var x, y, s, t := a[0], b[0], KeyOf(a[1..]), KeyOf(b[1..]);
      EqualIff(x, y);
      if x == y {
        SkipPrefix(x + [0], s, t);
        CleanKeys(a[1..], b[1..]);
      } else {
        LabelDecides(x, y, s, t);
      }
    }
  }

  /** A label as the key sees it: cut at its zero octets. */
  function SplitLabel(label_: bytes): (r: seq<bytes>)
    ensures r != []
  {
    if label_ == [] then [[]]
    else
      var rest := SplitLabel(label_[1..]);
      if label_[0] == 0 then [[]] + rest else [[label_[0]] + rest[0]] + rest[1..]
  }

  function SplitZeros(labels: seq<bytes>): seq<bytes> {
    if labels == [] then [] else SplitLabel(labels[0]) + SplitZeros(labels[1..])
  }

  lemma KeyFirst(first: bytes, rest: seq<bytes>)
    ensures KeyOf([first] + rest) == first + [0] + KeyOf(rest)
  {
    assert ([first] + rest)[1..] == rest;
  }

  lemma {:induction false} SplitLabelKey(label_: bytes)
    ensures NoZero(SplitLabel(label_)) && KeyOf(SplitLabel(label_)) == label_ + [0]
    ensures 0 !in label_ ==> SplitLabel(label_) == [label_]
    decreases |label_|
  {
    if label_ == [] {
      KeyFirst([], []);
      assert SplitLabel(label_) == [label_] + [];
    } else {
      var c, more := label_[0], label_[1..];
      var rest := SplitLabel(more);
      SplitLabelKey(more);
      assert label_ == [c] + more;
      if c == 0 {
        KeyFirst([], rest);
      } else {
        KeyGrown(c, rest);
      }
    }
  }

  lemma KeyGrown(c: byte, rest: seq<bytes>)
    requires rest != []
    ensures KeyOf([[c] + rest[0]] + rest[1..]) == [c] + KeyOf(rest)
  {
    hide KeyOf;
    KeyFirst([c] + rest[0], rest[1..]);
    KeyFirst(rest[0], rest[1..]);
    assert [rest[0]] + rest[1..] == rest;
    assert [c] + rest[0] + [0] + KeyOf(rest[1..]) == [c] + (rest[0] + [0] + KeyOf(rest[1..]));
  }

  lemma {:induction false} KeyAppend(a: seq<bytes>, b: seq<bytes>)
    ensures KeyOf(a + b) == KeyOf(a) + KeyOf(b)
    decreases |a|
  {
    if a == [] {
      assert a + b == b;
    } else {
      assert (a + b)[1..] == a[1..] + b;
      KeyAppend(a[1..], b);
      Assoc(a[0] + [0], KeyOf(a[1..]), KeyOf(b));
    }
  }

  /** Cutting labels at their zero octets leaves none and does not change the key; it
      changes nothing at all where there were none. */
  lemma {:induction false} SplitKeepsKey(labels: seq<bytes>)
    ensures NoZero(SplitZeros(labels)) && KeyOf(SplitZeros(labels)) == KeyOf(labels)
    ensures NoZero(labels) ==> SplitZeros(labels) == labels
    decreases |labels|
  {
    if labels != [] {
      hide SplitLabel, KeyOf;
      SplitLabelKey(labels[0]);
      SplitKeepsKey(labels[1..]);
      KeyAppend(SplitLabel(labels[0]), SplitZeros(labels[1..]));
      KeyFirst(labels[0], labels[1..]);
      assert [labels[0]] + labels[1..] == labels;
    }
  }

  lemma CleanReversed(w: bytes)
    requires NameAt(w, 0) && NoZero(Labels(w))
    ensures NoZero(Reversed(w))
  {
    var r := Reversed(w);
    forall i | 0 <= i < |r| ensures 0 !in r[i] {
      var l := Labels(w)[|r| - 1 - i];
      forall k | 0 <= k < |l| ensures Fold(l)[k] != 0 {
        assert l[k] in l;
      }
    }
  }

  /** What the sort keys of any two names compare: their labels cut at their zero
      octets. So the keys order the names rightly if and only if cutting does not change
      how the labels compare; with no zero octet there is nothing to cut. */
  lemma KeyIsOrder(a: bytes, b: bytes)
    requires NameAt(a, 0) && NameAt(b, 0)
    ensures CmpBytes(SortKey(a), SortKey(b)) == CmpLabels(SplitZeros(Reversed(a)), SplitZeros(Reversed(b)))
    ensures SortKey(a) == SortKey(b) <==> SplitZeros(Reversed(a)) == SplitZeros(Reversed(b))
    ensures CmpBytes(SortKey(a), SortKey(b)) == CanonicalCmp(a, b)
            <==> CmpLabels(SplitZeros(Reversed(a)), SplitZeros(Reversed(b))) == CmpLabels(Reversed(a), Reversed(b))
    ensures NoZero(Labels(a)) && NoZero(Labels(b)) ==> CmpBytes(SortKey(a), SortKey(b)) == CanonicalCmp(a, b)
  {
    hide Reversed, SplitZeros, KeyOf, CmpBytes, CmpLabels, NoZero;
    var x, y := SplitZeros(Reversed(a)), SplitZeros(Reversed(b));
    SplitKeepsKey(Reversed(a));
    SplitKeepsKey(Reversed(b));
    CleanKeys(x, y);
    EqualLabels(x, y);
    EqualIff(KeyOf(x), KeyOf(y));
    if NoZero(Labels(a)) && NoZero(Labels(b)) {
      CleanReversed(a);
      CleanReversed(b);
    }
  }

  lemma {:induction false} EqualLabels(a: seq<bytes>, b: seq<bytes>)
    ensures CmpLabels(a, b) == Equal <==> a == b
  {
    if a != [] && b != [] {
      EqualIff(a[0], b[0]);
      EqualLabels(a[1..], b[1..]);
      assert a == [a[0]] + a[1..] && b == [b[0]] + b[1..];
    }
  }

  lemma ReversedSame(a: bytes, b: bytes)
    requires NameAt(a, 0) && NameAt(b, 0)
    ensures Reversed(a) == Reversed(b) <==> FoldAll(Labels(a)) == FoldAll(Labels(b))
  {
    var p, q, x, y := FoldAll(Labels(a)), FoldAll(Labels(b)), Reversed(a), Reversed(b);
    if x == y {
      forall i | 0 <= i < |p| ensures p[i] == q[i] {
        assert x[|p| - 1 - i] == y[|p| - 1 - i];
      }
    }
    if p == q {
      forall i | 0 <= i < |x| ensures x[i] == y[i] {
        assert p[|x| - 1 - i] == q[|x| - 1 - i];
      }
    }
  }

  /** Names compare equal exactly when they are the same name up to case. */
  lemma EqualIffSame(a: bytes, b: bytes)
    requires NameAt(a, 0) && NameAt(b, 0)
    ensures CanonicalCmp(a, b) == Equal <==> Fold(a) == Fold(b)
    ensures NoZero(Labels(a)) && NoZero(Labels(b)) ==> (SortKey(a) == SortKey(b) <==> Fold(a) == Fold(b))
  {
    hide Reversed, Fold, FoldAll, NoZero;
    EqualLabels(Reversed(a), Reversed(b));
    ReversedSame(a, b);
    FoldedLabels(a, b);
    KeyIsOrder(a, b);
    EqualIff(SortKey(a), SortKey(b));
  }

  lemma {:induction false} PrefixFirst(a: seq<bytes>, more: seq<bytes>)
    requires more != []
    ensures CmpLabels(a, a + more) == Less && CmpBytes(KeyOf(a), KeyOf(a + more)) == Less
    decreases |a|
  {
    if a == [] {
      assert a + more == more;
    } else {
      assert (a + more)[1..] == a[1..] + more;
      EqualIff(a[0], a[0]);
      PrefixFirst(a[1..], more);
      SkipPrefix(a[0] + [0], KeyOf(a[1..]), KeyOf(a[1..] + more));
    }
  }

  /** Every name sorts before everything beneath it, by order and by key alike. */
  lemma AncestorsFirst(a: bytes, b: bytes)
    requires NameAt(a, 0) && NameAt(b, 0) && IsAtOrUnder(b, a) && Fold(a) != Fold(b)
    ensures CanonicalCmp(a, b) == Less && CmpBytes(SortKey(a), SortKey(b)) == Less
  {
    hide IsAtOrUnder, NameAt, Labels, Reversed, Fold, LabelSuffix;
    StrictlyUnder(b, a);
    ReversedPrefix(a, b);
    var x, y := Reversed(a), Reversed(b);
    assert y == x + y[|x|..];
    PrefixFirst(x, y[|x|..]);
  }

  lemma ReversedPrefix(a: bytes, b: bytes)
    requires NameAt(a, 0) && NameAt(b, 0) && LabelSuffix(Labels(b), Labels(a))
    ensures Reversed(a) <= Reversed(b)
  {
    hide NameAt, Labels, Reversed, Fold;
    var x, y, p, q := Reversed(a), Reversed(b), Labels(a), Labels(b);
    forall i | 0 <= i < |x| ensures x[i] == y[i] {
      assert FoldAll(q[|q| - |p|..])[|p| - 1 - i] == FoldAll(p)[|p| - 1 - i];
    }
  }

  lemma ReversedLabels(labels: seq<bytes>)
    requires GoodLabels(labels) && 1 <= |labels| <= 2
    ensures NameAt(ToWire(labels), 0)
    ensures |labels| == 1 ==> Reversed(ToWire(labels)) == [Fold(labels[0])]
    ensures |labels| == 2 ==> Reversed(ToWire(labels)) == [Fold(labels[1]), Fold(labels[0])]
  {
    hide NameAt, Labels, ToWire;
    LabelsBack(labels);
  }

  /** A label may hold a zero octet, though the key assumes none does. Whatever the
      two parts, the one-label name `p\\000q` and the two-label name `q.p` are
      different names with one and the same key. */
  lemma ZeroOctetCollides(p: bytes, q: bytes)
    requires 0 < |p| && 0 < |q| && |p| + 1 + |q| <= MAX_LABEL_LEN
    ensures var one, two := ToWire([p + [0] + q]), ToWire([q, p]);
            && IsName(one) && IsName(two) && Fold(one) != Fold(two)
            && CanonicalCmp(one, two) != Equal && SortKey(one) == SortKey(two)
  {
    hide NameAt, Labels, Reversed;
    var x, y := [p + [0] + q], [q, p];
    ReversedLabels(x);
    ReversedLabels(y);
    var one, two := ToWire(x), ToWire(y);
    Lengths(p, q);
    FoldAppend(p + [0], q);
    FoldAppend(p, [0]);
    assert Fold([0]) == [0];
    OneKey(Fold(p), Fold(q));
    EqualLabels(Reversed(one), Reversed(two));
    EqualIffSame(one, two);
  }

  lemma OneKey(p: bytes, q: bytes)
    ensures KeyOf([p + [0] + q]) == KeyOf([p, q])
  {
    assert [p + [0] + q][1..] == [] && [p, q][1..] == [q] && [q][1..] == [];
    assert KeyOf([q]) == q + [0] + [];
    assert p + [0] + q + [0] + [] == p + [0] + (q + [0] + []);
  }

  lemma Lengths(p: bytes, q: bytes)
    requires 0 < |p| && 0 < |q| && |p| + 1 + |q| <= MAX_LABEL_LEN
    ensures |ToWire([p + [0] + q])| <= MAX_NAME_LEN && |ToWire([q, p])| <= MAX_NAME_LEN
  {
    assert [p + [0] + q][1..] == [] && [q, p][1..] == [p] && [p][1..] == [];
    assert |Joined([p])| == 1 + |p|;
  }
}
