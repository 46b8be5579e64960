/** Names as a message spells them: labels, compression pointers (RFC 1035
    section 4.1.4), and the decoder that follows the pointers. */
module DName {
  import opened Octets
  import opened Names

  /** The pointer-hop cap of the decoder. */
  const MAX_DEPTH := 50
  /** The starting `prev_target`, which no 14-bit offset reaches. */
  const USIZE_MAX := 0xffff_ffff_ffff_ffff
  const POINTER_MASK := 0x3fff

  datatype Label = Text(octets: bytes) | Pointer(target: nat) | Root {
    function Len(): nat {
      match this
      case Text(s) => |s| + 1
      case Pointer(_) => 2
      case Root => 1
    }
  }

  /** `Label::try_from_bytes` on `data[pos..]`: the top two bits of the first
      octet pick the kind, and a pointer is the other fourteen. */
  function ReadLabel(data: bytes, pos: nat): (r: Result<Label>)
    requires pos <= |data|
    ensures r.Ok? ==> pos + r.value.Len() <= |data|
    ensures r.Err? ==> r.error != OutputFull
    ensures r.Ok? && r.value.Text? ==> 0 < |r.value.octets| == data[pos] <= MAX_LABEL_LEN
    ensures r.Ok? && r.value.Pointer? ==> r.value.target <= POINTER_MASK
  {
    if pos == |data| then Err(Truncated) else
    var first := data[pos];
    if first < 0x40 then
      if first == 0 then Ok(Root)
      else if |data| - pos <= first then Err(Truncated)
      else Ok(Text(data[pos + 1..pos + 1 + first]))
    else if first >= 0xc0 then
      if |data| - pos < 2 then Err(Truncated)
      else Ok(Pointer(ReadU16(data, pos) - 0xc000))
    else if first == 0x41 || first == 0x7f then Err(Unsupported)
    else Err(Malformed)
  }

  /** What ends a run of literal labels. */
  datatype Tail = ToRoot | ToPointer(target: nat)

  /** A name where it sits: literal labels up to `litEnd`, then the root octet or
      a pointer. */
  datatype Segment = Segment(litEnd: nat, tail: Tail) {
    function End(): nat {
      if tail.ToRoot? then litEnd + 1 else litEnd + 2
    }
  }

  /** Where the name at `pos` ends, and how: `DName::try_from_bytes`. */
  function ReadSegment(data: bytes, pos: nat): (r: Result<Segment>)
    requires pos <= |data|
    ensures r.Ok? ==> pos <= r.value.litEnd && r.value.End() <= |data|
    ensures r.Err? ==> r.error != OutputFull
    ensures r.Ok? && r.value.tail.ToPointer? ==> r.value.tail.target <= POINTER_MASK
    decreases |data| - pos
  {
    var lbl :- ReadLabel(data, pos);
    match lbl
    case Text(s) => ReadSegment(data, pos + 1 + |s|)
    case Pointer(t) => Ok(Segment(pos, ToPointer(t)))
    case Root => Ok(Segment(pos, ToRoot))
  }

  /** The loop of `DName::try_from_bytes`. */
  method TryFromBytes(data: bytes) returns (r: Result<Segment>)
    ensures r == ReadSegment(data, 0)
  {
    var len := 0;
    while true
      invariant len <= |data|
      invariant ReadSegment(data, 0) == ReadSegment(data, len)
      decreases |data| - len
    {
      var lbl := ReadLabel(data, len);
      match lbl
      case Err(e) => return Err(e);
      case Ok(Text(s)) => len := len + 1 + |s|;
      case Ok(Pointer(t)) => return Ok(Segment(len, ToPointer(t)));
      case Ok(Root) => return Ok(Segment(len, ToRoot));
    }
  }

  /** The RFC 1035 section 2.3.4 limit, on octets that lack their root octet. */
  function CheckLabels(labels: bytes): (r: Result<bytes>) {
    if |labels| + 1 > MAX_NAME_LEN then Err(TooLong) else Ok(labels)
  }

  /** `unpack_internal`: `lit` is the literal octets of the name in hand, `tail`
      what ends it; the answer is the whole name's octets without the root. */
  function Unpack(msg: bytes, lit: bytes, tail: Tail, depth: nat, prev: nat): (r: Result<bytes>)
    decreases MAX_DEPTH + 1 - depth
  {
    if depth > MAX_DEPTH then Err(TooLong) else
    match tail
    case ToRoot => CheckLabels(lit)
    case ToPointer(t) =>
      if t >= |msg| then Err(Malformed)
      else if t >= prev then Err(Malformed)
      else
        var seg :- ReadSegment(msg, t);
        var rest :- Unpack(msg, msg[t..seg.litEnd], seg.tail, depth + 1, t);
        CheckLabels(lit + rest)
  }

  /** A decoded name and where the octets after it begin. */
  datatype Decoded = Decoded(wire: bytes, next: nat)

  /** `Name::from_wire_in`: the name at `data[pos..]`, pointers followed into
      `msg`. `data` need not be part of `msg`. */
  function DecodeName(data: bytes, pos: nat, msg: bytes): (r: Result<Decoded>)
    requires pos <= |data|
    ensures r.Ok? ==> pos < r.value.next <= |data|
  {
    var seg :- ReadSegment(data, pos);
    if seg.tail.ToRoot? then
      if seg.End() - pos > MAX_NAME_LEN then Err(TooLong)
      else Ok(Decoded(data[pos..seg.End()], seg.End()))
    else
      var labels :- Unpack(msg, data[pos..seg.litEnd], seg.tail, 0, USIZE_MAX);
      Ok(Decoded(labels + [0], seg.End()))
  }

  // ---- What a name in a message denotes, with no cap and no running target.

  /** The octets a name stands for, without the root octet, and how many pointers
      it goes through. */
  datatype Expansion = Expansion(labels: bytes, hops: nat)

  /** The name at `s` when every pointer leads strictly before the name it ends. */
  function Expand(msg: bytes, s: nat): (r: Option<Expansion>)
    requires s <= |msg|
    decreases s
  {
    match ReadSegment(msg, s)
    case Err(_) => None
    case Ok(seg) =>
      match seg.tail
      case ToRoot => Some(Expansion(msg[s..seg.litEnd], 0))
      case ToPointer(t) =>
        if t >= s then None else
        match Expand(msg, t)
        case None => None
        case Some(x) => Some(Expansion(msg[s..seg.litEnd] + x.labels, x.hops + 1))
  }

  /** The walk with its running `prev_target` and its depth is exactly `Expand`,
      cut at 50 hops and at 255 octets. */
  lemma {:induction false} UnpackIsExpand(msg: bytes, lit: bytes, t: nat, depth: nat, prev: nat)
    requires depth <= MAX_DEPTH
    ensures var r := Unpack(msg, lit, ToPointer(t), depth, prev);
            && (r.Ok? <==> && t < |msg| && t < prev && Expand(msg, t).Some?
                           && depth + 1 + Expand(msg, t).value.hops <= MAX_DEPTH
                           && |lit| + |Expand(msg, t).value.labels| + 1 <= MAX_NAME_LEN)
            && (r.Ok? ==> r.value == lit + Expand(msg, t).value.labels)
    decreases MAX_DEPTH - depth
  {
    if t < |msg| && t < prev {
      var seg := ReadSegment(msg, t);
      if seg.Ok? && depth < MAX_DEPTH && seg.value.tail.ToPointer? {
        UnpackIsExpand(msg, msg[t..seg.value.litEnd], seg.value.tail.target, depth + 1, t);
      }
    }
  }

  // ---- Segments read the same wherever the octets that hold them are copied.

  lemma LabelInSlice(data: bytes, pos: nat, i: nat, j: nat)
    requires i <= pos <= j <= |data|
    ensures var a, b := ReadLabel(data, pos), ReadLabel(data[i..j], pos - i);
            && (a.Ok? && pos + a.value.Len() <= j ==> b == a)
            && (b.Ok? ==> a == b)
  {
    var part := data[i..j];
    if pos < j {
      assert part[pos - i] == data[pos];
      var len := data[pos];
      if pos + 1 + len <= j {
        SliceOfSlice(data, i, j, pos - i + 1, pos - i + 1 + len);
      }
      if pos + 2 <= j {
        assert part[pos - i + 1] == data[pos + 1];
      }
    }
  }

  lemma {:induction false} SegmentInSlice(data: bytes, pos: nat, i: nat, j: nat)
    requires i <= pos <= |data|
    requires ReadSegment(data, pos).Ok? && ReadSegment(data, pos).value.End() <= j <= |data|
    ensures var seg := ReadSegment(data, pos).value;
            ReadSegment(data[i..j], pos - i) == Ok(Segment(seg.litEnd - i, seg.tail))
    decreases |data| - pos
  {
    hide ReadLabel;
    var part, lbl := data[i..j], ReadLabel(data, pos).value;
    LabelInSlice(data, pos, i, j);
    assert ReadLabel(part, pos - i) == Ok(lbl);
    if lbl.Text? {
      var n := pos + 1 + |lbl.octets|;
      assert ReadSegment(data, pos) == ReadSegment(data, n);
      SegmentInSlice(data, n, i, j);
      assert ReadSegment(part, pos - i) == ReadSegment(part, n - i);
    }
  }

  lemma {:induction false} SegmentOfSlice(data: bytes, pos: nat, i: nat, j: nat)
    requires i <= pos <= j <= |data|
    requires ReadSegment(data[i..j], pos - i).Ok?
    ensures var seg := ReadSegment(data[i..j], pos - i).value;
            ReadSegment(data, pos) == Ok(Segment(seg.litEnd + i, seg.tail))
    decreases j - pos
  {
    hide ReadLabel;
    LabelInSlice(data, pos, i, j);
    var lbl := ReadLabel(data, pos).value;
    if lbl.Text? {
      SegmentOfSlice(data, pos + 1 + |lbl.octets|, i, j);
    }
  }

  /** What has been written stays readable whatever is appended after it. */
  lemma {:induction false} ExpandExtends(msg: bytes, more: bytes, s: nat)
    requires s <= |msg| && msg <= more
    requires Expand(msg, s).Some?
    ensures Expand(more, s) == Expand(msg, s)
    ensures ReadSegment(more, s) == ReadSegment(msg, s)
    decreases s
  {
    assert more[0..|msg|] == msg;
    SegmentOfSlice(more, s, 0, |msg|);
    var seg := ReadSegment(msg, s).value;
    assert more[s..seg.litEnd] == msg[s..seg.litEnd];
    if seg.tail.ToPointer? {
      ExpandExtends(msg, more, seg.tail.target);
    }
  }

  // ---- Every decoded name is a name.

  /** Literal labels in front of a name make a name, with one label each. */
  lemma {:induction false} LiteralThenName(data: bytes, pos: nat, n: bytes)
    requires pos <= |data| && ReadSegment(data, pos).Ok? && NameAt(n, 0)
    ensures NameAt(data[pos..ReadSegment(data, pos).value.litEnd] + n, 0)
    decreases |data| - pos
  {
    hide ReadLabel;
    var end := ReadSegment(data, pos).value.litEnd;
    var lbl := ReadLabel(data, pos).value;
    if lbl.Text? {
      var len := |lbl.octets|;
      LiteralThenName(data, pos + 1 + len, n);
      LabelInFront(data, pos, pos + 1 + len, end, n);
    } else {
      assert data[pos..end] + n == n;
    }
  }

  lemma LabelInFront(data: bytes, pos: nat, next: nat, end: nat, n: bytes)
    requires pos < next <= end <= |data| && next == pos + 1 + data[pos] && 0 < data[pos] <= MAX_LABEL_LEN
    requires NameAt(data[next..end] + n, 0)
    ensures NameAt(data[pos..end] + n, 0)
  {
    var x := data[pos..end] + n;
    assert x[0] == data[pos];
    assert x[next - pos..] == data[next..end] + n by {
      assert data[pos..end][next - pos..] == data[next..end];
    }
    NameAtShift(x, next - pos, next - pos);
  }

  lemma {:induction false} ExpandIsName(msg: bytes, s: nat)
    requires s <= |msg| && Expand(msg, s).Some?
    ensures NameAt(Expand(msg, s).value.labels + [0], 0)
    decreases s
  {
    var seg := ReadSegment(msg, s).value;
    match seg.tail
    case ToRoot => LiteralThenName(msg, s, [0]);
    case ToPointer(t) =>
      ExpandIsName(msg, t);
      var rest := Expand(msg, t).value.labels;
      LiteralThenName(msg, s, rest + [0]);
      assert msg[s..seg.litEnd] + (rest + [0]) == Expand(msg, s).value.labels + [0];
  }

  /** When the decoder accepts the name at `pos`, said without its recursion:
      every segment parses, each target after the first precedes the one before
      it, and neither cap is passed. */
  ghost predicate Acceptable(data: bytes, pos: nat, msg: bytes)
    requires pos <= |data|
  {
    var seg := ReadSegment(data, pos);
    && seg.Ok?
    && match seg.value.tail
       case ToRoot => seg.value.End() - pos <= 255
       case ToPointer(t) =>
         && t < |msg| && Expand(msg, t).Some?
         && 1 + Expand(msg, t).value.hops <= 50
         && seg.value.litEnd - pos + |Expand(msg, t).value.labels| + 1 <= 255
  }

  /** The decoder succeeds exactly on acceptable names, answers the octets they
      stand for, and only ever answers a name `from_wire_slice` accepts. */
  lemma DecodeNameExact(data: bytes, pos: nat, msg: bytes)
    requires pos <= |data|
    ensures DecodeName(data, pos, msg).Ok? <==> Acceptable(data, pos, msg)
    ensures Acceptable(data, pos, msg) ==>
              var seg, d := ReadSegment(data, pos).value, DecodeName(data, pos, msg).value;
              && d.next == seg.End() && IsName(d.wire)
              && d.wire == data[pos..seg.litEnd]
                           + (if seg.tail.ToRoot? then [] else Expand(msg, seg.tail.target).value.labels)
                           + [0]
  {
    var seg := ReadSegment(data, pos);
    if seg.Ok? {
      match seg.value.tail
      case ToRoot => RunToRoot(data, pos);
      case ToPointer(t) =>
        var lit := data[pos..seg.value.litEnd];
        UnpackIsExpand(msg, lit, t, 0, USIZE_MAX);
        if Acceptable(data, pos, msg) {
          ExpandIsName(msg, t);
          var rest := Expand(msg, t).value.labels;
          LiteralThenName(data, pos, rest + [0]);
          assert lit + (rest + [0]) == lit + rest + [0];
        }
    }
  }

  lemma {:induction false} RootOctet(data: bytes, pos: nat)
    requires pos <= |data| && ReadSegment(data, pos).Ok?
    requires ReadSegment(data, pos).value.tail.ToRoot?
    ensures data[ReadSegment(data, pos).value.litEnd] == 0
    decreases |data| - pos
  {
    var lbl := ReadLabel(data, pos).value;
    if lbl.Text? {
      RootOctet(data, pos + 1 + |lbl.octets|);
    }
  }

  /** `Name::from_wire`: no message to resolve a pointer against. */
  function DecodePlain(data: bytes, pos: nat): (r: Result<Decoded>)
    requires pos <= |data|
    ensures r.Ok? ==> pos < r.value.next <= |data| && IsName(r.value.wire)
    ensures r.Ok? ==> data[pos..r.value.next] == r.value.wire
    ensures r.Err? ==> r.error != OutputFull
  {
    var seg :- ReadSegment(data, pos);
    if seg.tail.ToPointer? then Err(Malformed)
    else if seg.End() - pos > MAX_NAME_LEN then Err(TooLong)
    else
      RunToRoot(data, pos);
      Ok(Decoded(data[pos..seg.End()], seg.End()))
  }

  lemma RunToRoot(data: bytes, pos: nat)
    requires pos <= |data| && ReadSegment(data, pos).Ok?
    requires ReadSegment(data, pos).value.tail.ToRoot?
    ensures var seg := ReadSegment(data, pos).value;
            NameAt(data[pos..seg.End()], 0) && data[pos..seg.End()] == data[pos..seg.litEnd] + [0]
  {
    var seg := ReadSegment(data, pos).value;
    RootOctet(data, pos);
    LiteralThenName(data, pos, [0]);
    assert data[pos..seg.End()] == data[pos..seg.litEnd] + [0];
  }

  /** A name that ends in the root octet where it stands decodes the same against
      every message. */
  lemma DecodePlainIsDecode(data: bytes, pos: nat, msg: bytes)
    requires pos <= |data| && DecodePlain(data, pos).Ok?
    ensures DecodeName(data, pos, msg) == DecodePlain(data, pos)
  {
  }

  /** Reading a stored name back: `DecodePlain` undoes writing `w` out whole. */
  lemma {:induction false} SegmentOfName(data: bytes, pos: nat, w: bytes, k: nat)
    requires NameAt(w, k)
    requires pos + |w| <= |data| && data[pos..pos + |w|] == w
    ensures ReadSegment(data, pos + k) == Ok(Segment(pos + |w| - 1, ToRoot))
    decreases |w| - k
  {
    assert data[pos + k] == data[pos..pos + |w|][k] == w[k];
    if w[k] != 0 {
      SegmentOfName(data, pos, w, k + 1 + w[k]);
    }
  }

  lemma DecodeStoredName(data: bytes, pos: nat, w: bytes)
    requires IsName(w)
    requires pos + |w| <= |data| && data[pos..pos + |w|] == w
    ensures DecodePlain(data, pos) == Ok(Decoded(w, pos + |w|))
  {
    SegmentOfName(data, pos, w, 0);
  }

  lemma StoredInside(pre: bytes, w: bytes, post: bytes)
    requires IsName(w)
    ensures DecodePlain(pre + w + post, |pre|) == Ok(Decoded(w, |pre| + |w|))
  {
    var data := pre + w + post;
    assert data[|pre|..|pre| + |w|] == w;
    DecodeStoredName(data, |pre|, w);
  }

  // ---- The decoder as written: labels pushed onto a vector, hop by hop.

  /** A run of octets, one label longer. */
  lemma LabelStep(msg: bytes, pos: nat, at: nat)
    requires pos <= at <= |msg| && ReadLabel(msg, at).Ok? && ReadLabel(msg, at).value.Text?
    ensures var s := ReadLabel(msg, at).value.octets;
            msg[pos..at + 1 + |s|] == msg[pos..at] + ([|s|] + s)
  {
    var s := ReadLabel(msg, at).value.octets;
    assert msg[at] == |s| && msg[at + 1..at + 1 + |s|] == s;
    assert msg[pos..at + 1 + |s|] == msg[pos..at] + ([msg[at]] + msg[at + 1..at + 1 + |s|]);
  }

  /** A segment, one label on. */
  lemma SegmentStep(msg: bytes, at: nat)
    requires at <= |msg| && ReadSegment(msg, at).Ok?
    ensures ReadLabel(msg, at).Ok?
    ensures var l, seg := ReadLabel(msg, at).value, ReadSegment(msg, at).value;
            if l.Text? then
              at + 1 + |l.octets| <= seg.litEnd <= |msg| && ReadSegment(msg, at + 1 + |l.octets|) == Ok(seg)
            else seg.litEnd == at
  {
    hide ReadLabel;
  }

  lemma NoLabels(msg: bytes, pos: nat)
    requires pos <= |msg|
    ensures Joined([]) == msg[pos..pos]
  {
  }

  /** The loop of `DName::labels` up to the octet that ends the name. */
  method CollectLabels(msg: bytes, pos: nat) returns (labels: seq<bytes>)
    requires pos <= |msg| && ReadSegment(msg, pos).Ok?
    ensures GoodLabels(labels) && Joined(labels) == msg[pos..ReadSegment(msg, pos).value.litEnd]
  {
    hide ReadLabel, Joined, ReadSegment;
    ghost var end := ReadSegment(msg, pos).value.litEnd;
    labels := [];
    var at := pos;
    NoLabels(msg, pos);
    SegmentStep(msg, pos);
    var next := ReadLabel(msg, pos).value;
    while next.Text?
      invariant pos <= at <= end <= |msg| && ReadLabel(msg, at) == Ok(next) && (!next.Text? ==> at == end)
      invariant ReadSegment(msg, at).Ok? && ReadSegment(msg, at).value.litEnd == end
      invariant GoodLabels(labels) && Joined(labels) == msg[pos..at]
      decreases end - at
    {
      SegmentStep(msg, at);
      labels := PushText(labels, next.octets, msg, pos, at);
      at := at + 1 + |next.octets|;
      SegmentStep(msg, at);
      next := ReadLabel(msg, at).value;
    }
  }

  /** One label onto the list, as its octets are onto the segment's. */
  method PushText(labels: seq<bytes>, s: bytes, ghost msg: bytes, ghost pos: nat, ghost at: nat)
      returns (more: seq<bytes>)
    requires pos <= at <= |msg| && ReadLabel(msg, at) == Ok(Text(s))
    requires GoodLabels(labels) && Joined(labels) == msg[pos..at]
    ensures at + 1 + |s| <= |msg| && GoodLabels(more) && Joined(more) == msg[pos..at + 1 + |s|]
  {
    hide ReadLabel, Joined;
    LabelStep(msg, pos, at);
    JoinedPush(labels, s);
    more := labels + [s];
  }

  /** `unpack_internal`, on the name at `pos`. */
  method UnpackInternal(msg: bytes, data: bytes, pos: nat, depth: nat, prev: nat)
    returns (r: Result<seq<bytes>>)
    requires pos <= |data| && ReadSegment(data, pos).Ok?
    ensures var seg := ReadSegment(data, pos).value;
            var u := Unpack(msg, data[pos..seg.litEnd], seg.tail, depth, prev);
            match u
            case Err(e) => r == Err(e)
            case Ok(octets) => r.Ok? && GoodLabels(r.value) && Joined(r.value) == octets
    decreases MAX_DEPTH + 1 - depth
  {
    if depth > MAX_DEPTH { return Err(TooLong); }
    var seg := ReadSegment(data, pos).value;
    var output := CollectLabels(data, pos);
    if seg.tail.ToPointer? {
      var offset := seg.tail.target;
      if offset >= |msg| { return Err(Malformed); }
      if offset >= prev { return Err(Malformed); }
      var target := ReadSegment(msg, offset);
      if target.Err? { return Err(target.error); }
      var unpacked := UnpackInternal(msg, msg, offset, depth + 1, offset);
      if unpacked.Err? { return Err(unpacked.error); }
      JoinedAppend(output, unpacked.value);
      output := output + unpacked.value;
    }
    if |Joined(output)| + 1 > MAX_NAME_LEN { return Err(TooLong); }
    r := Ok(output);
  }
}
