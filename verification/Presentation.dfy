/** Names as text (RFC 1035 section 5.1): printing with escapes, reading them back,
    and resolving text against an origin. Text is its octets. */
module Presentation {
  import opened Octets
  import opened Names
  import opened NameTree

  const DOT: byte := 46
  const BACKSLASH: byte := 92
  const AT: byte := 64

  predicate IsDigit(b: byte) {
    48 <= b <= 57
  }

  // ---- Reading

  /** An octet and how much text spelled it. */
  datatype Token = Token(octet: byte, used: nat)

  /** `decode_escape`, on text that begins with the backslash. */
  function DecodeEscape(s: bytes): (r: Result<Token>)
    requires s != []
    ensures r.Ok? ==> 0 < r.value.used <= |s|
  {
    if |s| < 2 then Err(Malformed)
    else if !IsDigit(s[1]) then Ok(Token(s[1], 2))
    else if |s| < 4 || !IsDigit(s[2]) || !IsDigit(s[3]) then Err(Malformed)
    else
      var value := (s[1] as int - 48) * 100 + (s[2] as int - 48) * 10 + (s[3] as int - 48);
      if value > 255 then Err(Malformed) else Ok(Token(value, 4))
  }

  function NextOctet(s: bytes): (r: Result<Token>)
    requires s != []
    ensures r.Ok? ==> 0 < r.value.used <= |s|
  {
    if s[0] == BACKSLASH then DecodeEscape(s) else Ok(Token(s[0], 1))
  }

  /** Where the next octet goes: past the finished labels and the open one. */
  function At(done: bytes, open: Option<bytes>): nat {
    |done| + if open.Some? then 1 + |open.value| else 0
  }

  /** One octet onto the open label, or a new one: a buffer of `cap` octets may run
      out, at the reserved length octet or at the octet itself. */
  function Grow(done: bytes, open: Option<bytes>, octet: byte, cap: nat): (r: Result<bytes>) {
    var reserved := if open.None? then 1 else 0;
    if At(done, open) + reserved >= cap then Err(TooLong)
    else Ok((if open.Some? then open.value else []) + [octet])
  }

  /** The open label closed: its length octet filled in. */
  function Close(done: bytes, open: bytes): (r: Result<bytes>) {
    if |open| > MAX_LABEL_LEN then Err(TooLong) else Ok(done + ([|open|] + open))
  }

  function Finish(done: bytes, open: Option<bytes>, cap: nat): (r: Result<bytes>)
    ensures r.Ok? ==> r.value != []
  {
    var w :- if open.Some? then Close(done, open.value) else Ok(done);
    if |w| >= cap || |w| + 1 > MAX_NAME_LEN then Err(TooLong) else Ok(w + [0])
  }

  /** The loop of `presentation_wire_in`: `done` is the finished labels' octets,
      `open` the label being read. */
  function Scan(rest: bytes, done: bytes, open: Option<bytes>, cap: nat): (r: Result<bytes>)
    ensures r.Ok? ==> r.value != []
    decreases |rest|
  {
    if rest == [] then Finish(done, open, cap)
    else if rest[0] == DOT then
      if open.None? then Err(Malformed)
      else
        var closed :- Close(done, open.value);
        Scan(rest[1..], closed, None, cap)
    else
      var t :- NextOctet(rest);
      var grown :- Grow(done, open, t.octet, cap);
      Scan(rest[t.used..], done, Some(grown), cap)
  }

  /** `presentation_wire_in`, into a buffer of `cap` octets. */
  function ReadName(text: bytes, cap: nat): (r: Result<bytes>)
    ensures r.Ok? ==> r.value != []
  {
    if text == [] || text == [DOT] then Ok([0]) else Scan(text, [], None, cap)
  }

  // ---- What is read is a name

  lemma {:induction false} ScanGivesLabels(rest: bytes, labels: seq<bytes>, open: Option<bytes>, cap: nat)
      returns (all: seq<bytes>)
    requires GoodLabels(labels) && (open.Some? ==> |open.value| > 0)
    requires Scan(rest, Joined(labels), open, cap).Ok?
    ensures GoodLabels(all) && Scan(rest, Joined(labels), open, cap).value == ToWire(all)
    decreases |rest|
  {
    if rest == [] {
      if open.Some? {
        JoinedPush(labels, open.value);
        all := labels + [open.value];
      } else {
        all := labels;
      }
    } else if rest[0] == DOT {
      JoinedPush(labels, open.value);
      all := ScanGivesLabels(rest[1..], labels + [open.value], None, cap);
    } else {
      var t := NextOctet(rest).value;
      var grown := Grow(Joined(labels), open, t.octet, cap).value;
      all := ScanGivesLabels(rest[t.used..], labels, Some(grown), cap);
    }
  }

  /** Every text that is accepted spells a name. */
  lemma AcceptedIsName(text: bytes, cap: nat)
    requires ReadName(text, cap).Ok?
    ensures IsName(ReadName(text, cap).value)
  {
    if text != [] && text != [DOT] {
      assert Joined([]) == [];
      var labels := ScanGivesLabels(text, [], None, cap);
      LabelsBack(labels);
      ScanLonger(text, [], None, cap);
    }
  }

  // ---- What is read, without the buffer

  /** A separator, or an octet of a label however it was spelled. */
  datatype Mark = Separates | Holds(octet: byte)

  /** A text as marks (RFC 1035 section 5.1): `.` separates, a backslash before three
      digits is the octet of that number and before anything else that very octet, and
      all else is itself. */
  function Marks(text: bytes): (r: Option<seq<Mark>>)
    decreases |text|
  {
    if text == [] then Some([])
    else if text[0] == 46 then Marked(Separates, Marks(text[1..]))
    else if text[0] != 92 then Marked(Holds(text[0]), Marks(text[1..]))
    else if |text| < 2 then None
    else if !(48 <= text[1] <= 57) then Marked(Holds(text[1]), Marks(text[2..]))
    else if |text| < 4 || !(48 <= text[2] <= 57) || !(48 <= text[3] <= 57) then None
    else
      var value := (text[1] as int - 48) * 100 + (text[2] as int - 48) * 10 + (text[3] as int - 48);
      if value > 255 then None else Marked(Holds(value), Marks(text[4..]))
  }

  function Marked(m: Mark, rest: Option<seq<Mark>>): Option<seq<Mark>> {
    if rest.None? then None else Some([m] + rest.value)
  }

  /** The labels between separators, none of them empty; the last may go without one. */
  function CutLabels(marks: seq<Mark>, done: seq<bytes>, open: bytes): (r: Option<seq<bytes>>) {
    if marks == [] then Some(if open == [] then done else done + [open])
    else match marks[0]
      case Separates => if open == [] then None else CutLabels(marks[1..], done + [open], [])
      case Holds(b) => CutLabels(marks[1..], done, open + [b])
  }

  /** The name a text stands for: 63 octets to a label and 255 in all. */
  function NameSpelled(marks: seq<Mark>, done: seq<bytes>, open: bytes): (r: Option<bytes>) {
    var labels := CutLabels(marks, done, open);
    if labels.None? || (exists i :: 0 <= i < |labels.value| && !(1 <= |labels.value[i]| <= 63)) then None
    else if |ToWire(labels.value)| > 255 then None
    else Some(ToWire(labels.value))
  }

  lemma {:induction false} CutKeeps(marks: seq<Mark>, done: seq<bytes>, open: bytes)
    requires CutLabels(marks, done, open).Some?
    ensures var all := CutLabels(marks, done, open).value;
            done <= all && (open != [] ==> |done| < |all| && open <= all[|done|])
    decreases |marks|
  {
    if marks != [] {
      match marks[0]
      case Separates =>
        CutKeeps(marks[1..], done + [open], []);
        var all := CutLabels(marks, done, open).value;
        assert all[|done|] == (done + [open])[|done|] == open;
      case Holds(b) =>
        CutKeeps(marks[1..], done, open + [b]);
    }
  }

  /** A label too long, or labels too many, stay so whatever follows. */
  lemma NoRoomLeft(marks: seq<Mark>, done: seq<bytes>, open: bytes)
    requires GoodLabels(done) && open != [] && (|open| > 63 || |Joined(done)| + 1 + |open| + 1 > 255)
    ensures NameSpelled(marks, done, open).None?
  {
    hide CutLabels;
    var labels := CutLabels(marks, done, open);
    if labels.Some? {
      CutKeeps(marks, done, open);
      var all := labels.value;
      if GoodLabels(all) {
        assert |open| <= |all[|done|]| <= 63;
        JoinedParts(all, |done|);
        assert all[..|done|] == done;
      } else {
        var i :| 0 <= i < |all| && !(0 < |all[i]| <= MAX_LABEL_LEN);
        assert !(1 <= |all[i]| <= 63);
      }
    }
  }

  lemma JoinedParts(all: seq<bytes>, k: nat)
    requires GoodLabels(all) && k < |all|
    ensures GoodLabels(all[..k]) && |Joined(all)| >= |Joined(all[..k])| + 1 + |all[k]|
  {
    var rest := all[k..];
    assert all == all[..k] + rest;
    JoinedAppend(all[..k], rest);
    assert |Joined(rest)| >= 1 + |rest[0]|;
  }

  ghost predicate ReadsAs(r: Result<bytes>, meant: Option<bytes>) {
    if meant.Some? then r == Ok(meant.value) else r.Err?
  }

  /** Reading only ever adds octets. */
  lemma {:induction false} ScanLonger(rest: bytes, done: bytes, open: Option<bytes>, cap: nat)
    requires Scan(rest, done, open, cap).Ok?
    ensures At(done, open) < |Scan(rest, done, open, cap).value| <= 255
    decreases |rest|
  {
    if rest != [] {
      if rest[0] == DOT {
        ScanLonger(rest[1..], Close(done, open.value).value, None, cap);
      } else {
        var t := NextOctet(rest).value;
        ScanLonger(rest[t.used..], done, Some(Grow(done, open, t.octet, cap).value), cap);
      }
    }
  }

  function Opened(open: bytes): Option<bytes> {
    if open == [] then None else Some(open)
  }

  /** What the marks of a text, if it has any, stand for after what has been read. */
  function Meant(marks: Option<seq<Mark>>, done: seq<bytes>, open: bytes): Option<bytes> {
    if marks.None? then None else NameSpelled(marks.value, done, open)
  }

  lemma {:induction false} ScanExact(rest: bytes, labels: seq<bytes>, open: bytes, cap: nat)
    requires GoodLabels(labels) && cap >= 255 && At(Joined(labels), Opened(open)) < 255
    ensures ReadsAs(Scan(rest, Joined(labels), Opened(open), cap), Meant(Marks(rest), labels, open))
    decreases |rest|
  {
    hide NameSpelled, Joined;
    if rest == [] {
      EndExact(labels, open, cap);
    } else if rest[0] == DOT {
      SeparatorExact(labels, open, Marks(rest[1..]));
      if 0 < |open| <= 63 {
        JoinedPush(labels, open);
        ScanExact(rest[1..], labels + [open], [], cap);
      }
    } else {
      TokenMarks(rest);
      hide Marks, NextOctet;
      var t := NextOctet(rest);
      if t.Ok? {
        OctetStep(rest, labels, open, t.value, cap);
        if |Joined(labels)| + 1 + |open| + 1 < 255 {
          ScanExact(rest[t.value.used..], labels, open + [t.value.octet], cap);
        }
      }
    }
  }

  /** One octet more: it goes onto the open label, unless there can be no room for it. */
  lemma OctetStep(rest: bytes, labels: seq<bytes>, open: bytes, t: Token, cap: nat)
    requires rest != [] && rest[0] != DOT && NextOctet(rest) == Ok(t)
    requires GoodLabels(labels) && cap >= 255 && At(Joined(labels), Opened(open)) < 255
    ensures var done, grown, more := Joined(labels), open + [t.octet], Marks(rest[t.used..]);
            && Meant(Marked(Holds(t.octet), more), labels, open) == Meant(more, labels, grown)
            && if |done| + 1 + |grown| < 255
               then Scan(rest, done, Opened(open), cap) == Scan(rest[t.used..], done, Opened(grown), cap)
               else Scan(rest, done, Opened(open), cap).Err? && Meant(more, labels, grown).None?
  {
    hide NextOctet, Joined;
    var done, grown, more := Joined(labels), open + [t.octet], Marks(rest[t.used..]);
    hide Marks;
    if more.Some? {
      assert ([Holds(t.octet)] + more.value)[1..] == more.value;
      if |done| + 1 + |grown| >= 255 {
        NoRoomLeft(more.value, labels, grown);
      }
    }
    if |done| + 1 + |grown| >= 255 && Scan(rest, done, Opened(open), cap).Ok? {
      ScanLonger(rest[t.used..], done, Opened(grown), cap);
    }
  }

  lemma EndExact(labels: seq<bytes>, open: bytes, cap: nat)
    requires GoodLabels(labels) && cap >= 255 && At(Joined(labels), Opened(open)) < 255
    ensures ReadsAs(Finish(Joined(labels), Opened(open), cap), NameSpelled([], labels, open))
  {
    if 0 < |open| <= 63 {
      JoinedPush(labels, open);
    } else if open != [] {
      assert (labels + [open])[|labels|] == open;
    }
  }

  lemma SeparatorExact(labels: seq<bytes>, open: bytes, rest: Option<seq<Mark>>)
    requires GoodLabels(labels)
    ensures Meant(Marked(Separates, rest), labels, open)
            == if open == [] || |open| > 63 then None else Meant(rest, labels + [open], [])
  {
    if rest.Some? {
      var marks := [Separates] + rest.value;
      assert marks[1..] == rest.value;
      if |open| > 63 {
        NoRoomLeft(marks, labels, open);
      }
    }
  }

  /** The next token, as the marks have it. */
  lemma TokenMarks(rest: bytes)
    requires rest != [] && rest[0] != 46
    ensures NextOctet(rest).Err? ==> Marks(rest).None?
    ensures NextOctet(rest).Ok? ==>
              Marks(rest) == Marked(Holds(NextOctet(rest).value.octet), Marks(rest[NextOctet(rest).value.used..]))
  {
  }

  /** Reading is exact: a text is accepted exactly when its marks cut into labels of 1 to
      63 octets that make 255 at most, and it gives those; nothing and `.` are the root. */
  lemma ReadExact(text: bytes, cap: nat)
    requires cap >= 255
    ensures ReadsAs(ReadName(text, cap), if text == [] || text == [46] then Some([0]) else Meant(Marks(text), [], []))
  {
    if text != [] && text != [46] {
      assert Joined([]) == [];
      ScanExact(text, [], [], cap);
    }
  }

  // ---- Printing

  /** What a zone file reads as syntax: . \\ ; " ( ) @ $ */
  predicate IsSpecial(b: byte) {
    b == DOT || b == BACKSLASH || b == 59 || b == 34 || b == 40 || b == 41 || b == AT || b == 36
  }

  function EscapeOctet(b: byte): (r: bytes)
    ensures |r| > 0
  {
    if IsSpecial(b) then [BACKSLASH, b]
    else if 0x21 <= b <= 0x7e then [b]
    else [BACKSLASH, 48 + b / 100, 48 + b / 10 % 10, 48 + b % 10]
  }

  function EscapeLabel(octets: bytes): (r: bytes) {
    if octets == [] then [] else EscapeOctet(octets[0]) + EscapeLabel(octets[1..])
  }

  function Dotted(labels: seq<bytes>): (r: bytes) {
    if labels == [] then [] else EscapeLabel(labels[0]) + [DOT] + Dotted(labels[1..])
  }

  /** `to_presentation`. */
  function ToText(w: bytes): (r: bytes)
    requires NameAt(w, 0)
  {
    if w[0] == 0 then [DOT] else Dotted(Labels(w))
  }

  /** `to_presentation` and `escape_label` as they loop. */
  method Print(w: bytes) returns (text: bytes)
    requires NameAt(w, 0)
    ensures text == ToText(w)
  {
    if w[0] == 0 {
      return [DOT];
    }
    text := [];
    var rest := w;
    assert text + Dotted(Labels(w)) == Dotted(Labels(w));
    while rest[0] != 0
      invariant NameAt(rest, 0) && text + Dotted(Labels(rest)) == Dotted(Labels(w))
      decreases |rest|
    {
      Split(rest);
      var first := rest[1..1 + rest[0]];
      DottedFirst(first, Labels(Parent(rest)), text);
      var escaped := Escape(first);
      text := text + escaped + [DOT];
      rest := Parent(rest);
    }
    assert text + [] == text;
  }

  lemma DottedFirst(first: bytes, rest: seq<bytes>, text: bytes)
    ensures text + Dotted([first] + rest) == text + EscapeLabel(first) + [DOT] + Dotted(rest)
  {
    assert ([first] + rest)[1..] == rest;
    assert text + (EscapeLabel(first) + [DOT] + Dotted(rest)) == text + EscapeLabel(first) + [DOT] + Dotted(rest);
  }

  method Escape(octets: bytes) returns (text: bytes)
    ensures text == EscapeLabel(octets)
  {
    hide EscapeOctet;
    text := [];
    var i := 0;
    assert octets[0..] == octets;
    while i < |octets|
      invariant i <= |octets| && text + EscapeLabel(octets[i..]) == EscapeLabel(octets)
    {
      assert octets[i..][1..] == octets[i + 1..];
      Assoc(text, EscapeOctet(octets[i]), EscapeLabel(octets[i + 1..]));
      text := text + EscapeOctet(octets[i]);
      i := i + 1;
    }
    assert octets[i..] == [] && text + [] == text;
  }

  // ---- Printing, then reading

  /** An escape is one token, for the octet it stands for; it does not begin with a
      separator. */
  lemma OctetBack(b: byte, rest: bytes)
    ensures (EscapeOctet(b) + rest)[0] != DOT
    ensures NextOctet(EscapeOctet(b) + rest) == Ok(Token(b, |EscapeOctet(b)|))
    ensures (EscapeOctet(b) + rest)[|EscapeOctet(b)|..] == rest
  {
    var e := EscapeOctet(b);
    var s := e + rest;
    forall i | 0 <= i < |e| ensures s[i] == e[i] {
    }
    assert b / 100 * 100 + b / 10 % 10 * 10 + b % 10 == b by { ThreeDigits(b); }
  }

  lemma ThreeDigits(b: byte)
    ensures b / 100 * 100 + b / 10 % 10 * 10 + b % 10 == b
  {
    assert b / 10 / 10 == b / 100;
  }

  /** Reading the rest of an open label. */
  lemma {:induction false} LabelBack(octets: bytes, rest: bytes, done: bytes, open: bytes, cap: nat)
    requires |done| + 1 + |open| + |octets| <= cap
    ensures Scan(EscapeLabel(octets) + rest, done, Some(open), cap) == Scan(rest, done, Some(open + octets), cap)
    decreases |octets|
  {
    if octets == [] {
      assert EscapeLabel(octets) + rest == rest && open + octets == open;
    } else {
      var b, more := octets[0], octets[1..];
      var tail := EscapeLabel(more) + rest;
      Assoc(EscapeOctet(b), EscapeLabel(more), rest);
      OctetBack(b, tail);
      assert open + [b] + more == open + octets;
      LabelBack(more, rest, done, open + [b], cap);
      hide EscapeOctet, NextOctet, EscapeLabel;
      assert Scan(EscapeOctet(b) + tail, done, Some(open), cap) == Scan(tail, done, Some(open + [b]), cap);
    }
  }

  /** Reading a whole label and its separator. */
  lemma DottedLabelBack(label_: bytes, rest: bytes, done: bytes, cap: nat)
    requires 0 < |label_| <= MAX_LABEL_LEN && |done| + 1 + |label_| <= cap
    ensures Scan(EscapeLabel(label_) + [DOT] + rest, done, None, cap)
            == Scan(rest, done + ([|label_|] + label_), None, cap)
  {
    var b, more := label_[0], label_[1..];
    var tail := EscapeLabel(more) + ([DOT] + rest);
    assert EscapeLabel(label_) + [DOT] + rest == EscapeOctet(b) + tail;
    OctetBack(b, tail);
    assert [b] + more == label_;
    LabelBack(more, [DOT] + rest, done, [b], cap);
    hide EscapeOctet, NextOctet, EscapeLabel;
    assert [] + [b] == [b];
    assert Scan(EscapeOctet(b) + tail, done, None, cap) == Scan(tail, done, Some([b]), cap);
    assert ([DOT] + rest)[1..] == rest;
    assert Scan([DOT] + rest, done, Some(label_), cap) == Scan(rest, done + ([|label_|] + label_), None, cap);
  }

  lemma {:induction false} DottedThen(labels: seq<bytes>, rest: bytes, done: bytes, cap: nat)
    requires GoodLabels(labels) && |done| + |Joined(labels)| < cap
    ensures Scan(Dotted(labels) + rest, done, None, cap) == Scan(rest, done + Joined(labels), None, cap)
    decreases |labels|
  {
    if labels == [] {
      assert done + Joined(labels) == done && Dotted(labels) + rest == rest;
    } else {
      var first, more := labels[0], labels[1..];
      var head: bytes := [|first|] + first;
      Assoc(EscapeLabel(first) + [DOT], Dotted(more), rest);
      Assoc(done, head, Joined(more));
      hide Scan, EscapeLabel;
      DottedLabelBack(first, Dotted(more) + rest, done, cap);
      DottedThen(more, rest, done + head, cap);
    }
  }

  lemma DottedBack(labels: seq<bytes>, cap: nat)
    requires GoodLabels(labels) && |Joined(labels)| < cap && |Joined(labels)| < MAX_NAME_LEN
    ensures Scan(Dotted(labels), [], None, cap) == Ok(ToWire(labels))
  {
    DottedThen(labels, [], [], cap);
    assert Dotted(labels) + [] == Dotted(labels) && [] + Joined(labels) == Joined(labels);
  }

  /** Printing then reading any name restores its exact octets. */
  lemma PrintedReads(w: bytes, cap: nat)
    requires IsName(w) && cap >= MAX_NAME_LEN
    ensures ReadName(ToText(w), cap) == Ok(w)
  {
    if w[0] == 0 {
      assert w == [0];
    } else {
      WireBack(w);
      var labels := Labels(w);
      Split(w);
      hide NameAt, Labels, Scan, Dotted, Joined;
      DottedBack(labels, cap);
      DottedLong(labels);
    }
  }

  lemma DottedLong(labels: seq<bytes>)
    requires labels != [] && labels[0] != []
    ensures |Dotted(labels)| >= 2 && Dotted(labels)[|Dotted(labels)| - 1] == DOT
    ensures Dotted(labels)[0] != DOT
  {
    DottedEnds(labels);
    OctetBack(labels[0][0], EscapeLabel(labels[0][1..]) + [DOT] + Dotted(labels[1..]));
    var e := EscapeOctet(labels[0][0]);
    assert Dotted(labels)[0] == e[0];
  }

  lemma {:induction false} DottedEnds(labels: seq<bytes>)
    requires labels != []
    ensures |Dotted(labels)| > 0 && Dotted(labels)[|Dotted(labels)| - 1] == DOT
    decreases |labels|
  {
    if |labels| > 1 {
      DottedEnds(labels[1..]);
    }
  }

  // ---- What a zone file sees of a printed name

  /** An octet that means only itself in a zone file: visible, and none of
      `"`, `$`, `(`, `)`, `.`, `;`, `@`, `\\`. */
  predicate IsPlain(b: byte) {
    0x21 <= b <= 0x7e && b !in {34, 36, 40, 41, 46, 59, 64, 92}
  }

  /** The octets of a text that no backslash covers: it covers three digits, or one
      octet of another kind. */
  function Bare(t: bytes): (r: bytes)
    decreases |t|
  {
    if t == [] then []
    else if t[0] != 92 then [t[0]] + Bare(t[1..])
    else
      var covered := if |t| > 1 && 48 <= t[1] <= 57 then 4 else 2;
      if |t| <= covered then [] else Bare(t[covered..])
  }

  function PlainOf(octets: bytes): (r: bytes) {
    if octets == [] then []
    else (if IsPlain(octets[0]) then [octets[0]] else []) + PlainOf(octets[1..])
  }

  /** The plain octets of each label, and a dot after it. */
  function PlainDotted(labels: seq<bytes>): (r: bytes) {
    if labels == [] then [] else PlainOf(labels[0]) + [46] + PlainDotted(labels[1..])
  }

  lemma BareOctet(b: byte, rest: bytes)
    ensures Bare(EscapeOctet(b) + rest) == (if IsPlain(b) then [b] else []) + Bare(rest)
  {
    var e := EscapeOctet(b);
    var s := e + rest;
    forall i | 0 <= i < |e| ensures s[i] == e[i] {
    }
    assert s[|e|..] == rest;
  }

  lemma {:induction false} BareLabel(octets: bytes, rest: bytes)
    ensures Bare(EscapeLabel(octets) + rest) == PlainOf(octets) + Bare(rest)
    decreases |octets|
  {
    if octets == [] {
      assert EscapeLabel(octets) + rest == rest && PlainOf(octets) + Bare(rest) == Bare(rest);
    } else {
      var b, more := octets[0], octets[1..];
      Assoc(EscapeOctet(b), EscapeLabel(more), rest);
      hide Bare, EscapeOctet;
      BareOctet(b, EscapeLabel(more) + rest);
      BareLabel(more, rest);
      Assoc(if IsPlain(b) then [b] else [], PlainOf(more), Bare(rest));
    }
  }

  lemma BareDot(rest: bytes)
    ensures Bare([DOT] + rest) == [46] + Bare(rest)
  {
    assert ([DOT] + rest)[1..] == rest;
  }

  lemma {:induction false} BareDotted(labels: seq<bytes>)
    ensures Bare(Dotted(labels)) == PlainDotted(labels)
    decreases |labels|
  {
    if labels != [] {
      var rest := Dotted(labels[1..]);
      Assoc(EscapeLabel(labels[0]), [DOT], rest);
      hide Bare, EscapeLabel, PlainOf;
      BareLabel(labels[0], [DOT] + rest);
      BareDot(rest);
      BareDotted(labels[1..]);
      Assoc(PlainOf(labels[0]), [46], PlainDotted(labels[1..]));
    }
  }

  /** Every octet is visible, and one that a zone file reads as syntax has a backslash
      before it. */
  ghost predicate Guarded(t: bytes) {
    && (forall i :: 0 <= i < |t| ==> 0x21 <= t[i] <= 0x7e)
    && (forall i :: 0 <= i < |t| && t[i] in {34, 36, 40, 41, 59, 64} ==> i > 0 && t[i - 1] == 92)
  }

  lemma GuardedJoin(a: bytes, b: bytes)
    requires Guarded(a) && Guarded(b)
    ensures Guarded(a + b)
  {
    var t := a + b;
    forall i | 0 <= i < |t| && t[i] in {34, 36, 40, 41, 59, 64} ensures i > 0 && t[i - 1] == 92 {
      if i >= |a| {
        assert t[i] == b[i - |a|] && t[i - 1] == b[i - |a| - 1];
      } else {
        assert t[i] == a[i] && t[i - 1] == a[i - 1];
      }
    }
  }

  lemma {:induction false} GuardedLabel(octets: bytes)
    ensures Guarded(EscapeLabel(octets))
    decreases |octets|
  {
    if octets != [] {
      assert Guarded(EscapeOctet(octets[0]));
      hide Guarded, EscapeOctet;
      GuardedLabel(octets[1..]);
      GuardedJoin(EscapeOctet(octets[0]), EscapeLabel(octets[1..]));
    }
  }

  lemma {:induction false} GuardedDotted(labels: seq<bytes>)
    ensures Guarded(Dotted(labels))
    decreases |labels|
  {
    if labels != [] {
      assert Guarded([DOT]);
      hide Guarded, EscapeLabel;
      GuardedLabel(labels[0]);
      GuardedDotted(labels[1..]);
      GuardedJoin(EscapeLabel(labels[0]), [DOT]);
      GuardedJoin(EscapeLabel(labels[0]) + [DOT], Dotted(labels[1..]));
    }
  }

  /** A printed name is safe in a zone file: all of it is visible, `"`, `$`, `(`, `)`,
      `;` and `@` only ever follow a backslash, and what no backslash covers is the
      plain octets of the labels with one dot after each, so no other dot separates. */
  lemma PrintedIsSafe(w: bytes)
    requires NameAt(w, 0)
    ensures Guarded(ToText(w))
    ensures Bare(ToText(w)) == if w[0] == 0 then [46] else PlainDotted(Labels(w))
  {
    if w[0] == 0 {
      BareDot([]);
      assert [DOT] + [] == [DOT];
    } else {
      hide Guarded, Bare, Dotted, NameAt, Labels;
      GuardedDotted(Labels(w));
      BareDotted(Labels(w));
    }
  }

  // ---- Against an origin

  predicate IsSpace(b: byte) {
    b == 32 || 9 <= b <= 13
  }

  function Trim(s: bytes): (r: bytes) {
    if s == [] then []
    else if IsSpace(s[0]) then Trim(s[1..])
    else if IsSpace(s[|s| - 1]) then Trim(s[..|s| - 1])
    else s
  }

  /** `absolutized_in`: `@` and nothing are the origin, text that ends in a dot is
      absolute, anything else has the origin put after it. */
  function Absolutized(text: bytes, origin: bytes): (r: Result<bytes>)
    requires IsName(origin)
  {
    var t := Trim(text);
    if t == [] || t == [AT] then Ok(origin)
    else
      var w :- ReadName(t, MAX_NAME_LEN);
      if t[|t| - 1] == DOT then Ok(w)
      else if |w| - 1 + |origin| > MAX_NAME_LEN then Err(TooLong)
      else Ok(w[..|w| - 1] + origin)
  }

  /** `t` is `s[i..j]`, with white space all around it and none at its ends: blanks, or
      HT, LF, VT, FF, CR. */
  ghost predicate TrimsTo(s: bytes, i: nat, j: nat, t: bytes) {
    && i <= j <= |s| && t == s[i..j]
    && (forall k :: 0 <= k < i || j <= k < |s| ==> s[k] == 32 || 9 <= s[k] <= 13)
    && (i < j ==> !(s[i] == 32 || 9 <= s[i] <= 13) && !(s[j - 1] == 32 || 9 <= s[j - 1] <= 13))
  }

  lemma TrimFront(s: bytes, i: nat, j: nat, t: bytes)
    requires s != [] && IsSpace(s[0]) && TrimsTo(s[1..], i, j, t)
    ensures TrimsTo(s, i + 1, j + 1, t)
  {
    SliceOfSlice(s, 1, |s|, i, j);
    forall k | 0 <= k < i + 1 || j + 1 <= k < |s| ensures s[k] == 32 || 9 <= s[k] <= 13 {
      if k > 0 {
        assert s[k] == s[1..][k - 1];
      }
    }
  }

  lemma TrimBack(s: bytes, i: nat, j: nat, t: bytes)
    requires s != [] && IsSpace(s[|s| - 1]) && TrimsTo(s[..|s| - 1], i, j, t)
    ensures TrimsTo(s, i, j, t)
  {
    SliceOfSlice(s, 0, |s| - 1, i, j);
    forall k | 0 <= k < i || j <= k < |s| ensures s[k] == 32 || 9 <= s[k] <= 13 {
      if k < |s| - 1 {
        assert s[k] == s[..|s| - 1][k];
      }
    }
  }

  lemma TrimNothing(s: bytes)
    requires s != [] ==> !IsSpace(s[0]) && !IsSpace(s[|s| - 1])
    ensures TrimsTo(s, 0, |s|, s)
  {
  }

  /** Trimming takes white space off both ends and nothing else. */
  lemma {:induction false} TrimExact(s: bytes) returns (i: nat, j: nat)
    ensures TrimsTo(s, i, j, Trim(s))
    decreases |s|
  {
    hide TrimsTo, IsSpace;
    if s != [] && IsSpace(s[0]) {
      i, j := TrimExact(s[1..]);
      TrimFront(s, i, j, Trim(s));
      i, j := i + 1, j + 1;
    } else if s != [] && IsSpace(s[|s| - 1]) {
      i, j := TrimExact(s[..|s| - 1]);
      TrimBack(s, i, j, Trim(s));
    } else {
      i, j := 0, |s|;
      TrimNothing(s);
    }
  }

  /** Nothing and `@` are the origin itself; what does not read is refused. */
  lemma OriginItself(text: bytes, origin: bytes)
    requires IsName(origin)
    ensures Trim(text) == [] || Trim(text) == [64] ==> Absolutized(text, origin) == Ok(origin)
    ensures Trim(text) != [] && Trim(text) != [64] && ReadName(Trim(text), MAX_NAME_LEN).Err?
            ==> Absolutized(text, origin).Err?
  {
  }

  lemma NameBefore(w: bytes, origin: bytes)
    requires NameAt(w, 0) && NameAt(origin, 0)
    ensures GoodLabels(Labels(w)) && w[..|w| - 1] == Joined(Labels(w))
    ensures NameAt(w[..|w| - 1] + origin, 0) && Labels(w[..|w| - 1] + origin) == Labels(w) + Labels(origin)
  {
    hide NameAt, Labels;
    WireBack(w);
    assert w[..|w| - 1] == Joined(Labels(w));
    Substituted(Labels(w), origin);
  }

  /** Whatever is accepted against an origin is a name. */
  lemma AbsolutizedIsName(text: bytes, origin: bytes)
    requires IsName(origin) && Absolutized(text, origin).Ok?
    ensures IsName(Absolutized(text, origin).value)
  {
    hide ReadName, NameAt, Labels;
    var t := Trim(text);
    if t != [] && t != [AT] {
      AcceptedIsName(t, MAX_NAME_LEN);
      NameBefore(ReadName(t, MAX_NAME_LEN).value, origin);
    }
  }

  lemma {:induction false} EscapedVisible(octets: bytes)
    requires octets != []
    ensures var e := EscapeLabel(octets);
            && e != [] && !IsSpace(e[0]) && !IsSpace(e[|e| - 1]) && e != [AT] && e[0] != DOT
            && (e[|e| - 1] == DOT <==> octets[|octets| - 1] == DOT)
    decreases |octets|
  {
    var b, more := octets[0], octets[1..];
    OctetVisible(b);
    if more == [] {
      assert EscapeLabel(octets) == EscapeOctet(b) + [] == EscapeOctet(b);
    } else {
      EscapedVisible(more);
      hide EscapeOctet;
      assert EscapeLabel(octets) == EscapeOctet(b) + EscapeLabel(more);
    }
  }

  lemma OctetVisible(b: byte)
    ensures var e := EscapeOctet(b);
            && !IsSpace(e[0]) && !IsSpace(e[|e| - 1]) && e != [AT] && e[0] != DOT && (e[|e| - 1] == DOT <==> b == DOT)
  {
  }

  lemma TrimmedAlready(s: bytes)
    requires s == [] || (!IsSpace(s[0]) && !IsSpace(s[|s| - 1]))
    ensures Trim(s) == s
  {
  }

  lemma PrintedVisible(w: bytes)
    requires NameAt(w, 0)
    ensures var t := ToText(w); t != [] && Trim(t) == t && t != [AT] && t[|t| - 1] == DOT
  {
    if w[0] != 0 {
      WireBack(w);
      var labels := Labels(w);
      Split(w);
      hide NameAt, Labels, EscapeLabel;
      DottedEnds(labels);
      EscapedVisible(labels[0]);
      assert Dotted(labels)[0] == EscapeLabel(labels[0])[0];
      TrimmedAlready(Dotted(labels));
    }
  }

  /** Printed text means the same name under every origin. */
  lemma PrintedAbsolute(w: bytes, origin: bytes)
    requires IsName(w) && IsName(origin)
    ensures Absolutized(ToText(w), origin) == Ok(w)
  {
    hide ReadName, ToText, Trim;
    PrintedVisible(w);
    PrintedReads(w, MAX_NAME_LEN);
  }

  function LastLabel(w: bytes): (r: bytes)
    requires NameAt(w, 0) && w[0] != 0
    ensures Labels(w) != [] && r == Labels(w)[|Labels(w)| - 1] && r != []
  {
    WireBack(w);
    Labels(w)[|Labels(w)| - 1]
  }

  predicate EndsInDot(w: bytes)
    requires NameAt(w, 0) && w[0] != 0
  {
    LastLabel(w)[|LastLabel(w)| - 1] == DOT
  }

  /** A name as it is written relative to an origin: no final separator. */
  function Relative(w: bytes): bytes
    requires NameAt(w, 0) && w[0] != 0
  {
    var last := LastLabel(w);
    Dotted(Labels(w)[..|Labels(w)| - 1]) + EscapeLabel(last)
  }

  lemma LastLabelBack(label_: bytes, done: bytes, cap: nat)
    requires 0 < |label_| <= MAX_LABEL_LEN && |done| + 1 + |label_| < cap && |done| + 1 + |label_| < MAX_NAME_LEN
    ensures Scan(EscapeLabel(label_), done, None, cap) == Ok(done + ([|label_|] + label_) + [0])
  {
    var b, more := label_[0], label_[1..];
    var tail := EscapeLabel(more) + [];
    assert EscapeLabel(label_) == EscapeOctet(b) + tail;
    OctetBack(b, tail);
    assert [b] + more == label_ && [] + [b] == [b];
    LabelBack(more, [], done, [b], cap);
    hide EscapeOctet, NextOctet, EscapeLabel;
    assert Scan(EscapeOctet(b) + tail, done, None, cap) == Scan(tail, done, Some([b]), cap);
  }

  lemma UnfinishedBack(init: seq<bytes>, last: bytes)
    requires GoodLabels(init) && 0 < |last| <= MAX_LABEL_LEN
    requires |Joined(init)| + 1 + |last| < MAX_NAME_LEN
    ensures Scan(Dotted(init) + EscapeLabel(last), [], None, MAX_NAME_LEN)
            == Ok(Joined(init) + ([|last|] + last) + [0])
  {
    hide Scan, Dotted, EscapeLabel, Joined;
    DottedThen(init, EscapeLabel(last), [], MAX_NAME_LEN);
    assert [] + Joined(init) == Joined(init);
    LastLabelBack(last, Joined(init), MAX_NAME_LEN);
  }

  /** A name's octets up to its last label, and that label. */
  lemma LastSplit(w: bytes)
    requires NameAt(w, 0) && w[0] != 0
    ensures var init, last := Labels(w)[..|Labels(w)| - 1], LastLabel(w);
            && GoodLabels(init) && 0 < |last| <= MAX_LABEL_LEN
            && w == Joined(init) + ([|last|] + last) + [0]
  {
    hide NameAt, Labels, Joined, LastLabel;
    WireBack(w);
    JoinedLast(Labels(w), LastLabel(w));
  }

  lemma JoinedLast(labels: seq<bytes>, last: bytes)
    requires GoodLabels(labels) && labels != [] && last == labels[|labels| - 1]
    ensures var init := labels[..|labels| - 1];
            GoodLabels(init) && 0 < |last| <= MAX_LABEL_LEN && Joined(labels) == Joined(init) + ([|last|] + last)
  {
    hide Joined;
    var init := labels[..|labels| - 1];
    assert labels == init + [last];
    JoinedPush(init, last);
  }

  /** The final separator is optional. */
  lemma RelativeReads(w: bytes)
    requires IsName(w) && w[0] != 0
    ensures ReadName(Relative(w), MAX_NAME_LEN) == Ok(w)
    ensures Relative(w) != [] && Trim(Relative(w)) == Relative(w) && Relative(w) != [AT]
    ensures Relative(w)[|Relative(w)| - 1] == DOT <==> EndsInDot(w)
  {
    hide NameAt, Labels, Scan, Dotted, EscapeLabel, Trim, Joined, LastLabel;
    LastSplit(w);
    UnfinishedBack(Labels(w)[..|Labels(w)| - 1], LastLabel(w));
    RelativeVisible(Labels(w)[..|Labels(w)| - 1], LastLabel(w));
  }

  lemma RelativeVisible(init: seq<bytes>, last: bytes)
    requires GoodLabels(init) && last != []
    ensures var t := Dotted(init) + EscapeLabel(last);
            && t != [] && Trim(t) == t && t != [AT] && t != [DOT]
            && (t[|t| - 1] == DOT <==> last[|last| - 1] == DOT)
  {
    var t := Dotted(init) + EscapeLabel(last);
    EscapedVisible(last);
    if init == [] {
      assert t == EscapeLabel(last);
    } else {
      EscapedVisible(init[0]);
      hide EscapeLabel;
      assert t[0] == EscapeLabel(init[0])[0];
    }
    hide EscapeLabel, Dotted;
    TrimmedAlready(t);
  }

  /** A name as the printer spells it, final separator left off, has the origin put
      after it exactly when its last label does not end in a dot octet. */
  lemma RelativeIff(w: bytes, origin: bytes)
    requires IsName(w) && w[0] != 0 && IsName(origin)
    ensures Absolutized(Relative(w), origin)
            == if EndsInDot(w) then Ok(w)
               else if |w| - 1 + |origin| > MAX_NAME_LEN then Err(TooLong)
               else Ok(w[..|w| - 1] + origin)
    ensures NameAt(w[..|w| - 1] + origin, 0) && Labels(w[..|w| - 1] + origin) == Labels(w) + Labels(origin)
  {
    hide NameAt, Labels, ReadName, Relative, Trim, EndsInDot;
    RelativeReads(w);
    NameBefore(w, origin);
  }

  /** How a text ends: its last token is a separator, the escape `\.`, or neither. */
  datatype Ending = Separator | EscapedDot | Ordinary

  function EndingOf(rest: bytes): (r: Option<Ending>)
    decreases |rest|
  {
    if rest == [] then None
    else if rest[0] == DOT then
      if |rest| == 1 then Some(Separator) else EndingOf(rest[1..])
    else match NextOctet(rest)
      case Err(_) => None
      case Ok(t) =>
        if t.used < |rest| then EndingOf(rest[t.used..])
        else if rest == [BACKSLASH, DOT] then Some(EscapedDot)
        else Some(Ordinary)
  }

  lemma {:induction false} LastOctetTells(rest: bytes, done: bytes, open: Option<bytes>, cap: nat)
    requires rest != [] && Scan(rest, done, open, cap).Ok?
    ensures EndingOf(rest).Some? && (rest[|rest| - 1] == DOT <==> EndingOf(rest) != Some(Ordinary))
    decreases |rest|
  {
    if rest[0] == DOT {
      if |rest| > 1 {
        LastOctetTells(rest[1..], Close(done, open.value).value, None, cap);
      }
    } else {
      var t := NextOctet(rest).value;
      if t.used < |rest| {
        LastOctetTells(rest[t.used..], done, Some(Grow(done, open, t.octet, cap).value), cap);
      } else if rest[0] == BACKSLASH && |rest| == 2 {
        assert rest == [BACKSLASH, rest[1]];
      }
    }
  }

  /** Resolving any text that reads. Text with a final separator is absolute. Text
      without one has the origin put after it exactly when it does not end in the escape
      `\.`, whose dot the bare test for a trailing `.` takes for a separator. */
  lemma OriginAppendedIff(text: bytes, origin: bytes)
    requires IsName(origin) && Trim(text) != [] && Trim(text) != [64] && ReadName(Trim(text), MAX_NAME_LEN).Ok?
    ensures EndingOf(Trim(text)).Some?
    ensures var w := ReadName(Trim(text), MAX_NAME_LEN).value;
            && NameAt(w, 0) && NameAt(w[..|w| - 1] + origin, 0)
            && Labels(w[..|w| - 1] + origin) == Labels(w) + Labels(origin)
            && Absolutized(text, origin)
               == match EndingOf(Trim(text)).value
                  case Separator => Ok(w)
                  case EscapedDot => Ok(w)
                  case Ordinary => if |w| - 1 + |origin| > MAX_NAME_LEN then Err(TooLong) else Ok(w[..|w| - 1] + origin)
  {
    hide ReadName, Trim, NameAt, Labels, EndingOf;
    var t := Trim(text);
    TextEnds(t);
    AcceptedIsName(t, MAX_NAME_LEN);
    NameBefore(ReadName(t, MAX_NAME_LEN).value, origin);
  }

  lemma TextEnds(t: bytes)
    requires t != [] && ReadName(t, MAX_NAME_LEN).Ok?
    ensures EndingOf(t).Some? && (t[|t| - 1] == DOT <==> EndingOf(t) != Some(Ordinary))
  {
    if t != [DOT] {
      LastOctetTells(t, [], None, MAX_NAME_LEN);
    }
  }

  /** Two texts for one name: `a\.` loses the origin that `a\046` is given. */
  lemma EscapedDotLosesOrigin()
    ensures var dotted: bytes, decimal: bytes := [97, BACKSLASH, DOT], [97, BACKSLASH, 48, 52, 54];
            && ReadName(dotted, MAX_NAME_LEN) == ReadName(decimal, MAX_NAME_LEN) == Ok([2, 97, DOT, 0])
            && IsName([1, 98, 0])
            && Absolutized(dotted, [1, 98, 0]) == Ok([2, 97, DOT, 0])
            && Absolutized(decimal, [1, 98, 0]) == Ok([2, 97, DOT, 1, 98, 0])
  {
    var dotted: bytes, decimal: bytes := [97, BACKSLASH, DOT], [97, BACKSLASH, 48, 52, 54];
    ReadsADot(dotted);
    ReadsADot(decimal);
    TrimmedAlready(dotted);
    TrimmedAlready(decimal);
    hide ReadName, Trim;
    assert NameAt([1, 98, 0], 2);
    var w: bytes := [2, 97, DOT, 0];
    assert w[..3] + [1, 98, 0] == [2, 97, DOT, 1, 98, 0];
  }

  lemma ReadsADot(text: bytes)
    requires text == [97, BACKSLASH, DOT] || text == [97, BACKSLASH, 48, 52, 54]
    ensures ReadName(text, MAX_NAME_LEN) == Ok([2, 97, DOT, 0])
  {
    var rest := text[1..];
    assert [] + [97] == [97] && [97] + [DOT] == [97, DOT];
    assert NextOctet(rest) == Ok(Token(DOT, |rest|)) && rest[|rest|..] == [];
    assert Scan(rest, [], Some([97]), MAX_NAME_LEN) == Finish([], Some([97, DOT]), MAX_NAME_LEN);
    assert Scan(text, [], None, MAX_NAME_LEN) == Scan(rest, [], Some([97]), MAX_NAME_LEN);
    assert [] + ([2] + [97, DOT]) + [0] == [2, 97, DOT, 0];
  }

  // ---- The loop over a buffer

  /** One octet of a label, its length octet reserved first if it opens one. */
  method PutOctet(buf: array<byte>, opens: bool, ghost done: bytes, ghost open: Option<bytes>, at: nat, octet: byte) returns (r: Result<nat>)
    requires at == At(done, open) <= buf.Length && buf[..|done|] == done && opens == open.None?
    requires open.Some? ==> buf[|done| + 1..at] == open.value
    modifies buf
    ensures match Grow(done, open, octet, buf.Length)
            case Err(e) => r == Err(e)
            case Ok(grown) =>
              && r == Ok(|done| + 1 + |grown|) && |done| + 1 + |grown| <= buf.Length
              && buf[..|done|] == done && buf[|done| + 1..|done| + 1 + |grown|] == grown
  {
    var pos := at;
    if opens {
      if pos >= buf.Length { return Err(TooLong); }
      buf[pos] := 0;
      pos := pos + 1;
    }
    if pos >= buf.Length { return Err(TooLong); }
    buf[pos] := octet;
    r := Ok(pos + 1);
  }

  /** The reserved length octet filled in. */
  method CloseLabel(buf: array<byte>, start: nat, at: nat, ghost done: bytes, ghost open: bytes) returns (r: Result<()>)
    requires start == |done| && at == start + 1 + |open| <= buf.Length
    requires buf[..start] == done && buf[start + 1..at] == open
    modifies buf
    ensures match Close(done, open)
            case Err(e) => r == Err(e)
            case Ok(w) => r.Ok? && |w| == at && buf[..at] == w
  {
    if at - start - 1 > MAX_LABEL_LEN { return Err(TooLong); }
    buf[start] := at - start - 1;
    LabelPlaced(buf[..], done, open, at);
    r := Ok(());
  }

  /** The buffer and the two positions hold the finished labels and the open one. */
  ghost predicate Placed(buf: bytes, done: bytes, open: Option<bytes>, at: nat, start: Option<nat>) {
    && at == At(done, open) <= |buf| && start == (if open.Some? then Some(|done|) else None)
    && buf[..|done|] == done && (open.Some? ==> buf[|done| + 1..at] == open.value)
  }

  /** The last label's length, if one is owed, and the root octet. */
  method FinishName(buf: array<byte>, at: nat, start: Option<nat>, ghost done: bytes, ghost open: Option<bytes>)
      returns (r: Result<nat>)
    requires Placed(buf[..], done, open, at, start)
    modifies buf
    ensures match Finish(done, open, buf.Length)
            case Err(e) => r == Err(e)
            case Ok(w) => r == Ok(|w|) && |w| <= buf.Length && buf[..|w|] == w
  {
    ghost var w := done;
    if start.Some? {
      ghost var closed := Close(done, open.value);
      var label_ := CloseLabel(buf, start.value, at, done, open.value);
      if label_.Err? { return Err(label_.error); }
      w := closed.value;
    }
    if at >= buf.Length { return Err(TooLong); }
    buf[at] := 0;
    if at + 1 > MAX_NAME_LEN { return Err(TooLong); }
    assert buf[..at + 1] == w + [0];
    r := Ok(at + 1);
  }

  /** `presentation_wire_in` as it runs, with room left for each length octet until
      the label it counts is over. */
  method PresentationWireIn(text: bytes, buf: array<byte>) returns (r: Result<nat>)
    requires buf.Length >= MAX_NAME_LEN
    modifies buf
    ensures match ReadName(text, buf.Length)
            case Err(e) => r == Err(e)
            case Ok(w) => r == Ok(|w|) && |w| <= buf.Length && buf[..|w|] == w
  {
    if text == [] || text == [DOT] {
      buf[0] := 0;
      return Ok(1);
    }
    hide NextOctet, Finish;
    ghost var done: bytes, open: Option<bytes> := [], None;
    var at: nat, start: Option<nat>, i: nat := 0, None, 0;
    assert text[0..] == text;
    while i < |text|
      invariant i <= |text| && Placed(buf[..], done, open, at, start)
      invariant ReadName(text, buf.Length) == Scan(text[i..], done, open, buf.Length)
    {
      ghost var rest := text[i..];
      if text[i] == DOT {
        i := i + 1;
        assert rest[1..] == text[i..];
        if start.None? { return Err(Malformed); }
        ghost var closed := Close(done, open.value);
        var label_ := CloseLabel(buf, start.value, at, done, open.value);
        if label_.Err? { return Err(label_.error); }
        done, open, start := closed.value, None, None;
      } else {
        var t := NextOctet(text[i..]);
        if t.Err? { return Err(t.error); }
        assert rest[t.value.used..] == text[i + t.value.used..];
        i := i + t.value.used;
        var opens := start.None?;
        if opens { start := Some(at); }
        ghost var grown := Grow(done, open, t.value.octet, buf.Length);
        r := PutOctet(buf, opens, done, open, at, t.value.octet);
        if r.Err? { return; }
        at, open := r.value, Some(grown.value);
      }
    }
    assert text[i..] == [];
    r := FinishName(buf, at, start, done, open);
  }

  lemma LabelPlaced(buf: bytes, done: bytes, open: bytes, at: nat)
    requires |done| + 1 + |open| == at <= |buf| && |open| <= MAX_LABEL_LEN
    requires buf[..|done|] == done && buf[|done|] == |open| && buf[|done| + 1..at] == open
    ensures buf[..at] == done + ([|open|] + open)
  {
  }
}
