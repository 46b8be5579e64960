/** NSEC and NSEC3 type bitmaps (RFC 4034 section 4.1.2): building, listing, and
    testing one type. */
module TypeBitmap {
  import opened Octets

  // ---- Bits

  /** The bit at place `p` of `n`, place 0 the lowest. */
  predicate PlaceSet(n: nat, p: nat) {
    if p == 0 then n % 2 == 1 else PlaceSet(n / 2, p - 1)
  }

  function SetPlace(n: nat, p: nat): nat {
    if p == 0 then n / 2 * 2 + 1 else SetPlace(n / 2, p - 1) * 2 + n % 2
  }

  function ClearPlace(n: nat, p: nat): nat {
    if p == 0 then n / 2 * 2 else ClearPlace(n / 2, p - 1) * 2 + n % 2
  }

  lemma {:induction false} SetPlaceIs(n: nat, p: nat, q: nat)
    ensures PlaceSet(SetPlace(n, p), q) <==> q == p || PlaceSet(n, q)
  {
    if p > 0 && q > 0 {
      SetPlaceIs(n / 2, p - 1, q - 1);
    }
  }

  lemma {:induction false} ClearPlaceIs(n: nat, p: nat, q: nat)
    ensures PlaceSet(ClearPlace(n, p), q) <==> q != p && PlaceSet(n, q)
  {
    if p > 0 && q > 0 {
      ClearPlaceIs(n / 2, p - 1, q - 1);
    }
  }

  lemma {:induction false} SetPlaceFits(n: nat, p: nat, width: nat)
    requires n < Pow2(width) && p < width
    ensures n <= SetPlace(n, p) < Pow2(width)
  {
    var half := Pow2(width - 1);
    assert Pow2(width) == 2 * half;
    if p > 0 {
      SetPlaceFits(n / 2, p - 1, width - 1);
      var high := SetPlace(n / 2, p - 1);
      Doubled(n, high, half);
    }
  }

  lemma Doubled(n: nat, high: nat, half: nat)
    requires n / 2 <= high < half
    ensures n <= high * 2 + n % 2 < 2 * half
  {
  }

  lemma {:induction false} ClearPlaceFits(n: nat, p: nat)
    ensures ClearPlace(n, p) <= n && (PlaceSet(n, p) ==> ClearPlace(n, p) < n)
  {
    if p > 0 {
      ClearPlaceFits(n / 2, p - 1);
    }
  }

  lemma {:induction false} NothingSet(n: nat, width: nat)
    requires n < Pow2(width) && forall p :: 0 <= p < width ==> !PlaceSet(n, p)
    ensures n == 0
  {
    if width > 0 {
      forall p | 0 <= p < width - 1 ensures !PlaceSet(n / 2, p) {
        assert !PlaceSet(n, p + 1);
      }
      NothingSet(n / 2, width - 1);
      assert !PlaceSet(n, 0);
    }
  }

  lemma Pow8()
    ensures Pow2(8) == 256
  {
    assert Pow2(4) == 16 && Pow2(8) == 2 * (2 * (2 * (2 * Pow2(4))));
  }

  // Bit 0 of an octet is its high bit (RFC 4034 section 4.1.2).

  /** `b & (0x80 >> k) != 0`. */
  predicate BitSet(b: byte, k: nat)
    requires k < 8
  {
    PlaceSet(b, 7 - k)
  }

  /** `b | (0x80 >> k)`. */
  function SetBit(b: byte, k: nat): (r: byte)
    requires k < 8
  {
    Pow8();
    SetPlaceFits(b, 7 - k, 8);
    SetPlace(b, 7 - k)
  }

  /** `b & !(0x80 >> k)`. */
  function ClearBit(b: byte, k: nat): (r: byte)
    requires k < 8
    ensures BitSet(b, k) ==> r < b
  {
    ClearPlaceFits(b, 7 - k);
    ClearPlace(b, 7 - k)
  }

  lemma BitsAre(b: byte, k: nat, j: nat)
    requires k < 8 && j < 8
    ensures BitSet(SetBit(b, k), j) <==> j == k || BitSet(b, j)
    ensures BitSet(ClearBit(b, k), j) <==> j != k && BitSet(b, j)
  {
    SetPlaceIs(b, 7 - k, 7 - j);
    ClearPlaceIs(b, 7 - k, 7 - j);
  }

  /** The first set bit from `k` on. */
  function FirstBit(b: byte, k: nat): (r: nat)
    requires k <= 8
    ensures k <= r <= 8 && (r < 8 ==> BitSet(b, r)) && forall j :: k <= j < r ==> !BitSet(b, j)
    decreases 8 - k
  {
    if k == 8 || BitSet(b, k) then k else FirstBit(b, k + 1)
  }

  lemma SomeBit(b: byte)
    requires b > 0
    ensures FirstBit(b, 0) < 8
  {
    Pow8();
    if FirstBit(b, 0) == 8 {
      forall p | 0 <= p < 8 ensures !PlaceSet(b, p) {
        assert !BitSet(b, 7 - p);
      }
      NothingSet(b, 8);
    }
  }

  // ---- Reading

  /** A type and where it is: window block, and bit in it. */
  predicate HasBit(bits: bytes, bit: nat) {
    bit / 8 < |bits| && BitSet(bits[bit / 8], bit % 8)
  }

  /** `bitmap_has_type`: malformed reads as not present. */
  function HasType(bitmap: bytes, t: u16): bool {
    if |bitmap| < 2 then false
    else
      var len := bitmap[1];
      if len == 0 || len > 32 || |bitmap| < 2 + len then false
      else if bitmap[0] == t / 256 then HasBit(bitmap[2..2 + len], t % 256)
      else HasType(bitmap[2 + len..], t)
  }

  method BitmapHasType(bitmap: bytes, t: u16) returns (r: bool)
    ensures r == HasType(bitmap, t)
  {
    var rest := bitmap;
    while |rest| >= 2
      invariant HasType(bitmap, t) == HasType(rest, t)
      decreases |rest|
    {
      var len := rest[1];
      if len == 0 || len > 32 || |rest| < 2 + len { return false; }
      if rest[0] == t / 256 {
        return HasBit(rest[2..2 + len], t % 256);
      }
      rest := rest[2 + len..];
    }
    r := false;
  }

  /** The types of one octet's bits from `k` on; `base` is the type of bit 0. */
  function OctetTypes(b: byte, k: nat, base: nat): (r: seq<nat>)
    requires k <= 8
    decreases 8 - k
  {
    if k == 8 then []
    else if BitSet(b, k) then [base + k] + OctetTypes(b, k + 1, base)
    else OctetTypes(b, k + 1, base)
  }

  function BlockTypes(bits: bytes, base: nat): (r: seq<nat>) {
    if bits == [] then [] else OctetTypes(bits[0], 0, base) + BlockTypes(bits[1..], base + 8)
  }

  /** What was read, to the end or up to the damage. */
  datatype Listing = Whole(types: seq<nat>) | Damaged(types: seq<nat>)

  function After(first: seq<nat>, rest: Listing): Listing {
    match rest
    case Whole(ts) => Whole(first + ts)
    case Damaged(ts) => Damaged(first + ts)
  }

  /** `bitmap_types_exact`. */
  function ListTypes(bitmap: bytes): (r: Listing) {
    if bitmap == [] then Whole([])
    else if |bitmap| < 2 then Damaged([])
    else
      var len := bitmap[1];
      if len == 0 || len > 32 || |bitmap| < 2 + len then Damaged([])
      else After(BlockTypes(bitmap[2..2 + len], bitmap[0] as int * 256), ListTypes(bitmap[2 + len..]))
  }

  /** Bits before the first set one add nothing. */
  lemma {:induction false} SkipClear(b: byte, k: nat, base: nat)
    requires k <= 8
    ensures OctetTypes(b, k, base)
            == if FirstBit(b, k) == 8 then [] else [base + FirstBit(b, k)] + OctetTypes(b, FirstBit(b, k) + 1, base)
    decreases 8 - k
  {
    hide BitSet;
    if k < 8 && !BitSet(b, k) {
      SkipClear(b, k + 1, base);
    }
  }

  /** Clearing a bit already passed changes nothing of what is left. */
  lemma {:induction false} ClearedSame(b: byte, c: byte, k: nat, base: nat)
    requires k <= 8 && forall j :: k <= j < 8 ==> BitSet(b, j) == BitSet(c, j)
    ensures OctetTypes(b, k, base) == OctetTypes(c, k, base)
    decreases 8 - k
  {
    hide BitSet;
    if k < 8 {
      ClearedSame(b, c, k + 1, base);
    }
  }

  /** One turn of the loop over an octet's bits. */
  lemma FirstTaken(b: byte, base: nat)
    requires b > 0
    ensures var k := FirstBit(b, 0); k < 8 && OctetTypes(b, 0, base) == [base + k] + OctetTypes(ClearBit(b, k), 0, base)
  {
    SomeBit(b);
    var k := FirstBit(b, 0);
    var c := ClearBit(b, k);
    SkipClear(b, 0, base);
    forall j | 0 <= j < 8 ensures BitSet(c, j) <==> j != k && BitSet(b, j) {
      BitsAre(b, k, j);
    }
    hide BitSet, ClearBit;
    ClearedSame(b, c, k + 1, base);
    SkipTo(c, 0, k + 1, base);
  }

  lemma {:induction false} SkipTo(c: byte, k: nat, to_: nat, base: nat)
    requires k <= to_ <= 8 && forall j :: k <= j < to_ ==> !BitSet(c, j)
    ensures OctetTypes(c, k, base) == OctetTypes(c, to_, base)
    decreases 8 - k
  {
    hide BitSet;
    if k < to_ {
      SkipTo(c, k + 1, to_, base);
    }
  }

  lemma NoTypes(base: nat)
    ensures OctetTypes(0, 0, base) == []
  {
    forall j | 0 <= j < 8 ensures !BitSet(0, j) {
      ZeroPlaces(7 - j);
    }
    SkipTo(0, 0, 8, base);
  }

  lemma {:induction false} ZeroPlaces(p: nat)
    ensures !PlaceSet(0, p)
  {
    if p > 0 {
      ZeroPlaces(p - 1);
    }
  }

  /** `bitmap_types_exact` over one octet: `leading_zeros` names the next type. */
  method ReadOctet(b: byte, base: nat) returns (types: seq<nat>)
    ensures types == OctetTypes(b, 0, base)
  {
    hide OctetTypes, BitSet, ClearBit, FirstBit;
    types := [];
    assert [] + OctetTypes(b, 0, base) == OctetTypes(b, 0, base);
    var remaining := b;
    while remaining != 0
      invariant types + OctetTypes(remaining, 0, base) == OctetTypes(b, 0, base)
      decreases remaining
    {
      FirstTaken(remaining, base);
      var bit := FirstBit(remaining, 0);
      Assoc(types, [base + bit], OctetTypes(ClearBit(remaining, bit), 0, base));
      types := types + [base + bit];
      remaining := ClearBit(remaining, bit);
    }
    NoTypes(base);
    assert types + [] == types;
  }

  method ReadBlock(bits: bytes, base: nat) returns (types: seq<nat>)
    ensures types == BlockTypes(bits, base)
  {
    hide OctetTypes;
    types := [];
    var i := 0;
    assert bits[0..] == bits;
    while i < |bits|
      invariant i <= |bits| && types + BlockTypes(bits[i..], base + 8 * i) == BlockTypes(bits, base)
    {
      assert bits[i..][1..] == bits[i + 1..];
      var more := ReadOctet(bits[i], base + 8 * i);
      Assoc(types, more, BlockTypes(bits[i + 1..], base + 8 * i + 8));
      types := types + more;
      i := i + 1;
    }
    assert bits[i..] == [] && types + [] == types;
  }

  lemma AfterMore(a: seq<nat>, b: seq<nat>, rest: Listing)
    ensures After(a + b, rest) == After(a, After(b, rest))
  {
    Assoc(a, b, rest.types);
  }

  /** `bitmap_types_exact` as it runs. */
  method BitmapTypesExact(bitmap: bytes) returns (r: Listing)
    ensures r == ListTypes(bitmap)
  {
    hide BlockTypes;
    var types: seq<nat>, rest := [], bitmap;
    assert [] + ListTypes(bitmap).types == ListTypes(bitmap).types;
    while rest != []
      invariant After(types, ListTypes(rest)) == ListTypes(bitmap)
      decreases |rest|
    {
      assert types + [] == types;
      if |rest| < 2 { return Damaged(types); }
      var len := rest[1];
      if len == 0 || len > 32 || |rest| < 2 + len { return Damaged(types); }
      var block := ReadBlock(rest[2..2 + len], rest[0] as int * 256);
      AfterMore(types, block, ListTypes(rest[2 + len..]));
      types, rest := types + block, rest[2 + len..];
    }
    assert types + [] == types;
    r := Whole(types);
  }

  // ---- Building

  /** A window block: the high octet of its types, and their bits. */
  datatype Window = Window(num: byte, bits: bytes)

  /** `resize` if need be, then set one bit. */
  function SetIn(bits: bytes, bit: nat): (r: bytes)
    requires bit < 256
    ensures |r| == if |bits| <= bit / 8 then bit / 8 + 1 else |bits|
  {
    var room := if |bits| <= bit / 8 then bits + seq(bit / 8 + 1 - |bits|, _ => 0) else bits;
    room[bit / 8 := SetBit(room[bit / 8], bit % 8)]
  }

  lemma SetInIs(bits: bytes, bit: nat, j: nat)
    requires bit < 256
    ensures HasBit(SetIn(bits, bit), j) <==> j == bit || HasBit(bits, j)
  {
    var room := if |bits| <= bit / 8 then bits + seq(bit / 8 + 1 - |bits|, _ => 0) else bits;
    if j / 8 == bit / 8 {
      BitsAre(room[bit / 8], bit % 8, j % 8);
    }
    ZeroPlaces(7 - j % 8);
    hide SetBit, PlaceSet;
    assert j == j / 8 * 8 + j % 8 && bit == bit / 8 * 8 + bit % 8;
  }

  /** One type entered: in its window, or in a new one at the end. */
  function PutType(ws: seq<Window>, t: u16): (r: seq<Window>) {
    if ws == [] then [Window(t / 256, SetIn([], t % 256))]
    else if ws[0].num == t / 256 then [Window(ws[0].num, SetIn(ws[0].bits, t % 256))] + ws[1..]
    else [ws[0]] + PutType(ws[1..], t)
  }

  function PutAll(ws: seq<Window>, types: seq<u16>): (r: seq<Window>)
    decreases |types|
  {
    if types == [] then ws else PutAll(PutType(ws, types[0]), types[1..])
  }

  function Insert(w: Window, ws: seq<Window>): (r: seq<Window>) {
    if ws == [] || w.num <= ws[0].num then [w] + ws else [ws[0]] + Insert(w, ws[1..])
  }

  /** `sort_by_key`, which is stable. */
  function SortWindows(ws: seq<Window>): (r: seq<Window>) {
    if ws == [] then [] else Insert(ws[0], SortWindows(ws[1..]))
  }

  predicate Sized(ws: seq<Window>) {
    forall i :: 0 <= i < |ws| ==> 0 < |ws[i].bits| <= 32
  }

  function Encode(ws: seq<Window>): (r: bytes)
    requires Sized(ws)
  {
    if ws == [] then [] else [ws[0].num, |ws[0].bits|] + ws[0].bits + Encode(ws[1..])
  }

  /** The bits of the first window with this number. */
  function BitsFor(ws: seq<Window>, num: nat): (r: bytes) {
    if ws == [] then [] else if ws[0].num == num then ws[0].bits else BitsFor(ws[1..], num)
  }

  predicate Holds(ws: seq<Window>, t: u16) {
    HasBit(BitsFor(ws, t / 256), t % 256)
  }

  lemma {:induction false} PutSized(ws: seq<Window>, t: u16)
    requires Sized(ws)
    ensures Sized(PutType(ws, t))
  {
    hide SetIn;
    if ws != [] {
      PutSized(ws[1..], t);
    }
  }

  lemma {:induction false} PutBits(ws: seq<Window>, t: u16, num: nat)
    ensures BitsFor(PutType(ws, t), num)
            == if num == t / 256 then SetIn(BitsFor(ws, num), t % 256) else BitsFor(ws, num)
  {
    hide SetIn;
    if ws != [] {
      PutBits(ws[1..], t, num);
      assert PutType(ws, t)[1..] == if ws[0].num == t / 256 then ws[1..] else PutType(ws[1..], t);
    }
  }

  lemma PutHolds(ws: seq<Window>, t: u16, u: u16)
    ensures Holds(PutType(ws, t), u) <==> u == t || Holds(ws, u)
  {
    hide SetIn, HasBit;
    PutBits(ws, t, u / 256);
    SetInIs(BitsFor(ws, u / 256), t % 256, u % 256);
  }

  lemma {:induction false} PutAllHolds(ws: seq<Window>, types: seq<u16>, u: u16)
    requires Sized(ws)
    ensures Sized(PutAll(ws, types)) && (Holds(PutAll(ws, types), u) <==> u in types || Holds(ws, u))
    decreases |types|
  {
    hide Holds, Sized, PutType;
    if types != [] {
      PutSized(ws, types[0]);
      PutHolds(ws, types[0], u);
      PutAllHolds(PutType(ws, types[0]), types[1..], u);
      assert u in types <==> u == types[0] || u in types[1..];
    }
  }

  // ---- Windows in order

  /** Numbers strictly ascend from `lo`. */
  predicate Ascend(ws: seq<Window>, lo: nat) {
    ws == [] || (ws[0].num >= lo && Ascend(ws[1..], ws[0].num + 1))
  }

  predicate HasNum(ws: seq<Window>, num: nat) {
    ws != [] && (ws[0].num == num || HasNum(ws[1..], num))
  }

  predicate OneEach(ws: seq<Window>) {
    ws == [] || (!HasNum(ws[1..], ws[0].num) && OneEach(ws[1..]))
  }

  lemma {:induction false} PutNums(ws: seq<Window>, t: u16, num: nat)
    ensures HasNum(PutType(ws, t), num) <==> num == t / 256 || HasNum(ws, num)
  {
    hide SetIn;
    if ws != [] {
      PutNums(ws[1..], t, num);
      assert PutType(ws, t)[1..] == if ws[0].num == t / 256 then ws[1..] else PutType(ws[1..], t);
    }
  }

  lemma {:induction false} PutOneEach(ws: seq<Window>, t: u16)
    requires OneEach(ws)
    ensures OneEach(PutType(ws, t))
  {
    hide SetIn;
    if ws != [] {
      PutOneEach(ws[1..], t);
      PutNums(ws[1..], t, ws[0].num);
      assert PutType(ws, t)[1..] == if ws[0].num == t / 256 then ws[1..] else PutType(ws[1..], t);
    }
  }

  lemma {:induction false} PutAllOneEach(ws: seq<Window>, types: seq<u16>)
    requires OneEach(ws)
    ensures OneEach(PutAll(ws, types))
    decreases |types|
  {
    if types != [] {
      PutOneEach(ws, types[0]);
      PutAllOneEach(PutType(ws, types[0]), types[1..]);
    }
  }

  lemma {:induction false} InsertIs(w: Window, ws: seq<Window>, num: nat)
    ensures BitsFor(Insert(w, ws), num) == if w.num == num then w.bits else BitsFor(ws, num)
    ensures HasNum(Insert(w, ws), num) <==> w.num == num || HasNum(ws, num)
  {
    if ws != [] {
      InsertIs(w, ws[1..], num);
      assert Insert(w, ws)[1..] == if w.num <= ws[0].num then ws else Insert(w, ws[1..]);
    }
  }

  lemma {:induction false} InsertSized(w: Window, ws: seq<Window>)
    requires Sized(ws) && 0 < |w.bits| <= 32
    ensures Sized(Insert(w, ws))
  {
    if ws != [] {
      InsertSized(w, ws[1..]);
    }
  }

  lemma {:induction false} InsertAscends(w: Window, ws: seq<Window>, lo: nat)
    requires Ascend(ws, lo) && !HasNum(ws, w.num) && lo <= w.num
    ensures Ascend(Insert(w, ws), lo)
  {
    if ws != [] {
      if w.num > ws[0].num {
        InsertAscends(w, ws[1..], ws[0].num + 1);
      }
      assert Insert(w, ws)[1..] == if w.num <= ws[0].num then ws else Insert(w, ws[1..]);
    }
  }

  /** Sorting moves windows and changes none. */
  lemma {:induction false} SortIs(ws: seq<Window>, num: nat)
    ensures BitsFor(SortWindows(ws), num) == BitsFor(ws, num)
    ensures HasNum(SortWindows(ws), num) <==> HasNum(ws, num)
  {
    if ws != [] {
      SortIs(ws[1..], num);
      InsertIs(ws[0], SortWindows(ws[1..]), num);
    }
  }

  lemma {:induction false} SortAscends(ws: seq<Window>)
    requires OneEach(ws) && Sized(ws)
    ensures Ascend(SortWindows(ws), 0) && Sized(SortWindows(ws))
  {
    if ws != [] {
      SortAscends(ws[1..]);
      SortIs(ws[1..], ws[0].num);
      InsertAscends(ws[0], SortWindows(ws[1..]), 0);
      InsertSized(ws[0], SortWindows(ws[1..]));
    }
  }

  // ---- Reading what was built

  lemma FirstBlock(ws: seq<Window>)
    requires Sized(ws) && ws != []
    ensures var b, n := Encode(ws), |ws[0].bits|;
            && |b| >= 2 + n && b[0] == ws[0].num && b[1] == n && 0 < n <= 32
            && b[2..2 + n] == ws[0].bits && b[2 + n..] == Encode(ws[1..])
  {
    var head: bytes := [ws[0].num, |ws[0].bits|] + ws[0].bits;
    assert Encode(ws) == head + Encode(ws[1..]);
  }

  /** Testing a type in what was encoded is testing it in the windows. */
  lemma {:induction false} HasEncoded(ws: seq<Window>, t: u16)
    requires Sized(ws)
    ensures HasType(Encode(ws), t) <==> Holds(ws, t)
    decreases |ws|
  {
    if ws != [] {
      FirstBlock(ws);
      HasEncoded(ws[1..], t);
      hide Encode, HasBit;
      assert HasType(Encode(ws), t)
             == if ws[0].num == t / 256 then HasBit(ws[0].bits, t % 256) else HasType(Encode(ws[1..]), t);
    }
  }

  function WindowTypes(ws: seq<Window>): (r: seq<nat>) {
    if ws == [] then [] else BlockTypes(ws[0].bits, ws[0].num as int * 256) + WindowTypes(ws[1..])
  }

  lemma {:induction false} ListEncoded(ws: seq<Window>)
    requires Sized(ws)
    ensures ListTypes(Encode(ws)) == Whole(WindowTypes(ws))
    decreases |ws|
  {
    if ws != [] {
      FirstBlock(ws);
      ListEncoded(ws[1..]);
      hide Encode, BlockTypes;
      assert Encode(ws) != [];
    }
  }

  /** Strictly ascending, all from `lo` up to `hi`. */
  predicate Between(types: seq<nat>, lo: nat, hi: nat) {
    && (forall i :: 0 <= i < |types| ==> lo <= types[i] < hi)
    && (forall i, j :: 0 <= i < j < |types| ==> types[i] < types[j])
  }

  lemma BetweenJoin(a: seq<nat>, b: seq<nat>, lo: nat, mid: nat, hi: nat)
    requires Between(a, lo, mid) && Between(b, mid, hi) && lo <= mid <= hi
    ensures Between(a + b, lo, hi)
  {
  }

  lemma {:induction false} OctetInOrder(b: byte, k: nat, base: nat)
    requires k <= 8
    ensures Between(OctetTypes(b, k, base), base + k, base + 8)
    decreases 8 - k
  {
    hide BitSet;
    if k < 8 {
      OctetInOrder(b, k + 1, base);
      if BitSet(b, k) {
        BetweenJoin([base + k], OctetTypes(b, k + 1, base), base + k, base + k + 1, base + 8);
      }
    }
  }

  lemma {:induction false} OctetListed(b: byte, k: nat, base: nat, t: nat)
    requires k <= 8
    ensures t in OctetTypes(b, k, base) <==> base + k <= t < base + 8 && BitSet(b, t - base)
    decreases 8 - k
  {
    hide BitSet;
    if k < 8 {
      OctetListed(b, k + 1, base, t);
      if BitSet(b, k) {
        InEither(t, [base + k], OctetTypes(b, k + 1, base));
      }
    }
  }

  lemma {:induction false} BlockInOrder(bits: bytes, base: nat)
    ensures Between(BlockTypes(bits, base), base, base + 8 * |bits|)
    decreases |bits|
  {
    hide OctetTypes, Between;
    if bits == [] {
      NoneBetween(base, base);
    } else {
      OctetInOrder(bits[0], 0, base);
      BlockInOrder(bits[1..], base + 8);
      BetweenJoin(OctetTypes(bits[0], 0, base), BlockTypes(bits[1..], base + 8), base, base + 8, base + 8 * |bits|);
    }
  }

  lemma NoneBetween(lo: nat, hi: nat)
    ensures Between([], lo, hi)
  {
  }

  lemma InEither(t: nat, a: seq<nat>, b: seq<nat>)
    ensures t in a + b <==> t in a || t in b
  {
  }

  /** Whether `t` is a bit of the first octet, or of those after it. */
  lemma SplitOctets(bits: bytes, base: nat, t: nat)
    requires bits != []
    ensures base <= t && HasBit(bits, t - base)
            <==> (base <= t < base + 8 && BitSet(bits[0], t - base)) || (base + 8 <= t && HasBit(bits[1..], t - base - 8))
  {
    hide BitSet;
    if t >= base + 8 {
      NextOctet(bits, t - base);
    }
  }

  lemma {:induction false} BlockListed(bits: bytes, base: nat, t: nat)
    ensures t in BlockTypes(bits, base) <==> base <= t && HasBit(bits, t - base)
    decreases |bits|
  {
    if bits != [] {
      var first, rest := OctetTypes(bits[0], 0, base), BlockTypes(bits[1..], base + 8);
      assert BlockTypes(bits, base) == first + rest;
      hide BitSet, OctetTypes, HasBit, BlockTypes;
      InEither(t, first, rest);
      OctetListed(bits[0], 0, base, t);
      BlockListed(bits[1..], base + 8, t);
      SplitOctets(bits, base, t);
    }
  }

  lemma NextOctet(bits: bytes, bit: nat)
    requires bits != [] && bit >= 8
    ensures HasBit(bits, bit) <==> HasBit(bits[1..], bit - 8)
  {
    assert (bit - 8) / 8 == bit / 8 - 1 && (bit - 8) % 8 == bit % 8;
  }

  lemma {:induction false} AscendMissing(ws: seq<Window>, lo: nat, num: nat)
    requires Ascend(ws, lo) && num < lo
    ensures BitsFor(ws, num) == []
  {
    if ws != [] {
      AscendMissing(ws[1..], ws[0].num + 1, num);
    }
  }

  lemma InBlock(w: Window, t: u16)
    requires |w.bits| <= 32
    ensures w.num as int * 256 <= t && HasBit(w.bits, t - w.num as int * 256)
            <==> t / 256 == w.num && HasBit(w.bits, t % 256)
  {
    var base := w.num as int * 256;
    if base <= t < base + 256 {
      assert t / 256 == w.num && t % 256 == t - base;
    } else if t >= base + 256 {
      assert (t - base) / 8 >= 32;
    }
  }

  lemma {:induction false} WindowsListed(ws: seq<Window>, lo: nat, t: u16)
    requires Ascend(ws, lo) && Sized(ws) && lo <= 256
    ensures t in WindowTypes(ws) <==> Holds(ws, t)
    decreases |ws|
  {
    if ws == [] {
      NotEmptyBit(t);
    } else {
      var num: nat := ws[0].num;
      var first, rest := BlockTypes(ws[0].bits, num * 256), WindowTypes(ws[1..]);
      assert WindowTypes(ws) == first + rest;
      AscendMissing(ws[1..], num + 1, num);
      hide BlockTypes, WindowTypes, HasBit, Holds;
      InEither(t, first, rest);
      WindowsListed(ws[1..], num + 1, t);
      BlockListed(ws[0].bits, num * 256, t);
      InBlock(ws[0], t);
      SplitWindows(ws, t);
    }
  }

  /** Whether `t` is in the first window, or in those after it, which have other numbers. */
  lemma SplitWindows(ws: seq<Window>, t: u16)
    requires ws != [] && BitsFor(ws[1..], ws[0].num) == []
    ensures Holds(ws, t) <==> (t / 256 == ws[0].num && HasBit(ws[0].bits, t % 256)) || Holds(ws[1..], t)
  {
    hide BitSet;
  }

  lemma {:induction false} WindowsInOrder(ws: seq<Window>, lo: nat)
    requires Ascend(ws, lo) && Sized(ws) && lo <= 256
    ensures Between(WindowTypes(ws), lo * 256, TWO_16)
    decreases |ws|
  {
    hide Between, BlockTypes;
    if ws == [] {
      NoneBetween(lo * 256, TWO_16);
    } else {
      var num := ws[0].num as int;
      BlockInOrder(ws[0].bits, num * 256);
      Widen(BlockTypes(ws[0].bits, num * 256), num * 256, num * 256 + 8 * |ws[0].bits|, lo * 256, (num + 1) * 256);
      WindowsInOrder(ws[1..], num + 1);
      BetweenJoin(BlockTypes(ws[0].bits, num * 256), WindowTypes(ws[1..]), lo * 256, (num + 1) * 256, TWO_16);
    }
  }

  lemma Widen(types: seq<nat>, lo: nat, hi: nat, lo': nat, hi': nat)
    requires Between(types, lo, hi) && lo' <= lo && hi <= hi'
    ensures Between(types, lo', hi')
  {
  }

  function BuiltWindows(types: seq<u16>): (r: seq<Window>)
    ensures Sized(r) && Ascend(r, 0)
  {
    PutAllHolds([], types, 0);
    PutAllOneEach([], types);
    SortAscends(PutAll([], types));
    SortWindows(PutAll([], types))
  }

  /** `build_type_bitmap`. */
  function BuildBitmap(types: seq<u16>): bytes {
    Encode(BuiltWindows(types))
  }

  /** A bitmap built from any list of types reads back as those types, ascending and
      without repeats, and testing a type is asking whether it was in the list. */
  lemma BuiltReads(types: seq<u16>, t: u16)
    ensures var listed := ListTypes(BuildBitmap(types));
            && listed.Whole? && Between(listed.types, 0, TWO_16)
            && (t in listed.types <==> t in types)
    ensures HasType(BuildBitmap(types), t) <==> t in types
  {
    hide Encode, HasBit, WindowTypes, Between, SortWindows, PutAll, Sized, HasType, ListTypes;
    var ws := BuiltWindows(types);
    assert Sized([]) by { EmptySized(); }
    PutAllHolds([], types, t);
    SortIs(PutAll([], types), t / 256);
    NotEmptyBit(t);
    HasEncoded(ws, t);
    ListEncoded(ws);
    WindowsListed(ws, 0, t);
    WindowsInOrder(ws, 0);
  }

  lemma EmptySized()
    ensures Sized([])
  {
  }

  lemma NotEmptyBit(t: u16)
    ensures !Holds([], t)
  {
  }

  /** On octets that are what their own types build, testing and listing agree. */
  lemma RebuiltAgrees(bitmap: bytes, types: seq<u16>, t: u16)
    requires ListTypes(bitmap) == Whole(types) && BuildBitmap(types) == bitmap
    ensures HasType(bitmap, t) <==> t in types
  {
    BuiltReads(types, t);
  }

  // ---- Any octets

  /** What reading stops at: nothing, or a window cut short, of no octets or over 32. */
  predicate Torn(rest: bytes) {
    |rest| < 2 || rest[1] == 0 || rest[1] > 32 || |rest| < 2 + rest[1]
  }

  /** All octets are windows up to the end or up to such a place. */
  lemma {:induction false} EveryBitmap(bitmap: bytes) returns (ws: seq<Window>, rest: bytes)
    ensures Sized(ws) && Torn(rest) && bitmap == Encode(ws) + rest
    decreases |bitmap|
  {
    if Torn(bitmap) {
      ws, rest := [], bitmap;
      assert Encode([]) + bitmap == bitmap;
    } else {
      var len := bitmap[1];
      var w := Window(bitmap[0], bitmap[2..2 + len]);
      var more, torn := EveryBitmap(bitmap[2 + len..]);
      ws, rest := [w] + more, torn;
      hide Encode;
      assert bitmap == [bitmap[0], bitmap[1]] + bitmap[2..2 + len] + bitmap[2 + len..];
      EncodeMore(w, more);
      Assoc([w.num, |w.bits|] + w.bits, Encode(more), torn);
    }
  }

  lemma EncodeMore(w: Window, more: seq<Window>)
    requires Sized(more) && 0 < |w.bits| <= 32
    ensures Sized([w] + more) && Encode([w] + more) == [w.num, |w.bits|] + w.bits + Encode(more)
  {
    assert ([w] + more)[1..] == more;
  }

  /** Testing and listing, on any octets: the windows before the damage count, the first
      of each number for testing and all of them for listing. */
  lemma {:induction false} ReadsWindows(ws: seq<Window>, rest: bytes, t: u16)
    requires Sized(ws) && Torn(rest)
    ensures HasType(Encode(ws) + rest, t) <==> Holds(ws, t)
    ensures ListTypes(Encode(ws) + rest)
            == if rest == [] then Whole(WindowTypes(ws)) else Damaged(WindowTypes(ws))
    decreases |ws|
  {
    if ws == [] {
      assert Encode(ws) + rest == rest;
    } else {
      FirstWindow(ws, rest);
      ReadsWindows(ws[1..], rest, t);
      hide Encode, HasBit, BlockTypes;
    }
  }

  lemma FirstWindow(ws: seq<Window>, rest: bytes)
    requires Sized(ws) && ws != []
    ensures var b, n := Encode(ws) + rest, |ws[0].bits|;
            && |b| >= 2 + n && b[0] == ws[0].num && b[1] == n && 0 < n <= 32
            && b[2..2 + n] == ws[0].bits && b[2 + n..] == Encode(ws[1..]) + rest
  {
    var head: bytes := [ws[0].num, |ws[0].bits|] + ws[0].bits;
    assert Encode(ws) + rest == head + (Encode(ws[1..]) + rest);
  }

  /** The weights of an octet's bits, the highest first. */
  const WEIGHTS := [128, 64, 32, 16, 8, 4, 2, 1]

  lemma BitWeights(b: byte, k: nat)
    requires k < 8
    ensures BitSet(b, k) <==> b / WEIGHTS[k] % 2 == 1
  {
    PlaceWeight(b, 7 - k);
  }

  lemma {:induction false} PlaceWeight(n: nat, p: nat)
    requires p < 8
    ensures PlaceSet(n, p) <==> n / WEIGHTS[7 - p] % 2 == 1
    decreases p
  {
    if p > 0 {
      PlaceWeight(n / 2, p - 1);
      HalfWeight(n, p);
    }
  }

  lemma HalfWeight(n: nat, p: nat)
    requires 0 < p < 8
    ensures n / 2 / WEIGHTS[8 - p] == n / WEIGHTS[7 - p]
  {
    match p
    case 1 => assert n / 2 / 1 == n / 2;
    case 2 => assert n / 2 / 2 == n / 4;
    case 3 => assert n / 2 / 4 == n / 8;
    case 4 => assert n / 2 / 8 == n / 16;
    case 5 => assert n / 2 / 16 == n / 32;
    case 6 => assert n / 2 / 32 == n / 64;
    case _ => assert n / 2 / 64 == n / 128;
  }

  lemma SetInZero(k: nat)
    requires k < 8
    ensures SetBit(0, k) == WEIGHTS[k]
  {
    SetPlaceZero(7 - k);
  }

  lemma {:induction false} SetPlaceZero(p: nat)
    requires p < 8
    ensures SetPlace(0, p) == WEIGHTS[7 - p]
    decreases p
  {
    if p > 0 {
      SetPlaceZero(p - 1);
    }
  }

  /** One type on the wire: its window, how many octets follow, and in the last of them
      its bit, the highest first. */
  lemma OneType(t: u16)
    ensures BuildBitmap([t]) == [t / 256, t % 256 / 8 + 1] + seq(t % 256 / 8, _ => 0) + [WEIGHTS[t % 8]]
  {
    hide SetBit;
    var bit := t % 256;
    var room: bytes := seq(bit / 8 + 1, _ => 0);
    SetInZero(bit % 8);
    assert [] + room == room;
    assert bit % 8 == t % 8;
    assert SetIn([], bit) == room[bit / 8 := WEIGHTS[t % 8]] == seq(bit / 8, _ => 0) + [WEIGHTS[t % 8]];
    var w := Window(t / 256, SetIn([], bit));
    assert [t][1..] == [] && PutAll([], [t]) == [w];
    assert [w][1..] == [] && SortWindows([w]) == [w];
    assert Encode([w]) == [w.num, |w.bits|] + w.bits + [];
  }

  // ---- The loops of `build_type_bitmap`

  lemma {:induction false} PutAt(ws: seq<Window>, t: u16, i: nat)
    requires i <= |ws| && (forall j :: 0 <= j < i ==> ws[j].num != t / 256) && (i < |ws| ==> ws[i].num == t / 256)
    ensures PutType(ws, t)
            == if i == |ws| then ws + [Window(t / 256, SetIn([], t % 256))]
               else ws[i := Window(t / 256, SetIn(ws[i].bits, t % 256))]
    decreases i
  {
    hide SetIn;
    if ws != [] && i > 0 {
      assert forall j :: 0 <= j < i - 1 ==> ws[1..][j].num == ws[j + 1].num;
      PutAt(ws[1..], t, i - 1);
      assert ws == [ws[0]] + ws[1..];
    }
  }

  method EnterTypes(types: seq<u16>) returns (ws: seq<Window>)
    ensures ws == PutAll([], types)
  {
    hide SetIn;
    ws := [];
    var n := 0;
    assert types[0..] == types;
    while n < |types|
      invariant n <= |types| && PutAll([], types) == PutAll(ws, types[n..])
    {
      assert types[n..][1..] == types[n + 1..];
      var t := types[n];
      var i := 0;
      while i < |ws| && ws[i].num != t / 256
        invariant i <= |ws| && forall j :: 0 <= j < i ==> ws[j].num != t / 256
      {
        i := i + 1;
      }
      PutAt(ws, t, i);
      ghost var put := PutType(ws, t);
      if i == |ws| {
        ws := ws + [Window(t / 256, [])];
      }
      ws := ws[i := Window(t / 256, SetIn(ws[i].bits, t % 256))];
      assert ws == put;
      n := n + 1;
    }
  }

  method WriteWindows(windows: seq<Window>) returns (out: bytes)
    requires Sized(windows)
    ensures out == Encode(windows)
  {
    out := [];
    var i := 0;
    assert windows[0..] == windows;
    while i < |windows|
      invariant i <= |windows| && Sized(windows[i..])
      invariant out + Encode(windows[i..]) == Encode(windows)
    {
      var w := windows[i];
      assert windows[i..][1..] == windows[i + 1..];
      EncodeFirst(out, windows[i..]);
      out := out + [w.num];
      out := out + [|w.bits|];
      out := out + w.bits;
      i := i + 1;
    }
    assert out + [] == out;
  }

  method BuildTypeBitmap(types: seq<u16>) returns (out: bytes)
    ensures out == BuildBitmap(types)
  {
    hide SortWindows, PutAll, Sized, Encode;
    var entered := EnterTypes(types);
    ghost var built := BuiltWindows(types);
    out := WriteWindows(SortWindows(entered));
  }

  lemma EncodeFirst(out: bytes, ws: seq<Window>)
    requires Sized(ws) && ws != []
    ensures out + [ws[0].num] + [|ws[0].bits|] + ws[0].bits + Encode(ws[1..]) == out + Encode(ws)
  {
    assert [ws[0].num] + [|ws[0].bits|] == [ws[0].num, |ws[0].bits|];
  }
}
