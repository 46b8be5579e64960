/** The `YYYYMMDDHHmmSS` form of an RRSIG's times (RFC 4034 section 3.2), and the
    calendar under it. */
module DnssecTime {
  import opened Octets

  // ---- The calendar

  predicate IsLeap(year: nat) {
    (year % 4 == 0 && year % 100 != 0) || year % 400 == 0
  }

  function DaysInMonth(month: nat, year: nat): (r: Option<nat>)
    ensures r.Some? <==> 1 <= month <= 12
    ensures r.Some? ==> 28 <= r.value <= 31
  {
    match month
    case 1 | 3 | 5 | 7 | 8 | 10 | 12 => Some(31)
    case 4 | 6 | 9 | 11 => Some(30)
    case 2 => Some(if IsLeap(year) then 29 else 28)
    case _ => None
  }

  function YearLength(year: nat): nat {
    if IsLeap(year) then 366 else 365
  }

  function MonthLength(month: nat, year: nat): nat
    requires 1 <= month <= 12
  {
    DaysInMonth(month, year).value
  }

  /** The days of the years from `from` up to `until`. */
  function YearDays(from: nat, until: nat): nat
    requires from <= until
    decreases until - from
  {
    if from == until then 0 else YearLength(from) + YearDays(from + 1, until)
  }

  /** The days of the months from `from` up to `until`. */
  function MonthDays(from: nat, until: nat, year: nat): nat
    requires 1 <= from <= until <= 13
    decreases until - from
  {
    if from == until then 0 else MonthLength(from, year) + MonthDays(from + 1, until, year)
  }

  /** The months of a year are its days. */
  lemma WholeYear(year: nat)
    ensures MonthDays(1, 13, year) == YearLength(year)
  {
    assert MonthDays(9, 13, year) == 30 + 31 + 30 + 31;
    assert MonthDays(5, 13, year) == 31 + 30 + 31 + 31 + MonthDays(9, 13, year);
    assert MonthDays(1, 13, year) == 31 + MonthLength(2, year) + 31 + 30 + MonthDays(5, 13, year);
  }

  // ---- A day's year, and the day in it

  /** The year loop of `format_dnssec_time`: the year, and the days left in it. */
  function YearOf(days: nat, year: nat): (r: (nat, nat))
    ensures year <= r.0 && r.1 < YearLength(r.0) && YearDays(year, r.0) + r.1 == days
    decreases days
  {
    if days < YearLength(year) then (year, days) else YearOf(days - YearLength(year), year + 1)
  }

  lemma {:induction false} YearOfUnique(year: nat, y: nat, d: nat)
    requires year <= y && d < YearLength(y)
    ensures YearOf(YearDays(year, y) + d, year) == (y, d)
    decreases y - year
  {
    if year < y {
      YearOfUnique(year + 1, y, d);
    }
  }

  /** The month loop: the month, and the days left in it. */
  function MonthOf(days: nat, month: nat, year: nat): (r: (nat, nat))
    requires 1 <= month <= 12 && days < MonthDays(month, 13, year)
    ensures month <= r.0 <= 12 && r.1 < MonthLength(r.0, year) && MonthDays(month, r.0, year) + r.1 == days
    decreases 12 - month
  {
    if month == 12 || days < MonthLength(month, year) then (month, days)
    else MonthOf(days - MonthLength(month, year), month + 1, year)
  }

  lemma {:induction false} MonthDaysLess(from: nat, m: nat, year: nat)
    requires 1 <= from <= m <= 12
    ensures MonthDays(from, m, year) + MonthLength(m, year) <= MonthDays(from, 13, year)
    decreases m - from
  {
    if from < m {
      MonthDaysLess(from + 1, m, year);
    }
  }

  lemma {:induction false} MonthOfUnique(month: nat, m: nat, d: nat, year: nat)
    requires 1 <= month <= m <= 12 && d < MonthLength(m, year)
    ensures MonthDays(month, m, year) + d < MonthDays(month, 13, year)
    ensures MonthOf(MonthDays(month, m, year) + d, month, year) == (m, d)
    decreases m - month
  {
    hide DaysInMonth, IsLeap, MonthLength;
    MonthDaysLess(month, m, year);
    if month < m {
      MonthOfUnique(month + 1, m, d, year);
    }
  }

  // ---- Digits

  predicate IsDigits(s: bytes) {
    forall i :: 0 <= i < |s| ==> 48 <= s[i] <= 57
  }

  function Pow10(n: nat): (r: nat)
    ensures r > 0
  {
    if n == 0 then 1 else 10 * Pow10(n - 1)
  }

  function Value(s: bytes): (r: nat)
    requires IsDigits(s)
    ensures r < Pow10(|s|)
  {
    if s == [] then 0 else Value(s[..|s| - 1]) * 10 + (s[|s| - 1] as int - 48)
  }

  /** The last `width` digits of `n`, all of them when it has no more. */
  function Pad(n: nat, width: nat): (r: bytes)
    ensures |r| == width && IsDigits(r)
  {
    if width == 0 then [] else Pad(n / 10, width - 1) + [48 + n % 10]
  }

  lemma {:induction false} ValuePad(n: nat, width: nat)
    requires n < Pow10(width)
    ensures Value(Pad(n, width)) == n
    decreases width
  {
    if width > 0 {
      var s := Pad(n, width);
      assert s[..width - 1] == Pad(n / 10, width - 1);
      ValuePad(n / 10, width - 1);
    }
  }

  lemma {:induction false} PadValue(s: bytes)
    requires IsDigits(s)
    ensures Pad(Value(s), |s|) == s
    decreases |s|
  {
    if s != [] {
      var init := s[..|s| - 1];
      PadValue(init);
      assert Value(s) / 10 == Value(init) && Value(s) % 10 == s[|s| - 1] as int - 48;
      assert s == init + [s[|s| - 1]];
    }
  }

  // ---- Instants and dates

  const DAY := 86400

  datatype Civil = Civil(year: nat, month: nat, day: nat, hour: nat, minute: nat, second: nat)

  predicate IsTime(c: Civil) {
    && c.year >= 1970 && DaysInMonth(c.month, c.year).Some?
    && 1 <= c.day <= DaysInMonth(c.month, c.year).value
    && c.hour <= 23 && c.minute <= 59 && c.second <= 59
  }

  function EpochOf(c: Civil): nat
    requires IsTime(c)
  {
    (YearDays(1970, c.year) + MonthDays(1, c.month, c.year) + (c.day - 1)) * DAY
    + c.hour * 3600 + c.minute * 60 + c.second
  }

  function CivilOf(epoch: nat): (c: Civil)
    ensures IsTime(c) && EpochOf(c) == epoch
  {
    var y := YearOf(epoch / DAY, 1970);
    WholeYear(y.0);
    var m := MonthOf(y.1, 1, y.0);
    var s := epoch % DAY;
    Clock(s);
    Civil(y.0, m.0, m.1 + 1, s / 3600, s / 60 % 60, s % 60)
  }

  lemma Clock(s: nat)
    requires s < DAY
    ensures s / 3600 <= 23 && s / 3600 * 3600 + s / 60 % 60 * 60 + s % 60 == s
  {
    assert s / 3600 == s / 60 / 60;
  }

  lemma ClockBack(h: nat, m: nat, s: nat)
    requires h <= 23 && m <= 59 && s <= 59
    ensures var n := h * 3600 + m * 60 + s; n < DAY && n / 3600 == h && n / 60 % 60 == m && n % 60 == s
  {
    var n := h * 3600 + m * 60 + s;
    assert n / 60 == h * 60 + m;
  }

  /** Dates and instants are one to one, across leap years and month ends. */
  lemma CivilBack(c: Civil)
    requires IsTime(c)
    ensures CivilOf(EpochOf(c)) == c
  {
    hide IsLeap, DaysInMonth, YearLength, MonthDays, YearDays, YearOf, MonthOf;
    var inYear := MonthDays(1, c.month, c.year) + (c.day - 1);
    var days, clock := YearDays(1970, c.year) + inYear, c.hour * 3600 + c.minute * 60 + c.second;
    ClockBack(c.hour, c.minute, c.second);
    WholeYear(c.year);
    MonthOfUnique(1, c.month, c.day - 1, c.year);
    YearOfUnique(1970, c.year, inYear);
    assert EpochOf(c) == days * DAY + clock;
    assert EpochOf(c) / DAY == days && EpochOf(c) % DAY == clock;
  }

  // ---- The calendar in one formula

  /** Leap years before `year`. */
  function LeapsBefore(year: nat): int
    requires year > 0
  {
    (year - 1) / 4 - (year - 1) / 100 + (year - 1) / 400
  }

  lemma OneMoreYear(year: nat)
    requires year > 0
    ensures LeapsBefore(year + 1) == LeapsBefore(year) + if IsLeap(year) then 1 else 0
  {
    assert year / 4 - (year - 1) / 4 == if year % 4 == 0 then 1 else 0;
    assert year / 100 - (year - 1) / 100 == if year % 100 == 0 then 1 else 0;
    assert year / 400 - (year - 1) / 400 == if year % 400 == 0 then 1 else 0;
  }

  lemma {:induction false} YearsByLeaps(from: nat, until: nat)
    requires 0 < from <= until
    ensures YearDays(from, until) == 365 * (until - from) + LeapsBefore(until) - LeapsBefore(from)
    decreases until - from
  {
    hide IsLeap, LeapsBefore;
    if from < until {
      OneMoreYear(from);
      YearsByLeaps(from + 1, until);
    }
  }

  lemma {:induction false} MonthDaysLast(from: nat, until: nat, year: nat)
    requires 1 <= from <= until <= 12
    ensures MonthDays(from, until + 1, year) == MonthDays(from, until, year) + MonthLength(until, year)
    decreases until - from
  {
    hide DaysInMonth, MonthLength;
    if from < until {
      MonthDaysLast(from + 1, until, year);
    }
  }

  /** The days before a month's first. */
  function BeforeMonth(month: nat, year: nat): nat
    requires 1 <= month <= 12
  {
    if month <= 2 then 31 * (month - 1)
    else (153 * (month - 3) + 2) / 5 + 59 + if IsLeap(year) then 1 else 0
  }

  lemma MonthAdds(month: nat, year: nat)
    requires 1 <= month <= 11
    ensures BeforeMonth(month + 1, year) == BeforeMonth(month, year) + MonthLength(month, year)
  {
    hide IsLeap;
  }

  lemma {:induction false} MonthStart(month: nat, year: nat)
    requires 1 <= month <= 12
    ensures MonthDays(1, month, year) == BeforeMonth(month, year)
    decreases month
  {
    hide MonthLength, BeforeMonth;
    if month > 1 {
      MonthStart(month - 1, year);
      MonthDaysLast(1, month - 1, year);
      MonthAdds(month - 1, year);
    } else {
      FirstMonth(year);
    }
  }

  lemma FirstMonth(year: nat)
    ensures BeforeMonth(1, year) == 0
  {
  }

  /** Days from 1970-01-01 to a date of the Gregorian calendar, in years that begin in
      March, so that a leap day is the last of its year. */
  function DayNumber(year: nat, month: nat, day: nat): int {
    var y := if month <= 2 then year - 1 else year;
    var m := (month + 9) % 12;
    365 * y + y / 4 - y / 100 + y / 400 + (153 * m + 2) / 5 + day - 1 - 719468
  }

  /** The sum over years and months is that number. */
  lemma DaysByFormula(year: nat, month: nat, day: nat)
    requires year >= 1970 && 1 <= month <= 12 && day >= 1
    ensures YearDays(1970, year) + MonthDays(1, month, year) + (day - 1) == DayNumber(year, month, day)
  {
    hide IsLeap, YearDays, MonthDays;
    YearsByLeaps(1970, year);
    MonthStart(month, year);
    OneMoreYear(year);
    assert (month + 9) % 12 == if month <= 2 then month + 9 else month - 3;
  }

  /** The instant of a date and time, in closed form. */
  lemma EpochByFormula(c: Civil)
    requires IsTime(c)
    ensures EpochOf(c) == DayNumber(c.year, c.month, c.day) * 86400 + c.hour * 3600 + c.minute * 60 + c.second
  {
    hide DayNumber, YearDays, MonthDays, DaysInMonth;
    DaysByFormula(c.year, c.month, c.day);
  }

  /** The first of the month after. */
  function NextFirst(year: nat, month: nat): int {
    if month == 12 then DayNumber(year + 1, 1, 1) else DayNumber(year, month + 1, 1)
  }

  lemma MonthByFormula(year: nat, month: nat)
    requires year >= 1970 && 1 <= month <= 12
    ensures NextFirst(year, month) == DayNumber(year, month, 1) + MonthLength(month, year)
  {
    hide DayNumber, YearDays, MonthDays, DaysInMonth, YearLength;
    DaysByFormula(year, month, 1);
    if month == 12 {
      DaysByFormula(year + 1, 1, 1);
      YearDaysLast(1970, year);
      WholeYear(year);
      MonthDaysLast(1, 12, year);
      NoMonths(year + 1);
    } else {
      DaysByFormula(year, month + 1, 1);
      MonthDaysLast(1, month, year);
    }
  }

  lemma NoMonths(year: nat)
    ensures MonthDays(1, 1, year) == 0
  {
  }

  lemma {:induction false} YearDaysLast(from: nat, until: nat)
    requires from <= until
    ensures YearDays(from, until + 1) == YearDays(from, until) + YearLength(until)
    decreases until - from
  {
    hide YearLength;
    if from < until {
      YearDaysLast(from + 1, until);
    }
  }

  lemma DayMoves(year: nat, month: nat, day: nat)
    ensures DayNumber(year, month, day) == DayNumber(year, month, 1) + day - 1
  {
  }

  /** What names a time: a month of the twelve, a day before the next month's first, and
      a clock below 24:60:60. */
  lemma IsTimeIff(c: Civil)
    ensures IsTime(c) <==> && c.year >= 1970 && 1 <= c.month <= 12
                           && 1 <= c.day && DayNumber(c.year, c.month, c.day) < NextFirst(c.year, c.month)
                           && c.hour < 24 && c.minute < 60 && c.second < 60
  {
    hide DayNumber, NextFirst;
    DayMoves(c.year, c.month, c.day);
    if c.year >= 1970 && 1 <= c.month <= 12 {
      MonthByFormula(c.year, c.month);
    }
  }

  lemma {:induction false} YearsAreLong(from: nat, until: nat)
    requires from <= until
    ensures YearDays(from, until) >= 365 * (until - from)
    decreases until - from
  {
    if from < until {
      YearsAreLong(from + 1, until);
    }
  }

  /** A 32-bit instant falls in a four-digit year. */
  lemma FourDigitYear(epoch: u32)
    ensures 1970 <= CivilOf(epoch).year <= 2107
  {
    var c := CivilOf(epoch);
    YearsAreLong(1970, c.year);
    assert EpochOf(c) >= YearDays(1970, c.year) * DAY;
  }

  // ---- Text

  function Text(c: Civil): (r: bytes)
    ensures |r| == 14 && IsDigits(r)
  {
    Pad(c.year, 4) + Pad(c.month, 2) + Pad(c.day, 2) + Pad(c.hour, 2) + Pad(c.minute, 2) + Pad(c.second, 2)
  }

  predicate FitsText(c: Civil) {
    c.year < 10000 && c.month < 100 && c.day < 100 && c.hour < 100 && c.minute < 100 && c.second < 100
  }

  function Fields(text: bytes): (c: Civil)
    requires |text| == 14 && IsDigits(text)
  {
    Civil(Value(text[0..4]), Value(text[4..6]), Value(text[6..8]), Value(text[8..10]), Value(text[10..12]),
          Value(text[12..14]))
  }

  lemma FieldsBack(c: Civil)
    requires FitsText(c)
    ensures Fields(Text(c)) == c
  {
    hide Value, Pad;
    var t := Text(c);
    assert t[0..4] == Pad(c.year, 4) && t[4..6] == Pad(c.month, 2) && t[6..8] == Pad(c.day, 2);
    assert t[8..10] == Pad(c.hour, 2) && t[10..12] == Pad(c.minute, 2) && t[12..14] == Pad(c.second, 2);
    assert Pow10(2) == 100 && Pow10(4) == 10000;
    ValuePad(c.year, 4);
    ValuePad(c.month, 2);
    ValuePad(c.day, 2);
    ValuePad(c.hour, 2);
    ValuePad(c.minute, 2);
    ValuePad(c.second, 2);
  }

  lemma TextBack(text: bytes)
    requires |text| == 14 && IsDigits(text)
    ensures Text(Fields(text)) == text
  {
    hide Value, Pad;
    PadValue(text[0..4]);
    PadValue(text[4..6]);
    PadValue(text[6..8]);
    PadValue(text[8..10]);
    PadValue(text[10..12]);
    PadValue(text[12..14]);
  }

  /** `str::parse::<u32>`: an optional plus sign, then at least one digit. */
  function ParseBare(text: bytes): (r: Option<u32>) {
    var digits := if text != [] && text[0] == 43 then text[1..] else text;
    if digits == [] || !IsDigits(digits) || Value(digits) >= TWO_32 then None else Some(Value(digits))
  }

  /** `parse_dnssec_time`: a bare epoch, or fourteen digits that name a time. */
  function ParseTime(text: bytes): (r: Option<u32>) {
    if ParseBare(text).Some? then ParseBare(text)
    else if |text| != 14 || !IsDigits(text) then None
    else
      var c := Fields(text);
      if !IsTime(c) || EpochOf(c) >= TWO_32 then None else Some(EpochOf(c))
  }

  /** `format_dnssec_time`. */
  function FormatTime(epoch: u32): bytes {
    Text(CivilOf(epoch))
  }

  lemma ValueLast(s: bytes)
    requires IsDigits(s) && s != []
    ensures Value(s) >= Value(s[..|s| - 1]) * 10
  {
  }

  lemma PowStep(n: nat)
    requires n > 0
    ensures Pow10(n) == 10 * Pow10(n - 1)
  {
  }

  lemma {:induction false} ValueLeads(a: bytes, b: bytes)
    requires IsDigits(a) && IsDigits(b)
    ensures IsDigits(a + b) && Value(a + b) >= Value(a) * Pow10(|b|)
    decreases |b|
  {
    if b == [] {
      assert a + b == a;
    } else {
      hide Value, Pow10;
      var init := b[..|b| - 1];
      ValueLeads(a, init);
      assert (a + b)[..|a + b| - 1] == a + init;
      ValueLast(a + b);
      PowStep(|b|);
      TimesTen(Value(a), Pow10(|init|), Pow10(|b|));
    }
  }

  lemma TimesTen(v: nat, p: nat, q: nat)
    requires q == 10 * p
    ensures v * q == v * p * 10
  {
  }

  /** Fourteen digits are a bare epoch only with the year 0000. */
  lemma NotBare(text: bytes)
    requires |text| == 14 && IsDigits(text) && Value(text[0..4]) > 0
    ensures ParseBare(text).None?
  {
    hide Value, Pow10;
    assert text == text[0..4] + text[4..14];
    ValueLeads(text[0..4], text[4..14]);
    TenDigits();
  }

  lemma TenDigits()
    ensures Pow10(10) == 10_000_000_000
  {
    assert Pow10(5) == 100_000;
    assert Pow10(10) == 10 * (10 * (10 * (10 * (10 * Pow10(5)))));
  }

  /** A bare epoch is decimal digits, with or without a plus sign, below 2^32. */
  lemma BareIff(text: bytes, n: u32)
    ensures ParseBare(text) == Some(n)
            <==> var digits := if text != [] && text[0] == 43 then text[1..] else text;
                 digits != [] && IsDigits(digits) && Value(digits) == n
  {
    hide Value;
  }

  function DigitAt(text: bytes, i: nat): int
    requires i < |text|
  {
    text[i] as int - 48
  }

  lemma TwoDigits(s: bytes)
    requires IsDigits(s) && |s| == 2
    ensures Value(s) == DigitAt(s, 0) * 10 + DigitAt(s, 1)
  {
    assert s[..1][..0] == [] && Value(s[..1]) == s[0] as int - 48;
  }

  lemma FourDigits(s: bytes)
    requires IsDigits(s) && |s| == 4
    ensures Value(s) == DigitAt(s, 0) * 1000 + DigitAt(s, 1) * 100 + DigitAt(s, 2) * 10 + DigitAt(s, 3)
  {
    TwoDigits(s[..2]);
    assert s[..3][..2] == s[..2];
    assert Value(s[..3]) == Value(s[..2]) * 10 + (s[2] as int - 48);
  }

  /** The fields of `YYYYMMDDHHmmSS`, digit by digit. */
  lemma FieldsAre(text: bytes)
    requires |text| == 14 && IsDigits(text)
    ensures var c := Fields(text);
            && c.year == DigitAt(text, 0) * 1000 + DigitAt(text, 1) * 100 + DigitAt(text, 2) * 10 + DigitAt(text, 3)
            && c.month == DigitAt(text, 4) * 10 + DigitAt(text, 5) && c.day == DigitAt(text, 6) * 10 + DigitAt(text, 7)
            && c.hour == DigitAt(text, 8) * 10 + DigitAt(text, 9) && c.minute == DigitAt(text, 10) * 10 + DigitAt(text, 11)
            && c.second == DigitAt(text, 12) * 10 + DigitAt(text, 13)
  {
    hide Value;
    FourDigits(text[0..4]);
    TwoDigits(text[4..6]);
    TwoDigits(text[6..8]);
    TwoDigits(text[8..10]);
    TwoDigits(text[10..12]);
    TwoDigits(text[12..14]);
  }

  /** Fourteen digits with a year above 0000 parse exactly when they name a time from
      1970 on that 32 bits hold, and to that instant; `FieldsAre` says which digits are
      which field. */
  lemma ParseExact(text: bytes)
    requires |text| == 14 && IsDigits(text) && Fields(text).year > 0
    ensures var c := Fields(text);
            var epoch := DayNumber(c.year, c.month, c.day) * 86400 + c.hour * 3600 + c.minute * 60 + c.second;
            && (ParseTime(text).Some? <==>
                  && c.year >= 1970 && 1 <= c.month <= 12
                  && 1 <= c.day && DayNumber(c.year, c.month, c.day) < NextFirst(c.year, c.month)
                  && c.hour < 24 && c.minute < 60 && c.second < 60 && epoch < 0x1_0000_0000)
            && (ParseTime(text).Some? ==> ParseTime(text).value == epoch)
  {
    hide Fields, ParseBare, IsTime, EpochOf, DayNumber, NextFirst;
    var c := Fields(text);
    YearFirst(text);
    NotBare(text);
    IsTimeIff(c);
    if IsTime(c) {
      EpochByFormula(c);
    }
  }

  /** Parsing what was formatted gives back every 32-bit instant. */
  lemma ParseFormatted(epoch: u32)
    ensures ParseTime(FormatTime(epoch)) == Some(epoch)
  {
    hide CivilOf, EpochOf, IsTime, Text, Fields, ParseBare;
    var c, text := CivilOf(epoch), FormatTime(epoch);
    FourDigitYear(epoch);
    TimeFits(c);
    FieldsBack(c);
    YearFirst(text);
    NotBare(text);
  }

  lemma TimeFits(c: Civil)
    requires IsTime(c) && c.year < 10000
    ensures FitsText(c)
  {
  }

  lemma YearFirst(text: bytes)
    requires |text| == 14 && IsDigits(text)
    ensures Fields(text).year == Value(text[0..4])
  {
  }

  /** Formatting what the date branch accepts gives back the same fourteen digits. */
  lemma FormatParsed(text: bytes)
    requires ParseBare(text).None? && ParseTime(text).Some?
    ensures FormatTime(ParseTime(text).value) == text
  {
    hide CivilOf, EpochOf, IsTime, Text, Fields, ParseBare;
    CivilBack(Fields(text));
    TextBack(text);
  }

  // ---- The loops

  /** `parse_dnssec_time` as it runs. */
  method ParseDnssecTime(text: bytes) returns (r: Option<u32>)
    ensures r == ParseTime(text)
  {
    hide Value, DaysInMonth, IsLeap;
    var bare := ParseBare(text);
    if bare.Some? {
      return bare;
    }
    if |text| != 14 || !IsDigits(text) {
      return None;
    }
    var c := Fields(text);
    hide Fields, ParseBare;
    if !IsTime(c) {
      return None;
    }
    var days := 0;
    for y := 1970 to c.year
      invariant days + YearDays(y, c.year) == YearDays(1970, c.year)
    {
      days := days + YearLength(y);
    }
    ghost var years := days;
    MonthRange(c);
    for m := 1 to c.month
      invariant days + MonthDays(m, c.month, c.year) == years + MonthDays(1, c.month, c.year)
    {
      days := days + MonthLength(m, c.year);
    }
    days := days + c.day - 1;
    var epoch := days * DAY + c.hour * 3600 + c.minute * 60 + c.second;
    r := if epoch >= TWO_32 then None else Some(epoch);
  }

  lemma MonthRange(c: Civil)
    requires IsTime(c)
    ensures 1 <= c.month <= 12
  {
  }

  method FindYear(total: nat) returns (year: nat, days: nat)
    ensures (year, days) == YearOf(total, 1970)
  {
    hide IsLeap;
    year, days := 1970, total;
    while days >= YearLength(year)
      invariant YearOf(total, 1970) == YearOf(days, year)
      decreases days
    {
      days := days - YearLength(year);
      year := year + 1;
    }
  }

  method FindMonth(total: nat, year: nat) returns (month: nat, days: nat)
    requires total < MonthDays(1, 13, year)
    ensures (month, days) == MonthOf(total, 1, year)
  {
    hide DaysInMonth, IsLeap;
    month, days := 1, total;
    while month < 12 && days >= MonthLength(month, year)
      invariant 1 <= month <= 12 && days < MonthDays(month, 13, year)
      invariant MonthOf(total, 1, year) == MonthOf(days, month, year)
      decreases 12 - month
    {
      days := days - MonthLength(month, year);
      month := month + 1;
    }
  }

  /** `format_dnssec_time` as it runs. */
  method FormatDnssecTime(epoch: u32) returns (text: bytes)
    ensures text == FormatTime(epoch)
  {
    hide Text, DaysInMonth, YearLength, YearDays, MonthDays, YearOf, MonthOf, EpochOf, IsTime;
    var seconds := epoch % DAY;
    var year, days := FindYear(epoch / DAY);
    WholeYear(year);
    var month, day := FindMonth(days, year);
    text := Text(Civil(year, month, day + 1, seconds / 3600, seconds / 60 % 60, seconds % 60));
  }
}
