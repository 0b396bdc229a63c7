/**
 * UTC timestamp text as time.RFC3339Nano prints it (section 5.6 of RFC 3339,
 * with trailing zeros of the fraction dropped), and a parser that recovers the
 * instant. Instants are nanoseconds since 0000-01-01T00:00:00Z in the
 * proleptic Gregorian calendar. The text is defined for every integer; Instant
 * bounds the seconds to 64 bits, as time.Time does.
 */
module Calendar {
  import opened Bytes
  import opened Integers

  // The instant at a time of day, given in seconds and nanoseconds.
  function InstantOf(days: int, clock: int, nanos: int): int {
    (days * 86_400 + clock) * 1_000_000_000 + nanos
  }

  lemma InstantSplits(instant: int)
    ensures var seconds := instant / 1_000_000_000;
            InstantOf(seconds / 86_400, seconds % 86_400, instant % 1_000_000_000) == instant
  {
  }

  /* ---- dates ---- */

  datatype Date = Date(year: int, month: int, day: int)

  predicate IsLeap(y: int) {
    y % 4 == 0 && (y % 100 != 0 || y % 400 == 0)
  }

  // Days from 0000-01-01 to the first of January of year y.
  function YearStart(y: int): int {
    365 * y + (y + 3) / 4 - (y + 99) / 100 + (y + 399) / 400
  }

  function YearLength(y: int): int {
    if IsLeap(y) then 366 else 365
  }

  lemma YearStartStep(y: int)
    ensures YearStart(y + 1) == YearStart(y) + YearLength(y)
  {
    EveryFour(y);
    EveryHundred(y);
    EveryFourHundred(y);
  }

  lemma EveryFour(y: int)
    ensures (y + 4) / 4 == (y + 3) / 4 + (if y % 4 == 0 then 1 else 0)
  {
  }

  lemma EveryHundred(y: int)
    ensures (y + 100) / 100 == (y + 99) / 100 + (if y % 100 == 0 then 1 else 0)
    ensures y % 100 == 0 ==> y % 4 == 0
  {
    var q, r := y / 100, y % 100;
    DivModUnique(y + 100, 100, q + 1, r);
    DivModUnique(y + 99, 100, if r == 0 then q else q + 1, if r == 0 then 99 else r - 1);
    DivModUnique(y, 4, 25 * q + r / 4, r % 4);
  }

  lemma EveryFourHundred(y: int)
    ensures (y + 400) / 400 == (y + 399) / 400 + (if y % 400 == 0 then 1 else 0)
    ensures y % 400 == 0 ==> y % 100 == 0
  {
    var q, r := y / 400, y % 400;
    DivModUnique(y + 400, 400, q + 1, r);
    DivModUnique(y + 399, 400, if r == 0 then q else q + 1, if r == 0 then 399 else r - 1);
    DivModUnique(y, 100, 4 * q + r / 100, r % 100);
  }

  // The year that holds day d, searched upwards or downwards from year y.
  function FindYear(d: int, y: int): (r: int)
    ensures YearStart(r) <= d < YearStart(r + 1)
    decreases if d < YearStart(y) then YearStart(y) - d else d - YearStart(y)
  {
    YearStartStep(y);
    YearStartStep(y - 1);
    if d < YearStart(y) then
      if YearStart(y - 1) <= d then y - 1 else FindYear(d, y - 1)
    else if d < YearStart(y + 1) then y
    else FindYear(d, y + 1)
  }

  // Days before the first of month m, January being 1.
  function MonthStart(m: int, leap: bool): int {
    var l := if leap then 1 else 0;
    if m <= 1 then 0 else if m == 2 then 31
    else l + (if m == 3 then 59 else if m == 4 then 90 else if m == 5 then 120 else if m == 6 then 151
              else if m == 7 then 181 else if m == 8 then 212 else if m == 9 then 243
              else if m == 10 then 273 else if m == 11 then 304 else if m == 12 then 334 else 365)
  }

  function FindMonth(d: int, leap: bool, m: int): (r: int)
    requires 1 <= m <= 12 && MonthStart(m, leap) <= d < MonthStart(13, leap)
    ensures 1 <= r <= 12 && MonthStart(r, leap) <= d < MonthStart(r + 1, leap)
    decreases 12 - m
  {
    if d < MonthStart(m + 1, leap) then m else FindMonth(d, leap, m + 1)
  }

  function DateOf(days: int): (r: Date)
    ensures 1 <= r.month <= 12 && 1 <= r.day <= 31
  {
    var y := FindYear(days, days / 366);
    YearStartStep(y);
    var d := days - YearStart(y);
    MonthDay(y, d)
  }

  // The d-th day of year y, counting from 0.
  function MonthDay(y: int, d: int): (r: Date)
    requires 0 <= d < YearLength(y)
    ensures 1 <= r.month <= 12 && 1 <= r.day <= 31
    ensures r.year == y && MonthStart(r.month, IsLeap(y)) + r.day - 1 == d
  {
    var m := FindMonth(d, IsLeap(y), 1);
    Date(y, m, d - MonthStart(m, IsLeap(y)) + 1)
  }

  function DaysOf(date: Date): int {
    YearStart(date.year) + MonthStart(date.month, IsLeap(date.year)) + date.day - 1
  }

  // No two days share a date.
  lemma DateRoundTrip(days: int)
    ensures DaysOf(DateOf(days)) == days
  {
  }

  // The lengths of the months, February's by the Gregorian rule.
  function MonthLength(y: int, m: int): int {
    LengthIn(m, y % 400 == 0 || (y % 4 == 0 && y % 100 != 0))
  }

  function LengthIn(m: int, leap: bool): int {
    if m == 4 || m == 6 || m == 9 || m == 11 then 30
    else if m != 2 then 31
    else if leap then 29
    else 28
  }

  function NextDate(d: Date): Date
    requires 1 <= d.month <= 12
  {
    if d.day < MonthLength(d.year, d.month) then Date(d.year, d.month, d.day + 1)
    else if d.month < 12 then Date(d.year, d.month + 1, 1)
    else Date(d.year + 1, 1, 1)
  }

  lemma LengthsAddUp(m: int, leap: bool)
    requires 1 <= m <= 12
    ensures MonthStart(m + 1, leap) == MonthStart(m, leap) + LengthIn(m, leap)
    ensures MonthStart(1, leap) == 0 && MonthStart(13, leap) == if leap then 366 else 365
  {
  }

  lemma LeapExactly(y: int)
    ensures IsLeap(y) <==> y % 400 == 0 || (y % 4 == 0 && y % 100 != 0)
  {
    EveryHundred(y);
    EveryFourHundred(y);
  }

  lemma MonthsAddUp(y: int, m: int)
    requires 1 <= m <= 12
    ensures MonthStart(m + 1, IsLeap(y)) == MonthStart(m, IsLeap(y)) + MonthLength(y, m)
    ensures MonthStart(1, IsLeap(y)) == 0 && MonthStart(13, IsLeap(y)) == YearLength(y)
  {
    LeapExactly(y);
    LengthsAddUp(m, IsLeap(y));
  }

  lemma DayInYear(date: Date)
    requires 1 <= date.month <= 12 && 1 <= date.day <= MonthLength(date.year, date.month)
    ensures var d, leap := DaysOf(date) - YearStart(date.year), IsLeap(date.year);
            && MonthStart(date.month, leap) <= d < MonthStart(date.month + 1, leap)
            && 0 <= d < YearLength(date.year)
            && YearStart(date.year + 1) == YearStart(date.year) + YearLength(date.year)
  {
    var leap := IsLeap(date.year);
    MonthsAddUp(date.year, date.month);
    MonthStartsGrow(leap, 1, date.month);
    MonthStartsGrow(leap, date.month + 1, 13);
    YearStartStep(date.year);
  }

  lemma DateIsUnique(date: Date, other: Date)
    requires 1 <= date.month <= 12 && 1 <= date.day <= MonthLength(date.year, date.month)
    requires 1 <= other.month <= 12 && 1 <= other.day <= MonthLength(other.year, other.month)
    requires DaysOf(date) == DaysOf(other)
    ensures date == other
  {
    var days := DaysOf(date);
    DayInYear(date);
    DayInYear(other);
    YearIsUnique(days, date.year, other.year);
    MonthIsUnique(days - YearStart(date.year), IsLeap(date.year), date.month, other.month);
  }

  // Every date of the calendar is the date of its day.
  lemma DateOfDay(date: Date)
    requires 1 <= date.month <= 12 && 1 <= date.day <= MonthLength(date.year, date.month)
    ensures DateOf(DaysOf(date)) == date
  {
    DateInRange(DaysOf(date));
    DateRoundTrip(DaysOf(date));
    DateIsUnique(date, DateOf(DaysOf(date)));
  }

  lemma {:induction false} MonthStartsGrow(leap: bool, m: int, n: int)
    requires 1 <= m <= n <= 13
    ensures MonthStart(m, leap) <= MonthStart(n, leap)
  {
  }

  lemma {:induction false} YearStartsGrow(y: int, z: int)
    requires y <= z
    ensures YearStart(y) <= YearStart(z)
    decreases z - y
  {
    if y < z {
      YearStartStep(y);
      YearStartsGrow(y + 1, z);
    }
  }

  lemma YearIsUnique(d: int, y: int, z: int)
    requires YearStart(y) <= d < YearStart(y + 1) && YearStart(z) <= d < YearStart(z + 1)
    ensures y == z
  {
    if y < z {
      YearStartsGrow(y + 1, z);
    } else if z < y {
      YearStartsGrow(z + 1, y);
    }
  }

  lemma MonthIsUnique(d: int, leap: bool, m: int, n: int)
    requires 1 <= m <= 12 && 1 <= n <= 12
    requires MonthStart(m, leap) <= d < MonthStart(m + 1, leap) && MonthStart(n, leap) <= d < MonthStart(n + 1, leap)
    ensures m == n
  {
    if m < n {
      MonthStartsGrow(leap, m + 1, n);
    } else if n < m {
      MonthStartsGrow(leap, n + 1, m);
    }
  }

  lemma DateInRange(days: int)
    ensures var r := DateOf(days);
            1 <= r.month <= 12 && 1 <= r.day <= MonthLength(r.year, r.month)
  {
    var r := DateOf(days);
    MonthsAddUp(r.year, r.month);
    YearStartStep(r.year);
  }

  lemma NextDayNumber(d: Date)
    requires 1 <= d.month <= 12 && 1 <= d.day <= MonthLength(d.year, d.month)
    ensures DaysOf(NextDate(d)) == DaysOf(d) + 1
    ensures var e := NextDate(d); 1 <= e.month <= 12 && 1 <= e.day <= MonthLength(e.year, e.month)
  {
    MonthsAddUp(d.year, d.month);
    if d.month == 12 {
      YearStartStep(d.year);
      MonthsAddUp(d.year + 1, 1);
    }
  }

  lemma NextOf(days: int, d: Date)
    requires 1 <= d.month <= 12 && 1 <= d.day <= MonthLength(d.year, d.month) && DaysOf(d) == days
    ensures DateOf(days + 1) == NextDate(d)
  {
    NextDayNumber(d);
    DateOfDay(NextDate(d));
  }

  // The calendar, from one date and the rule for the next day.
  lemma NextDay(days: int)
    ensures DateOf(days + 1) == NextDate(DateOf(days))
  {
    DateInRange(days);
    DateRoundTrip(days);
    NextOf(days, DateOf(days));
  }

  lemma EpochDate()
    ensures DateOf(719_528) == Date(1970, 1, 1)
  {
    DateOfDay(Date(1970, 1, 1));
  }

  /* ---- text ---- */

  const DOT: byte := 46
  const DASH: byte := 45
  const COLON: byte := 58
  const LETTER_T: byte := 84
  const LETTER_Z: byte := 90

  // The year: at least four digits, and a minus sign before year 0.
  function PrintYear(y: int): Bytes {
    if y < 0 then [DASH] + Pad(-y, 4) else Pad(y, 4)
  }

  function Pair(n: int): (s: Bytes)
    requires 0 <= n < 100
    ensures |s| == 2 && AllDigits(s)
    ensures DecimalValue(s) == n
  {
    var tens := [DIGIT_0 + n / 10];
    var s := tens + [DIGIT_0 + n % 10];
    assert tens[..0] == [] && DecimalValue(tens) == n / 10;
    assert s[..1] == tens;
    s
  }

  const FRACTION_WIDTH: nat := 9

  // The k lowest decimal digits of n, most significant first.
  function FractionDigits(n: nat, k: nat): (s: Bytes)
    ensures |s| == k && AllDigits(s)
  {
    if k == 0 then [] else FractionDigits(n / 10, k - 1) + [DIGIT_0 + n % 10]
  }

  function TrimZeros(s: Bytes): (t: Bytes)
    requires AllDigits(s)
    ensures |t| <= |s| && t == s[..|t|] && AllDigits(t)
    ensures t != [] ==> t[|t| - 1] != DIGIT_0
    ensures forall i :: |t| <= i < |s| ==> s[i] == DIGIT_0
  {
    if s == [] || s[|s| - 1] != DIGIT_0 then s else TrimZeros(s[..|s| - 1])
  }

  // A fraction of nanos nanoseconds; nothing at all for a whole second.
  function PrintFraction(nanos: nat): Bytes {
    var t := TrimZeros(FractionDigits(nanos, FRACTION_WIDTH));
    if t == [] then [] else [DOT] + t
  }

  // Everything after the year; the first five arguments are two digits each.
  function Tail(month: Bytes, day: Bytes, hour: Bytes, minute: Bytes, second: Bytes, fraction: Bytes): Bytes {
    [DASH] + month + [DASH] + day + [LETTER_T] + hour + [COLON] + minute + [COLON] + second + fraction + [LETTER_Z]
  }

  function FormatParts(date: Date, hour: nat, minute: nat, second: nat, nanos: nat): Bytes
    requires 1 <= date.month <= 12 && 1 <= date.day <= 31 && hour < 24 && minute < 60 && second < 60
  {
    PrintYear(date.year)
    + Tail(Pair(date.month), Pair(date.day), Pair(hour), Pair(minute), Pair(second), PrintFraction(nanos))
  }

  function Format(instant: int): Bytes {
    var seconds := instant / 1_000_000_000;
    var clock := seconds % 86_400;
    FormatParts(DateOf(seconds / 86_400), clock / 3600, clock / 60 % 60, clock % 60,
                instant % 1_000_000_000)
  }

  /* ---- the parser ---- */

  // The number s starts with, and the text after it.
  function LeadingNumber(s: Bytes): (int, Bytes) {
    var n := SpanDigits(s);
    (DecimalValue(s[..n]), s[n..])
  }

  function ParseYear(s: Bytes): (int, Bytes) {
    if s != [] && s[0] == DASH then
      var (magnitude, rest) := LeadingNumber(s[1..]);
      (-magnitude, rest)
    else LeadingNumber(s)
  }

  // The value of a fraction's digits on the scale of nine digits.
  function FractionValue(t: Bytes): nat
    requires AllDigits(t) && |t| <= FRACTION_WIDTH
  {
    DecimalValue(t + Zeros(FRACTION_WIDTH - |t|))
  }

  function Value2(s: Bytes, at: nat): nat
    requires at + 2 <= |s|
  {
    if AllDigits(s[at..at + 2]) then DecimalValue(s[at..at + 2]) else 0
  }

  function ParseTime(s: Bytes): Option<int> {
    var (year, t) := ParseYear(s);
    if |t| < 16 || t[|t| - 1] != LETTER_Z then None
    else
      var date := Date(year, Value2(t, 1), Value2(t, 4));
      var clock := 3600 * Value2(t, 7) + 60 * Value2(t, 10) + Value2(t, 13);
      var fraction := t[15..|t| - 1];
      var digits := if fraction == [] then [] else fraction[1..];
      if !AllDigits(digits) || |digits| > FRACTION_WIDTH then None
      else Some(InstantOf(DaysOf(date), clock, FractionValue(digits)))
  }

  lemma DigitsUpToDash(digits: Bytes, rest: Bytes)
    requires AllDigits(digits)
    requires rest != [] && rest[0] == DASH
    ensures LeadingNumber(digits + rest) == (DecimalValue(digits), rest)
  {
    SpanDigitsStops(digits, rest);
    TakeAppend(digits, rest);
  }

  lemma PrintYearParses(y: int, rest: Bytes)
    requires rest != [] && rest[0] == DASH
    ensures ParseYear(PrintYear(y) + rest) == (y, rest)
  {
    var magnitude: nat := if y < 0 then -y else y;
    var digits := Pad(magnitude, 4);
    PadRoundTrip(magnitude, 4);
    DigitsUpToDash(digits, rest);
    if y < 0 {
      Concat3([DASH], digits, rest);
      TakeAppend([DASH], digits + rest);
    } else {
      assert IsDigit((digits + rest)[0]);
    }
  }

  lemma {:induction false} FractionDigitsValue(n: nat, k: nat)
    ensures DecimalValue(FractionDigits(n, k)) == n % Pow10(k)
  {
    if k > 0 {
      FractionDigitsValue(n / 10, k - 1);
      assert FractionDigits(n, k)[..k - 1] == FractionDigits(n / 10, k - 1);
      Mod10Split(n, Pow10(k - 1));
    }
  }

  function Pow10(k: nat): (p: nat)
    ensures p > 0
  {
    if k == 0 then 1 else 10 * Pow10(k - 1)
  }

  lemma Mod10Split(n: nat, m: nat)
    requires m > 0
    ensures n % (10 * m) == 10 * (n / 10 % m) + n % 10
  {
    var q, r := n / 10, n % 10;
    var q', r' := q / m, q % m;
    assert q == m * q' + r';
    assert 10 * (m * q') == (10 * m) * q';
    DivModUnique(n, 10 * m, q', 10 * r' + r);
  }

  lemma {:induction false} TrimmedZerosReturn(s: Bytes)
    requires AllDigits(s)
    ensures TrimZeros(s) + Zeros(|s| - |TrimZeros(s)|) == s
  {
    var n := |s| - 1;
    if s != [] && s[n] == DIGIT_0 {
      var k := n - |TrimZeros(s[..n])|;
      TrimmedZerosReturn(s[..n]);
      assert Zeros(k + 1) == Zeros(k) + [DIGIT_0];
      Concat3(TrimZeros(s[..n]), Zeros(k), [DIGIT_0]);
      assert s == s[..n] + [DIGIT_0];
    } else {
      assert Zeros(0) == [] && s + [] == s;
    }
  }

  lemma FractionScale()
    ensures Pow10(FRACTION_WIDTH) == 1_000_000_000
  {
    assert Pow10(3) == 1000;
    assert Pow10(6) == 1_000_000;
  }

  lemma FractionRoundTrip(nanos: nat)
    requires nanos < 1_000_000_000
    ensures FractionValue(TrimZeros(FractionDigits(nanos, FRACTION_WIDTH))) == nanos
  {
    TrimmedZerosReturn(FractionDigits(nanos, FRACTION_WIDTH));
    FractionDigitsValue(nanos, FRACTION_WIDTH);
    FractionScale();
  }

  lemma TailSlices(month: Bytes, day: Bytes, hour: Bytes, minute: Bytes, second: Bytes, fraction: Bytes)
    requires |month| == |day| == |hour| == |minute| == |second| == 2
    ensures var t := Tail(month, day, hour, minute, second, fraction);
            && |t| == 16 + |fraction| && t[0] == DASH && t[|t| - 1] == LETTER_Z
            && t[1..3] == month && t[4..6] == day && t[7..9] == hour && t[10..12] == minute && t[13..15] == second
            && t[15..|t| - 1] == fraction
  {
  }

  lemma PartsParse(date: Date, hour: nat, minute: nat, second: nat, nanos: nat)
    requires 1 <= date.month <= 12 && 1 <= date.day <= 31 && hour < 24 && minute < 60 && second < 60
    requires nanos < 1_000_000_000
    ensures ParseTime(FormatParts(date, hour, minute, second, nanos))
            == Some(InstantOf(DaysOf(date), 3600 * hour + 60 * minute + second, nanos))
  {
    var t := Tail(Pair(date.month), Pair(date.day), Pair(hour), Pair(minute), Pair(second), PrintFraction(nanos));
    TailSlices(Pair(date.month), Pair(date.day), Pair(hour), Pair(minute), Pair(second), PrintFraction(nanos));
    PrintYearParses(date.year, t);
    FractionRoundTrip(nanos);
    var digits := TrimZeros(FractionDigits(nanos, FRACTION_WIDTH));
    if digits != [] {
      assert PrintFraction(nanos)[1..] == digits;
    }
  }

  // The parts an instant is printed from make it up again.
  lemma PartsOf(instant: int, days: int, clock: int, nanos: int)
    requires days == instant / 1_000_000_000 / 86_400
    requires clock == instant / 1_000_000_000 % 86_400 && nanos == instant % 1_000_000_000
    ensures 0 <= clock < 86_400 && 0 <= clock / 3600 < 24 && 0 <= nanos < 1_000_000_000
    ensures 3600 * (clock / 3600) + 60 * (clock / 60 % 60) + clock % 60 == clock
    ensures InstantOf(days, clock, nanos) == instant
  {
    InstantSplits(instant);
  }

  // The date and time printed are those of the instant.
  lemma PrintedParts(instant: int) returns (date: Date, hour: nat, minute: nat, second: nat, nanos: nat)
    ensures 1 <= date.month <= 12 && 1 <= date.day <= 31 && hour < 24 && minute < 60 && second < 60
    ensures nanos < 1_000_000_000
    ensures Format(instant) == FormatParts(date, hour, minute, second, nanos)
    ensures InstantOf(DaysOf(date), 3600 * hour + 60 * minute + second, nanos) == instant
  {
    var days, clock := instant / 1_000_000_000 / 86_400, instant / 1_000_000_000 % 86_400;
    nanos := instant % 1_000_000_000;
    PartsOf(instant, days, clock, nanos);
    date := DateOf(days);
    DateRoundTrip(days);
    hour, minute, second := clock / 3600, clock / 60 % 60, clock % 60;
  }

  // The text determines the instant, to the nanosecond, in every year.
  lemma FormatParses(instant: int)
    ensures ParseTime(Format(instant)) == Some(instant)
  {
    var date, hour, minute, second, nanos := PrintedParts(instant);
    PartsParse(date, hour, minute, second, nanos);
  }

  /* ---- layout ---- */

  lemma FourDigitYear(y: int)
    requires 0 <= y < 10000
    ensures |PrintYear(y)| == 4 && AllDigits(PrintYear(y)) && DecimalValue(PrintYear(y)) == y
  {
    var digits := PrintNat(y);
    assert |digits| <= 4 by {
      if y >= 10 {
        assert digits == PrintNat(y / 10) + [DIGIT_0 + y % 10];
        if y >= 100 {
          assert PrintNat(y / 10) == PrintNat(y / 10 / 10) + [DIGIT_0 + y / 10 % 10];
        }
      }
    }
    PadRoundTrip(y, 4);
  }

  lemma FractionLayout(nanos: nat)
    requires nanos < 1_000_000_000
    ensures var f := PrintFraction(nanos);
            && (nanos == 0 ==> f == [])
            && (nanos > 0 ==> 2 <= |f| <= 10 && f[0] == '.' as int && f[|f| - 1] != '0' as int
                              && AllDigits(f[1..]) && FractionValue(f[1..]) == nanos)
  {
    var t := TrimZeros(FractionDigits(nanos, FRACTION_WIDTH));
    FractionRoundTrip(nanos);
    if nanos == 0 {
      NothingIsZero(t);
    } else {
      LeadingZerosAreIgnored(9, []);
      assert [] + Zeros(9) == Zeros(9) + [];
      assert ([DOT] + t)[1..] == t;
    }
  }

  lemma NothingIsZero(t: Bytes)
    requires AllDigits(t) && |t| <= FRACTION_WIDTH && FractionValue(t) == 0 && (t != [] ==> t[|t| - 1] != DIGIT_0)
    ensures t == []
  {
    if t != [] {
      ZerosDoNotHide(t, FRACTION_WIDTH - |t|);
    }
  }

  lemma {:induction false} ZerosDoNotHide(t: Bytes, k: nat)
    requires AllDigits(t) && t != [] && t[|t| - 1] != DIGIT_0
    ensures AllDigits(t + Zeros(k)) && DecimalValue(t + Zeros(k)) > 0
  {
    var z := t + Zeros(k);
    if k == 0 {
      assert z == t;
    } else {
      assert z[..|z| - 1] == t + Zeros(k - 1);
      ZerosDoNotHide(t, k - 1);
    }
  }

  // The text of an instant in the years 0 to 9999, byte by byte.
  lemma TextLayout(instant: int)
    requires 0 <= DateOf(instant / 1_000_000_000 / 86_400).year < 10000
    ensures var s, date := Format(instant), DateOf(instant / 1_000_000_000 / 86_400);
            var clock, fraction := instant / 1_000_000_000 % 86_400, PrintFraction(instant % 1_000_000_000);
            && |s| == 20 + |fraction|
            && AllDigits(s[..4]) && DecimalValue(s[..4]) == date.year
            && s[4] == '-' as int && s[5..7] == Pair(date.month)
            && s[7] == '-' as int && s[8..10] == Pair(date.day)
            && s[10] == 'T' as int && s[11..13] == Pair(clock / 3600)
            && s[13] == ':' as int && s[14..16] == Pair(clock / 60 % 60)
            && s[16] == ':' as int && s[17..19] == Pair(clock % 60)
            && s[19..|s| - 1] == fraction && s[|s| - 1] == 'Z' as int
  {
    var date, clock := DateOf(instant / 1_000_000_000 / 86_400), instant / 1_000_000_000 % 86_400;
    FourDigitYear(date.year);
    Laid(PrintYear(date.year), Pair(date.month), Pair(date.day), Pair(clock / 3600), Pair(clock / 60 % 60),
         Pair(clock % 60), PrintFraction(instant % 1_000_000_000));
  }

  lemma TailMarks(month: Bytes, day: Bytes, hour: Bytes, minute: Bytes, second: Bytes, fraction: Bytes)
    requires |month| == |day| == |hour| == |minute| == |second| == 2
    ensures var t := Tail(month, day, hour, minute, second, fraction);
            && |t| == 16 + |fraction|
            && t[0] == '-' as int && t[3] == '-' as int && t[6] == 'T' as int
            && t[9] == ':' as int && t[12] == ':' as int && t[15 + |fraction|] == 'Z' as int
  {
  }

  lemma SliceOfSecond(a: Bytes, b: Bytes, i: nat, j: nat)
    requires i <= j <= |b|
    ensures (a + b)[|a| + i..|a| + j] == b[i..j]
  {
  }

  lemma Laid(year: Bytes, month: Bytes, day: Bytes, hour: Bytes, minute: Bytes, second: Bytes, fraction: Bytes)
    requires |year| == 4 && |month| == |day| == |hour| == |minute| == |second| == 2
    ensures var s := year + Tail(month, day, hour, minute, second, fraction);
            && |s| == 20 + |fraction| && s[..4] == year
            && s[4] == '-' as int && s[5..7] == month && s[7] == '-' as int && s[8..10] == day
            && s[10] == 'T' as int && s[11..13] == hour && s[13] == ':' as int && s[14..16] == minute
            && s[16] == ':' as int && s[17..19] == second
            && s[19..|s| - 1] == fraction && s[|s| - 1] == 'Z' as int
  {
    TailMarks(month, day, hour, minute, second, fraction);
    TailSlices(month, day, hour, minute, second, fraction);
    LaidAfter(year, Tail(month, day, hour, minute, second, fraction));
  }

  lemma LaidAfter(year: Bytes, t: Bytes)
    requires |year| == 4 && |t| >= 16
    ensures var s := year + t;
            && |s| == 4 + |t| && s[..4] == year
            && s[4] == t[0] && s[5..7] == t[1..3] && s[7] == t[3] && s[8..10] == t[4..6]
            && s[10] == t[6] && s[11..13] == t[7..9] && s[13] == t[9] && s[14..16] == t[10..12]
            && s[16] == t[12] && s[17..19] == t[13..15]
            && s[19..|s| - 1] == t[15..|t| - 1] && s[|s| - 1] == t[|t| - 1]
  {
    SliceOfSecond(year, t, 1, 3);
    SliceOfSecond(year, t, 4, 6);
    SliceOfSecond(year, t, 7, 9);
    SliceOfSecond(year, t, 10, 12);
    SliceOfSecond(year, t, 13, 15);
    SliceOfSecond(year, t, 15, |t| - 1);
  }

  /* ---- length ---- */

  type Instant = x: int | -TWO_63 * 1_000_000_000 <= x < TWO_63 * 1_000_000_000

  lemma {:induction false} PrintNatLength(n: nat)
    ensures |PrintNat(n)| <= n + 1
  {
    if n >= 10 {
      PrintNatLength(n / 10);
    }
  }

  lemma YearBound(days: int)
    ensures var y := FindYear(days, days / 366);
            (days >= 0 ==> 0 <= y <= days) && (days < 0 ==> days <= y < 0)
  {
  }

  // The text of an instant is short enough to be a Go string.
  lemma FormatLength(instant: Instant)
    ensures |Format(instant)| < MAX_LEN
  {
    var days := instant / 1_000_000_000 / 86_400;
    var y := DateOf(days).year;
    YearBound(days);
    assert -TWO_63 <= instant / 1_000_000_000 <= TWO_63;
    assert -0x7F00_0000_0000_0000 <= days <= 0x7F00_0000_0000_0000;
    var magnitude: nat := if y < 0 then -y else y;
    PrintNatLength(magnitude);
    assert |PrintYear(y)| <= magnitude + 6;
    assert |PrintFraction(instant % 1_000_000_000)| <= 10;
  }
}
