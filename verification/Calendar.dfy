/** Civil dates by division, against a calendar that steps one day at a time. */
module Calendar {
  import opened Wrappers
  import opened Text

  datatype Date = Date(y: int, m: int, d: int)

  predicate Leap(y: int) { y % 4 == 0 && (y % 100 != 0 || y % 400 == 0) }

  function MonthLength(y: int, m: int): int {
    if m == 2 then (if Leap(y) then 29 else 28)
    else if m in {4, 6, 9, 11} then 30
    else 31
  }

  function NextDay(t: Date): Date {
    if t.d < MonthLength(t.y, t.m) then Date(t.y, t.m, t.d + 1)
    else if t.m < 12 then Date(t.y, t.m + 1, 1)
    else Date(t.y + 1, 1, 1)
  }

  /** The day `n` days after 1970-01-01. */
  function DateAfter(n: nat): Date { if n == 0 then Date(1970, 1, 1) else NextDay(DateAfter(n - 1)) }

  /** Year and day within the year, years starting on 1 March. */
  function YearOfEra(doe: int): int { (doe - doe / 1460 + doe / 36_524 - doe / 146_096) / 365 }

  function DayOfYear(doe: int, yoe: int): int { doe - (365 * yoe + yoe / 4 - yoe / 100) }

  function CivilOf(year: int, doy: int): Date {
    var mp := (5 * doy + 2) / 153;
    var d := doy - (153 * mp + 2) / 5 + 1;
    var m := if mp < 10 then mp + 3 else mp - 9;
    Date(year + if m <= 2 then 1 else 0, m, d)
  }

  /** The date the source computes for a day count. */
  function Civil(days: nat): Date {
    var z := days + 719_468;
    var era := z / 146_097;
    var doe := z - era * 146_097;
    var yoe := YearOfEra(doe);
    CivilOf(yoe + era * 400, DayOfYear(doe, yoe))
  }

  // ------------------------------------------------------------ the March year

  /** Days before 1 March of a year, from 1 March of year 0. */
  function YearStart(y: int): int { 365 * y + y / 4 - y / 100 + y / 400 }

  function YearLength(y: int): int { if Leap(y + 1) then 366 else 365 }

  lemma YearStep(y: int)
    requires y >= 0
    ensures YearStart(y + 1) == YearStart(y) + YearLength(y)
  {
    DivStep(y, 4);
    DivStep(y, 100);
    DivStep(y, 400);
  }

  lemma DivStep(y: int, n: int)
    requires y >= 0 && n in {4, 100, 400}
    ensures (y + 1) / n == y / n + if (y + 1) % n == 0 then 1 else 0
  {
  }

  lemma {:induction false} YearMonotone(a: int, b: int)
    requires 0 <= a <= b
    ensures YearStart(a) <= YearStart(b)
    decreases b - a
  {
    if a < b {
      YearStep(a);
      YearMonotone(a + 1, b);
    }
  }

  /** A day is in only one year. */
  lemma YearUnique(a: int, b: int, x: int, y: int)
    requires 0 <= a && 0 <= b && 0 <= x < YearLength(a) && 0 <= y < YearLength(b)
    requires YearStart(a) + x == YearStart(b) + y
    ensures a == b && x == y
  {
    if a < b {
      YearStep(a);
      YearMonotone(a + 1, b);
    } else if b < a {
      YearStep(b);
      YearMonotone(b + 1, a);
    }
  }

  /** The division formula finds the year: four centuries, 25 four-year cycles in each, four
      years in each, with the leap days at their ends. */
  lemma YearOfEraExact(doe: int, c: int, q: int, p: int, u: int)
    requires 0 <= c <= 3 && 0 <= q <= 24 && 0 <= p <= 3 && 0 <= u <= 365
    requires doe == 36_524 * c + 1461 * q + 365 * p + u
    requires u == 365 ==> p == 3 && (q == 24 ==> c == 3)
    ensures YearOfEra(doe) == 100 * c + 4 * q + p && DayOfYear(doe, YearOfEra(doe)) == u
  {
    var e := if 24 * c + q + 365 * p + u >= 1460 then 1 else 0;
    assert doe / 1460 == 25 * c + q + e;
    var f := if doe == 146_096 then 1 else 0;
    assert doe / 36_524 == c + f;
    assert doe / 146_096 == f;
    assert doe - doe / 1460 + doe / 36_524 - doe / 146_096 == 365 * (100 * c + 4 * q + p) + u - e;
    var yoe := 100 * c + 4 * q + p;
    assert 0 <= u - e < 365;
    assert yoe / 4 == 25 * c + q && yoe / 100 == c;
  }

  lemma EraParts(doe: int) returns (c: int, q: int, p: int, u: int)
    requires 0 <= doe < 146_097
    ensures 0 <= c <= 3 && 0 <= q <= 24 && 0 <= p <= 3 && 0 <= u <= 365
    ensures doe == 36_524 * c + 1461 * q + 365 * p + u
    ensures u == 365 ==> p == 3 && (q == 24 ==> c == 3)
  {
    c := if doe == 146_096 then 3 else doe / 36_524;
    var r := doe - 36_524 * c;
    q := r / 1461;
    var t := r - 1461 * q;
    p := if t == 1460 then 3 else t / 365;
    u := t - 365 * p;
  }

  /** A day count as March year and day within it. */
  lemma CivilParts(days: nat) returns (year: int, doy: int)
    ensures year >= 0 && 0 <= doy < YearLength(year)
    ensures YearStart(year) + doy == days + 719_468
    ensures Civil(days) == CivilOf(year, doy)
  {
    hide YearOfEra, DayOfYear, CivilOf, YearStart, Leap;
    var z := days + 719_468;
    var era := z / 146_097;
    var doe := z - era * 146_097;
    var c, q, p, u := EraParts(doe);
    YearOfEraExact(doe, c, q, p, u);
    var yoe := 100 * c + 4 * q + p;
    year, doy := yoe + era * 400, u;
    EraYearStart(era, c, q, p);
    if u == 365 { LastDayLeap(era, c, q); }
  }

  lemma EraYearStart(era: int, c: int, q: int, p: int)
    requires era >= 0 && 0 <= c <= 3 && 0 <= q <= 24 && 0 <= p <= 3
    ensures YearStart(100 * c + 4 * q + p + era * 400) == 146_097 * era + 36_524 * c + 1461 * q + 365 * p
  {
    var y := 100 * c + 4 * q + p + era * 400;
    assert y / 4 == 100 * era + 25 * c + q;
    assert y / 100 == 4 * era + c;
    assert y / 400 == era;
  }

  lemma LastDayLeap(era: int, c: int, q: int)
    requires era >= 0 && 0 <= c <= 3 && 0 <= q <= 24 && (q == 24 ==> c == 3)
    ensures Leap(100 * c + 4 * q + 3 + era * 400 + 1)
  {
    var y := 100 * c + 4 * q + 4 + era * 400;
    assert y == 4 * (25 * c + q + 1 + 100 * era);
    if q == 24 {
      assert y == 400 * (era + 1);
    } else {
      assert y == 100 * (c + 4 * era) + 4 * (q + 1) && 0 < 4 * (q + 1) < 100;
    }
  }

  // --------------------------------------------------------------- one day on

  /** Within a March year the next day number is the next date. */
  lemma NextInYear(year: int, doy: int)
    requires year >= 0 && 0 <= doy && doy + 1 < YearLength(year)
    ensures CivilOf(year, doy + 1) == NextDay(CivilOf(year, doy))
  {
    var mp := (5 * doy + 2) / 153;
    assert 0 <= mp <= 11;
    if mp == 0 {} else if mp == 1 {} else if mp == 2 {} else if mp == 3 {} else if mp == 4 {}
    else if mp == 5 {} else if mp == 6 {} else if mp == 7 {} else if mp == 8 {} else if mp == 9 {}
    else if mp == 10 {} else {}
  }

  /** The last day of a March year is the last of February. */
  lemma NextYear(year: int)
    requires year >= 0
    ensures CivilOf(year + 1, 0) == NextDay(CivilOf(year, YearLength(year) - 1))
  {
  }

  lemma NextCivil(n: nat)
    ensures Civil(n + 1) == NextDay(Civil(n))
  {
    hide Civil, CivilOf, NextDay, YearStart, YearLength;
    var year, doy := CivilParts(n);
    var year', doy' := CivilParts(n + 1);
    YearStep(year);
    if doy + 1 < YearLength(year) {
      YearUnique(year, year', doy + 1, doy');
      NextInYear(year, doy);
    } else {
      assert YearLength(year + 1) > 0 by { SomeDays(year + 1); }
      YearUnique(year + 1, year', 0, doy');
      NextYear(year);
    }
  }

  lemma SomeDays(year: int)
    ensures YearLength(year) > 0
  {
  }

  lemma CivilEpoch()
    ensures Civil(0) == Date(1970, 1, 1)
  {
    hide Civil, CivilOf, YearStart, YearLength;
    var year, doy := CivilParts(0);
    EpochParts();
    YearUnique(year, 1969, doy, 306);
  }

  /** 1 January 1970 is day 306 of the March year 1969. */
  lemma EpochParts()
    ensures YearStart(1969) + 306 == 719_468 && 306 < YearLength(1969)
    ensures CivilOf(1969, 306) == Date(1970, 1, 1)
  {
  }

  /** The computed date is the one reached by stepping day by day. */
  lemma {:induction false} CivilIsCalendar(n: nat)
    ensures Civil(n) == DateAfter(n)
  {
    hide Civil, NextDay;
    if n == 0 {
      CivilEpoch();
    } else {
      CivilIsCalendar(n - 1);
      NextCivil(n - 1);
    }
  }

  // ------------------------------------------------------------------ the stamp

  function Pow10(w: nat): nat { if w == 0 then 1 else 10 * Pow10(w - 1) }

  /** Decimal, zero-padded to at least `w` digits. */
  function Pad(n: nat, w: nat): string {
    if w == 0 then (if n == 0 then "" else Decimal(n)) else Pad(n / 10, w - 1) + [Digit(n % 10)]
  }

  function Nat(x: int): nat { if x < 0 then 0 else x }

  function ClockText(rem: nat): string {
    Pad(rem / 3600, 2) + (Pad(rem % 3600 / 60, 2) + (Pad(rem % 60, 2) + "Z"))
  }

  /** `YYYYMMDDTHHMMSSZ` for a Unix timestamp. */
  function UtcStamp(secs: nat): string {
    var t := Civil(secs / 86_400);
    Pad(Nat(t.y), 4) + (Pad(Nat(t.m), 2) + (Pad(Nat(t.d), 2) + ("T" + ClockText(secs % 86_400))))
  }

  /** The first second of the year 10000. */
  const LIMIT := 253_402_300_800

  predicate RealDate(t: Date) { 1 <= t.m <= 12 && 1 <= t.d <= MonthLength(t.y, t.m) }

  predicate Before(a: Date, b: Date) {
    a.y < b.y || (a.y == b.y && (a.m < b.m || (a.m == b.m && a.d < b.d)))
  }

  lemma {:induction false} DatesReal(n: nat)
    ensures RealDate(DateAfter(n)) && DateAfter(n).y >= 1970
  {
    if n > 0 { DatesReal(n - 1); }
  }

  lemma {:induction false} DatesIncrease(a: nat, b: nat)
    requires a < b
    ensures Before(DateAfter(a), DateAfter(b))
  {
    DatesReal(b - 1);
    if a < b - 1 { DatesIncrease(a, b - 1); }
  }

  /** Up to and including 9999-12-31, and no later, the year has four digits. */
  lemma FourDigitYears(n: nat)
    ensures DateAfter(n).y <= 9999 <==> n < 2_932_897
  {
    CivilIsCalendar(2_932_896);
    CivilIsCalendar(2_932_897);
    LastDays();
    if n < 2_932_896 { DatesIncrease(n, 2_932_896); }
    if n > 2_932_897 { DatesIncrease(2_932_897, n); }
  }

  lemma LastDays()
    ensures Civil(2_932_896) == Date(9999, 12, 31) && Civil(2_932_897) == Date(10000, 1, 1)
  {
    hide Civil, CivilOf, YearStart, YearLength;
    var year, doy := CivilParts(2_932_896);
    LastDayParts();
    YearUnique(year, 9999, doy, 305);
    NextCivil(2_932_896);
  }

  lemma LastDayParts()
    ensures YearStart(9999) + 305 == 2_932_896 + 719_468 && 305 < YearLength(9999)
    ensures CivilOf(9999, 305) == Date(9999, 12, 31)
  {
  }

  lemma {:induction false} PadLength(n: nat, w: nat)
    ensures n < Pow10(w) ==> |Pad(n, w)| == w
    ensures n >= Pow10(w) ==> |Pad(n, w)| > w
  {
    if w > 0 { PadLength(n / 10, w - 1); }
  }

  lemma {:induction false} LexConcat(a: string, b: string, x: string, y: string)
    requires |a| == |b|
    ensures LexLess(a + x, b + y) <==> LexLess(a, b) || (a == b && LexLess(x, y))
  {
    if a == "" {
      assert a + x == x && b + y == y;
    } else {
      LexConcat(a[1..], b[1..], x, y);
      assert (a + x)[1..] == a[1..] + x && (b + y)[1..] == b[1..] + y;
      assert a == [a[0]] + a[1..] && b == [b[0]] + b[1..];
    }
  }

  /** Padded numbers of one width are ordered as numbers. */
  lemma {:induction false} PadOrder(a: nat, b: nat, w: nat)
    requires a < Pow10(w) && b < Pow10(w)
    ensures |Pad(a, w)| == |Pad(b, w)| == w
    ensures LexLess(Pad(a, w), Pad(b, w)) <==> a < b
    ensures Pad(a, w) == Pad(b, w) <==> a == b
  {
    PadLength(a, w);
    PadLength(b, w);
    if w > 0 {
      PadOrder(a / 10, b / 10, w - 1);
      var x, y := [Digit(a % 10)], [Digit(b % 10)];
      LexConcat(Pad(a / 10, w - 1), Pad(b / 10, w - 1), x, y);
      assert Pad(a, w)[..w - 1] == Pad(a / 10, w - 1) && Pad(b, w)[..w - 1] == Pad(b / 10, w - 1);
      assert Pad(a, w)[w - 1] == x[0] && Pad(b, w)[w - 1] == y[0];
    }
  }

  /** One padded field in front decides, or leaves it to what follows. */
  lemma FieldOrder(a: nat, b: nat, w: nat, x: string, y: string)
    requires a < Pow10(w) && b < Pow10(w)
    ensures LexLess(Pad(a, w) + x, Pad(b, w) + y) <==> a < b || (a == b && LexLess(x, y))
  {
    PadOrder(a, b, w);
    LexConcat(Pad(a, w), Pad(b, w), x, y);
  }

  lemma ClockOrder(a: nat, b: nat)
    requires a < 86_400 && b < 86_400
    ensures LexLess(ClockText(a), ClockText(b)) <==> a < b
  {
    assert Pow10(1) == 10 && Pow10(2) == 100;
    var am, bm := Pad(a % 3600 / 60, 2) + (Pad(a % 60, 2) + "Z"), Pad(b % 3600 / 60, 2) + (Pad(b % 60, 2) + "Z");
    FieldOrder(a / 3600, b / 3600, 2, am, bm);
    FieldOrder(a % 3600 / 60, b % 3600 / 60, 2, Pad(a % 60, 2) + "Z", Pad(b % 60, 2) + "Z");
    FieldOrder(a % 60, b % 60, 2, "Z", "Z");
    ClockNumber(a);
    ClockNumber(b);
  }

  lemma ClockNumber(a: nat)
    requires a < 86_400
    ensures a == 3600 * (a / 3600) + 60 * (a % 3600 / 60) + a % 60
    ensures a / 3600 < 24 && a % 3600 / 60 < 60 && a % 60 < 60
  {
  }

  /** Up to the year 9999 stamps are ordered as times are. */
  lemma StampOrder(a: nat, b: nat)
    requires a < LIMIT && b < LIMIT
    ensures LexLess(UtcStamp(a), UtcStamp(b)) <==> a < b
  {
    hide Civil, DateAfter, LexLess, Pad, ClockText;
    var s, t := Civil(a / 86_400), Civil(b / 86_400);
    CivilIsCalendar(a / 86_400);
    CivilIsCalendar(b / 86_400);
    DatesReal(a / 86_400);
    DatesReal(b / 86_400);
    FourDigitYears(a / 86_400);
    FourDigitYears(b / 86_400);
    Widths();
    var ac, bc := "T" + ClockText(a % 86_400), "T" + ClockText(b % 86_400);
    FieldOrder(s.y, t.y, 4, Pad(s.m, 2) + (Pad(s.d, 2) + ac), Pad(t.m, 2) + (Pad(t.d, 2) + bc));
    FieldOrder(s.m, t.m, 2, Pad(s.d, 2) + ac, Pad(t.d, 2) + bc);
    FieldOrder(s.d, t.d, 2, ac, bc);
    LexConcat("T", "T", ClockText(a % 86_400), ClockText(b % 86_400));
    ClockOrder(a % 86_400, b % 86_400);
    if a / 86_400 < b / 86_400 { DatesIncrease(a / 86_400, b / 86_400); }
    if b / 86_400 < a / 86_400 { DatesIncrease(b / 86_400, a / 86_400); }
  }

  lemma Widths()
    ensures Pow10(1) == 10 && Pow10(2) == 100 && Pow10(3) == 1000 && Pow10(4) == 10000
    ensures LexLess("T", "T") == false
  {
  }

  lemma {:induction false} PadValue(n: nat, w: nat)
    ensures AllDigits(Pad(n, w)) && DigitsValue(Pad(n, w)) == n
  {
    if w > 0 {
      PadValue(n / 10, w - 1);
      assert Pad(n, w)[..|Pad(n, w)| - 1] == Pad(n / 10, w - 1);
    } else if n > 0 {
      DecimalValue(n);
    }
  }

  /** The number in part of a text. */
  function Field(s: string, from: nat, to: nat): Option<nat> {
    if from <= to <= |s| && AllDigits(s[from..to]) then Some(DigitsValue(s[from..to])) else None
  }

  /** A padded number at `p` reads back, and behind it comes the rest. */
  lemma FieldAt(s: string, p: nat, n: nat, w: nat, rest: string)
    requires p <= |s| && s[p..] == Pad(n, w) + rest
    ensures var q := p + |Pad(n, w)|; q <= |s| && Field(s, p, q) == Some(n) && s[q..] == rest
    ensures n < Pow10(w) ==> |Pad(n, w)| == w
  {
    PadLength(n, w);
    PadValue(n, w);
    hide Pad;
    var q := p + |Pad(n, w)|;
    assert s[p..q] == Pad(n, w);
    assert s[q..] == s[p..][|Pad(n, w)|..];
  }

  lemma CharAt(s: string, p: nat, c: char, rest: string)
    requires p <= |s| && s[p..] == [c] + rest
    ensures p < |s| && s[p] == c && s[p + 1..] == rest
  {
    assert s[p..][1..] == rest;
  }

  /** A stamp reads back as the calendar's date and the time of day; years beyond 9999 take more digits. */
  lemma StampReads(secs: nat)
    ensures var s, t := UtcStamp(secs), DateAfter(secs / 86_400);
      var y := |s| - 12;
      && y >= 4 && t.y >= 0 && t.m >= 0 && t.d >= 0
      && Field(s, 0, y) == Some(t.y) && Field(s, y, y + 2) == Some(t.m) && Field(s, y + 2, y + 4) == Some(t.d)
      && s[y + 4] == 'T' && s[y + 11] == 'Z'
      && exists hour: nat, minute: nat, second: nat ::
           && Field(s, y + 5, y + 7) == Some(hour) && Field(s, y + 7, y + 9) == Some(minute)
           && Field(s, y + 9, y + 11) == Some(second)
           && hour < 24 && minute < 60 && second < 60 && 3600 * hour + 60 * minute + second == secs % 86_400
  {
    hide Civil, DateAfter, Pad, DigitsValue, Field;
    var t := Civil(secs / 86_400);
    CivilIsCalendar(secs / 86_400);
    DatesReal(secs / 86_400);
    Widths();
    var rem := secs % 86_400;
    ClockNumber(rem);
    PadLength(t.y, 4);
    var s, y := UtcStamp(secs), |Pad(t.y, 4)|;
    assert s[0..] == s;
    DateFields(s, t, "T" + ClockText(rem));
    CharAt(s, y + 4, 'T', ClockText(rem));
    ClockFields(s, y + 5, rem);
  }

  lemma DateFields(s: string, t: Date, rest: string)
    requires t.y >= 0 && 0 <= t.m < 100 && 0 <= t.d < 100
    requires s == Pad(t.y, 4) + (Pad(t.m, 2) + (Pad(t.d, 2) + rest))
    ensures var y := |Pad(t.y, 4)|;
      && y + 4 <= |s| && Field(s, 0, y) == Some(t.y) && Field(s, y, y + 2) == Some(t.m)
      && Field(s, y + 2, y + 4) == Some(t.d) && s[y + 4..] == rest
  {
    hide Pad, Field;
    Widths();
    var y := |Pad(t.y, 4)|;
    assert s[0..] == s;
    FieldAt(s, 0, t.y, 4, Pad(t.m, 2) + (Pad(t.d, 2) + rest));
    FieldAt(s, y, t.m, 2, Pad(t.d, 2) + rest);
    FieldAt(s, y + 2, t.d, 2, rest);
  }

  lemma ClockFields(s: string, p: nat, rem: nat)
    requires rem < 86_400 && p <= |s| && s[p..] == ClockText(rem)
    ensures |s| == p + 7 && s[p + 6] == 'Z'
    ensures Field(s, p, p + 2) == Some(rem / 3600) && Field(s, p + 2, p + 4) == Some(rem % 3600 / 60)
    ensures Field(s, p + 4, p + 6) == Some(rem % 60)
  {
    hide Pad, Field;
    Widths();
    ClockNumber(rem);
    FieldAt(s, p, rem / 3600, 2, Pad(rem % 3600 / 60, 2) + (Pad(rem % 60, 2) + "Z"));
    FieldAt(s, p + 2, rem % 3600 / 60, 2, Pad(rem % 60, 2) + "Z");
    FieldAt(s, p + 4, rem % 60, 2, "Z");
    CharAt(s, p + 6, 'Z', "");
  }

  /** They have 16 characters exactly up to the year 9999 ... */
  lemma StampLength(secs: nat)
    ensures |UtcStamp(secs)| == 16 <==> secs < LIMIT
  {
    hide Civil, DateAfter;
    var t := Civil(secs / 86_400);
    CivilIsCalendar(secs / 86_400);
    DatesReal(secs / 86_400);
    FourDigitYears(secs / 86_400);
    Widths();
    var rem := secs % 86_400;
    PadLength(t.y, 4);
    PadLength(t.m, 2);
    PadLength(t.d, 2);
    ClockNumber(rem);
    PadLength(rem / 3600, 2);
    PadLength(rem % 3600 / 60, 2);
    PadLength(rem % 60, 2);
  }

  /** ... and right after it the order breaks. */
  lemma StampOrderEnds()
    ensures LexLess(UtcStamp(LIMIT), UtcStamp(LIMIT - 1))
  {
    hide Civil, LexLess, Pad, UtcStamp;
    LastDays();
    YearText();
    StampFirst(LIMIT);
    StampFirst(LIMIT - 1);
    FirstDecides(UtcStamp(LIMIT), UtcStamp(LIMIT - 1));
  }

  lemma StampFirst(secs: nat)
    ensures Pad(Nat(Civil(secs / 86_400).y), 4) != ""
    ensures UtcStamp(secs) != "" && UtcStamp(secs)[0] == Pad(Nat(Civil(secs / 86_400).y), 4)[0]
  {
    hide Pad, Civil, Pow10;
    PadLength(Nat(Civil(secs / 86_400).y), 4);
  }

  lemma FirstDecides(a: string, b: string)
    requires a != "" && b != "" && a[0] < b[0]
    ensures LexLess(a, b)
  {
  }

  lemma YearText()
    ensures Pad(10000, 4) != "" && Pad(10000, 4)[0] == '1'
    ensures Pad(9999, 4) != "" && Pad(9999, 4)[0] == '9'
  {
    assert Pad(1, 0) == "1" && Pad(10, 1)[0] == '1' && Pad(100, 2)[0] == '1' && Pad(1000, 3)[0] == '1';
    assert Pad(9, 1)[0] == '9' && Pad(99, 2)[0] == '9' && Pad(999, 3)[0] == '9';
  }
}
