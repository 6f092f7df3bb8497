/**
 The timestamp routine `rfc3339_now`: a closed-form conversion from a day count to a
 proleptic Gregorian date, and the fixed-width stamp printed from it.

 The closed form works on years that start in March and chains four floor divisions.
 It is proved equal to two definitions that share nothing with it: counting days with
 the ordinary January-based calendar, and stepping one day at a time from 1970-01-01.
 */
module Calendar {

  import opened Common

  datatype Date = Date(year: int, month: int, day: int)

  /** The leap rule of RFC 3339, Appendix C. */
  predicate Leap(y: int) {
    y % 4 == 0 && (y % 100 != 0 || y % 400 == 0)
  }

  function DaysInMonth(y: int, m: int): int {
    if m == 2 then (if Leap(y) then 29 else 28)
    else if m == 4 || m == 6 || m == 9 || m == 11 then 30
    else 31
  }

  predicate ValidDate(d: Date) {
    1 <= d.month <= 12 && 1 <= d.day <= DaysInMonth(d.year, d.month)
  }

  /** The day after d on a wall calendar. */
  function NextDay(d: Date): Date {
    if d.day < DaysInMonth(d.year, d.month) then Date(d.year, d.month, d.day + 1)
    else if d.month < 12 then Date(d.year, d.month + 1, 1)
    else Date(d.year + 1, 1, 1)
  }

  const EPOCH := Date(1970, 1, 1)

  /** The naive calendar: start at the epoch and turn n pages. */
  function DayByDay(n: nat): Date {
    if n == 0 then EPOCH else NextDay(DayByDay(n - 1))
  }

  /** Days of the year that precede the first of month m. */
  function DaysBeforeMonth(y: int, m: int): int {
    if m <= 1 then 0 else DaysBeforeMonth(y, m - 1) + DaysInMonth(y, m - 1)
  }

  /** Days of all years before y, counted from year 1. */
  function DaysBeforeYear(y: int): int {
    365 * (y - 1) + (y - 1) / 4 - (y - 1) / 100 + (y - 1) / 400
  }

  /** Day number of a date, with 1970-01-01 as day 0. */
  function DayNumber(d: Date): int {
    DaysBeforeYear(d.year) + DaysBeforeMonth(d.year, d.month) + d.day - 719_163
  }

  // ---------------------------------------------------------------- the closed form

  function YearOfEra(doe: int): int {
    (doe - doe / 1_460 + doe / 36_524 - doe / 146_096) / 365
  }

  function DayOfMarchYear(doe: int): int {
    var yoe := YearOfEra(doe);
    doe - (365 * yoe + yoe / 4 - yoe / 100)
  }

  function MarchMonth(doy: int): int {
    (5 * doy + 2) / 153
  }

  function CivilFromDays(days: int): Date {
    var z := days + 719_468;
    var era := z / 146_097;
    var doe := z % 146_097;
    var yoe := YearOfEra(doe);
    var y := yoe + era * 400;
    var doy := DayOfMarchYear(doe);
    var mp := MarchMonth(doy);
    var d := doy - (153 * mp + 2) / 5 + 1;
    var m := if mp < 10 then mp + 3 else mp - 9;
    Date(if m <= 2 then y + 1 else y, m, d)
  }

  /** A day of an era, read as century, four-year cycle, year of the cycle and day of the year. */
  ghost predicate Split(doe: int, c: int, q: int, k: int, t: int) {
    && 0 <= c <= 3 && 0 <= q <= 24 && 0 <= k <= 3 && 0 <= t
    && t <= 364 + (if k == 3 && (q < 24 || c == 3) then 1 else 0)
    && doe == 36_524 * c + 1_461 * q + 365 * k + t
  }

  lemma SplitExists(doe: int) returns (c: int, q: int, k: int, t: int)
    requires 0 <= doe < 146_097
    ensures Split(doe, c, q, k, t)
  {
    c := if doe == 146_096 then 3 else doe / 36_524;
    var r := doe - 36_524 * c;
    assert 0 <= c <= 3 && 0 <= r <= 36_523 + (if c == 3 then 1 else 0);
    q := r / 1_461;
    var s := r - 1_461 * q;
    k := if s == 1_460 then 3 else s / 365;
    t := s - 365 * k;
  }

  lemma YearOfSplit(doe: int, c: int, q: int, k: int, t: int)
    requires Split(doe, c, q, k, t)
    ensures YearOfEra(doe) == 100 * c + 4 * q + k
    ensures DayOfMarchYear(doe) == t
  {
    var e := (24 * c + q + 365 * k + t) / 1_460;
    QuotientsOfSplit(doe, c, q, k, t, e);
    var y := 100 * c + 4 * q + k;
    assert doe - doe / 1_460 + doe / 36_524 - doe / 146_096 == 365 * y + (t - e);
    assert y / 4 == 25 * c + q;
    assert y / 100 == c;
  }

  lemma QuotientsOfSplit(doe: int, c: int, q: int, k: int, t: int, e: int)
    requires Split(doe, c, q, k, t) && e == (24 * c + q + 365 * k + t) / 1_460
    ensures doe / 1_460 == 25 * c + q + e
    ensures doe / 36_524 - doe / 146_096 == c
    ensures 0 <= t - e < 365
  {
    assert doe == 1_460 * (25 * c + q) + (24 * c + q + 365 * k + t);
  }

  lemma LeapOfSplit(c: int, q: int, k: int)
    requires 0 <= c <= 3 && 0 <= q <= 24 && 0 <= k <= 3
    ensures Leap(100 * c + 4 * q + k + 1) <==> k == 3 && (q < 24 || c == 3)
  {
    var y := 100 * c + 4 * q + k + 1;
    assert y % 4 == (k + 1) % 4 by { assert y == 4 * (25 * c + q) + (k + 1); }
    if k == 3 {
      assert y == 100 * c + 4 * (q + 1);
      if q == 24 {
        assert y == 100 * (c + 1);
      } else {
        assert y % 100 == 4 * (q + 1);
      }
    }
  }

  /** No intermediate of the closed form leaves its range, and the day lies in its March-based year. */
  lemma IntermediatesInRange(doe: int)
    requires 0 <= doe < 146_097
    ensures 0 <= YearOfEra(doe) <= 399
    ensures 0 <= DayOfMarchYear(doe) <= 364 + (if Leap(YearOfEra(doe) + 1) then 1 else 0)
    ensures 0 <= MarchMonth(DayOfMarchYear(doe)) <= 11
  {
    var c, q, k, t := SplitExists(doe);
    YearOfSplit(doe, c, q, k, t);
    LeapOfSplit(c, q, k);
  }

  // ------------------------------------------------- closed form against day counting

  /** Days of the March-based year that precede its month mp. */
  function MarchMonthStart(mp: int): int {
    (153 * mp + 2) / 5
  }

  /** Day of the March-based year of a calendar day, seen from January-based months. */
  lemma MonthsFromMarch(y: int, doy: int, mp: int)
    requires 0 <= doy <= 364 + (if Leap(y + 1) then 1 else 0)
    requires 0 <= mp <= 11 && 153 * mp <= 5 * doy + 2 < 153 * mp + 153
    ensures var d := doy - MarchMonthStart(mp) + 1;
      var m := if mp < 10 then mp + 3 else mp - 9;
      var cy := if m <= 2 then y + 1 else y;
      && 1 <= m <= 12
      && 1 <= d <= DaysInMonth(cy, m)
      && DaysBeforeMonth(cy, m) + d == (if m <= 2 then doy - 305 else doy + 60 + (if Leap(y) then 1 else 0))
  {
    MonthTable(y);
    MonthTable(y + 1);
  }

  lemma MonthTable(y: int)
    ensures DaysBeforeMonth(y, 1) == 0 && DaysBeforeMonth(y, 2) == 31
    ensures var l := if Leap(y) then 1 else 0;
      && DaysBeforeMonth(y, 3) == 59 + l && DaysBeforeMonth(y, 4) == 90 + l
      && DaysBeforeMonth(y, 5) == 120 + l && DaysBeforeMonth(y, 6) == 151 + l
      && DaysBeforeMonth(y, 7) == 181 + l && DaysBeforeMonth(y, 8) == 212 + l
      && DaysBeforeMonth(y, 9) == 243 + l && DaysBeforeMonth(y, 10) == 273 + l
      && DaysBeforeMonth(y, 11) == 304 + l && DaysBeforeMonth(y, 12) == 334 + l
  {
    assert DaysBeforeMonth(y, 4) == DaysBeforeMonth(y, 3) + 31;
    assert DaysBeforeMonth(y, 7) == DaysBeforeMonth(y, 5) + 61;
    assert DaysBeforeMonth(y, 9) == DaysBeforeMonth(y, 7) + 62;
    assert DaysBeforeMonth(y, 11) == DaysBeforeMonth(y, 9) + 61;
  }

  lemma YearsOfEra(era: int, yoe: int)
    requires 0 <= yoe <= 399
    ensures DaysBeforeYear(era * 400 + yoe + 1) == 146_097 * era + 365 * yoe + yoe / 4 - yoe / 100
  {
    var y := 400 * era + yoe;
    assert y / 4 == 100 * era + yoe / 4;
    assert y / 100 == 4 * era + yoe / 100;
    assert y / 400 == era;
  }

  lemma QuotientStep(y: int, k: int)
    requires k == 4 || k == 100 || k == 400
    ensures y / k == (y - 1) / k + (if y % k == 0 then 1 else 0)
  {
  }

  lemma MultiplesOf(k: int)
    ensures 400 * k % 100 == 0
    ensures 100 * k % 4 == 0
  {
    assert 400 * k / 100 == 4 * k;
    assert 100 * k / 4 == 25 * k;
  }

  lemma Divisibility(y: int)
    ensures y % 400 == 0 ==> y % 100 == 0
    ensures y % 100 == 0 ==> y % 4 == 0
  {
    MultiplesOf(y / 400);
    MultiplesOf(y / 100);
  }

  lemma YearLength(y: int)
    ensures DaysBeforeYear(y + 1) == DaysBeforeYear(y) + 365 + (if Leap(y) then 1 else 0)
  {
    QuotientStep(y, 4);
    QuotientStep(y, 100);
    QuotientStep(y, 400);
    Divisibility(y);
  }

  /** The closed form yields a real date, and counting days by the ordinary calendar undoes it. */
  lemma DayNumberOfCivil(days: int)
    ensures ValidDate(CivilFromDays(days))
    ensures DayNumber(CivilFromDays(days)) == days
  {
    var z := days + 719_468;
    var era, doe := z / 146_097, z % 146_097;
    IntermediatesInRange(doe);
    CivilOfEra(era, YearOfEra(doe), DayOfMarchYear(doe), CivilFromDays(days));
  }

  lemma CivilOfEra(era: int, yoe: int, doy: int, date: Date)
    requires 0 <= yoe <= 399 && 0 <= doy <= 364 + (if Leap(yoe + 1) then 1 else 0)
    requires var mp := MarchMonth(doy);
      var m := if mp < 10 then mp + 3 else mp - 9;
      var y := yoe + era * 400;
      date == Date(if m <= 2 then y + 1 else y, m, doy - MarchMonthStart(mp) + 1)
    ensures ValidDate(date)
    ensures DayNumber(date) == 146_097 * era + 365 * yoe + yoe / 4 - yoe / 100 + doy - 719_468
  {
    LeapShift(yoe + 1, era);
    MonthsFromMarch(yoe + era * 400, doy, MarchMonth(doy));
    YearsOfEra(era, yoe);
    YearLength(yoe + era * 400);
  }

  lemma RemainderShift4(y: int, n: int)
    ensures (y + 4 * n) % 4 == y % 4
  {
    assert (y + 4 * n) / 4 == y / 4 + n;
  }

  lemma RemainderShift100(y: int, n: int)
    ensures (y + 100 * n) % 100 == y % 100
  {
    assert (y + 100 * n) / 100 == y / 100 + n;
  }

  lemma RemainderShift400(y: int, n: int)
    ensures (y + 400 * n) % 400 == y % 400
  {
    assert (y + 400 * n) / 400 == y / 400 + n;
  }

  lemma LeapShift(y: int, era: int)
    ensures Leap(y + era * 400) <==> Leap(y)
  {
    RemainderShift400(y, era);
    RemainderShift100(y, 4 * era);
    RemainderShift4(y, 100 * era);
  }

  lemma DayNumberOfNextDay(d: Date)
    requires ValidDate(d)
    ensures ValidDate(NextDay(d))
    ensures DayNumber(NextDay(d)) == DayNumber(d) + 1
  {
    YearLength(d.year);
    MonthTable(d.year);
    MonthTable(d.year + 1);
  }

  lemma MonthsAscend(y: int, m: int, m': int)
    requires 1 <= m < m' <= 12
    ensures DaysBeforeMonth(y, m) + DaysInMonth(y, m) <= DaysBeforeMonth(y, m')
  {
    MonthTable(y);
  }

  lemma YearsAscend(y: int, y': int)
    requires y < y'
    ensures DaysBeforeYear(y) + 365 + (if Leap(y) then 1 else 0) <= DaysBeforeYear(y')
  {
    YearLength(y);
    var a, b := y, y' - 1;
    assert a / 4 <= b / 4 && a / 400 <= b / 400;
    assert b / 100 - a / 100 <= b - a;
  }

  /** Dates in calendar order. */
  predicate Before(d: Date, e: Date) {
    || d.year < e.year
    || (d.year == e.year && d.month < e.month)
    || (d.year == e.year && d.month == e.month && d.day < e.day)
  }

  lemma DayNumberAscends(d: Date, e: Date)
    requires ValidDate(d) && ValidDate(e)
    ensures Before(d, e) <==> DayNumber(d) < DayNumber(e)
    ensures DayNumber(d) == DayNumber(e) ==> d == e
  {
    if Before(d, e) {
      DayNumberStrict(d, e);
    } else if Before(e, d) {
      DayNumberStrict(e, d);
    }
  }

  lemma DayNumberStrict(d: Date, e: Date)
    requires ValidDate(d) && ValidDate(e) && Before(d, e)
    ensures DayNumber(d) < DayNumber(e)
  {
    if d.year < e.year {
      YearsAscend(d.year, e.year);
      MonthTable(d.year);
      MonthTable(e.year);
    } else if d.month < e.month {
      MonthsAscend(d.year, d.month, e.month);
    }
  }

  /** The two conversions are inverse on all dates, not only on the ones the routine reaches. */
  lemma CivilOfDayNumber(d: Date)
    requires ValidDate(d)
    ensures CivilFromDays(DayNumber(d)) == d
  {
    DayNumberOfCivil(DayNumber(d));
    DayNumberAscends(CivilFromDays(DayNumber(d)), d);
  }

  /** Consecutive day counts, of either sign, are consecutive calendar days. */
  lemma CivilStep(days: int)
    ensures CivilFromDays(days + 1) == NextDay(CivilFromDays(days))
  {
    var d := CivilFromDays(days);
    DayNumberOfCivil(days);
    DayNumberOfNextDay(d);
    CivilOfDayNumber(NextDay(d));
  }

  lemma EpochIsDayZero()
    ensures CivilFromDays(0) == EPOCH
  {
    MonthTable(1970);
    assert DayNumber(EPOCH) == 0;
    CivilOfDayNumber(EPOCH);
  }

  /** Main result: the closed form is the naive calendar. */
  lemma {:induction false} CivilIsDayByDay(n: nat)
    ensures CivilFromDays(n) == DayByDay(n)
  {
    if n == 0 {
      EpochIsDayZero();
    } else {
      var d := CivilFromDays(n - 1);
      CivilIsDayByDay(n - 1);
      assert CivilFromDays(n) == NextDay(d) by { CivilStep(n - 1); }
    }
  }

  // ------------------------------------------------------------------ printed stamps

  const DAY_SECONDS := 86_400

  /** First second of the year 10000, where the year stops fitting four digits. */
  const FIVE_DIGIT_YEARS := 253_402_300_800

  function DigitOf(n: nat): char
    requires n < 10
  {
    '0' + n as char
  }

  /** Decimal digits of n, zero-padded to at least w of them. */
  function Padded(n: nat, w: nat): string {
    if n == 0 && w == 0 then "" else Padded(n / 10, if w == 0 then 0 else w - 1) + [DigitOf(n % 10)]
  }

  /** Each value padded to its width and followed by its separator. */
  function Render(values: seq<nat>, widths: seq<nat>, separators: string): string
    requires |values| == |widths| == |separators|
  {
    if values == [] then ""
    else Padded(values[0], widths[0]) + ([separators[0]] + Render(values[1..], widths[1..], separators[1..]))
  }

  const WIDTHS: seq<nat> := [4, 2, 2, 2, 2, 2]
  const SEPARATORS := "--T::Z"

  function FieldsOf(date: Date, rem: nat): (r: seq<nat>)
    requires ValidDate(date) && date.year >= 0 && rem < DAY_SECONDS
    ensures |r| == 6 && r[0] == date.year
  {
    [date.year, date.month, date.day, rem / 3_600, rem % 3_600 / 60, rem % 60]
  }

  lemma TwoDigitFields(date: Date, rem: nat)
    requires ValidDate(date) && date.year >= 0 && rem < DAY_SECONDS
    ensures forall i :: 0 < i < 6 ==> FieldsOf(date, rem)[i] < 100
  {
    assert rem / 3_600 < 24 && rem % 3_600 / 60 < 60;
  }

  function StampOf(date: Date, rem: nat): string
    requires ValidDate(date) && date.year >= 0 && rem < DAY_SECONDS
  {
    Render(FieldsOf(date, rem), WIDTHS, SEPARATORS)
  }

  function Stamp(secs: nat): string {
    StampDate(secs);
    StampOf(CivilFromDays(secs / DAY_SECONDS), secs % DAY_SECONDS)
  }

  lemma StampDate(secs: nat)
    ensures var d := CivilFromDays(secs / DAY_SECONDS);
      ValidDate(d) && d.year >= 1970 && DayNumber(d) == secs / DAY_SECONDS
  {
    DayNumberOfCivil(secs / DAY_SECONDS);
    NotBeforeEpoch(CivilFromDays(secs / DAY_SECONDS));
  }

  lemma NotBeforeEpoch(d: Date)
    requires ValidDate(d) && DayNumber(d) >= 0
    ensures d.year >= 1970
  {
    MonthTable(1970);
    DayNumberAscends(d, EPOCH);
  }

  lemma {:induction false} LexPrefix(p: string, a: string, b: string)
    ensures LexLess(p + a, p + b) <==> LexLess(a, b)
  {
    if p == [] {
      assert p + a == a && p + b == b;
    } else {
      assert (p + a)[1..] == p[1..] + a && (p + b)[1..] == p[1..] + b;
      LexPrefix(p[1..], a, b);
    }
  }

  lemma {:induction false} LexHead(x: string, y: string, a: string, b: string)
    requires |x| == |y| && LexLess(x, y)
    ensures LexLess(x + a, y + b)
  {
    assert (x + a)[1..] == x[1..] + a && (y + b)[1..] == y[1..] + b;
    if x[0] == y[0] {
      LexHead(x[1..], y[1..], a, b);
    }
  }

  lemma {:induction false} PaddedOrder(a: nat, b: nat, w: nat)
    requires a < b && |Padded(a, w)| == |Padded(b, w)|
    ensures LexLess(Padded(a, w), Padded(b, w))
  {
    var w' := if w == 0 then 0 else w - 1;
    if a == 0 && w == 0 {
      assert false;
    } else {
      var x, y := Padded(a / 10, w'), Padded(b / 10, w');
      if a / 10 < b / 10 {
        PaddedOrder(a / 10, b / 10, w');
        LexHead(x, y, [DigitOf(a % 10)], [DigitOf(b % 10)]);
      } else {
        assert a % 10 < b % 10;
        LexPrefix(x, [DigitOf(a % 10)], [DigitOf(b % 10)]);
      }
    }
  }

  lemma PaddedWidths()
    ensures forall n: nat :: n < 100 ==> |Padded(n, 2)| == 2
    ensures forall n: nat :: n < 10_000 ==> |Padded(n, 4)| == 4
  {
    forall n: nat | n < 100
      ensures |Padded(n, 2)| == 2
    {
      assert n / 10 / 10 == 0;
      assert Padded(n / 10, 1) == Padded(n / 10 / 10, 0) + [DigitOf(n / 10 % 10)];
    }
    forall n: nat | n < 10_000
      ensures |Padded(n, 4)| == 4
    {
      assert n / 10 / 10 / 10 / 10 == 0;
      assert Padded(n / 10, 3) == Padded(n / 10 / 10, 2) + [DigitOf(n / 10 % 10)];
      assert Padded(n / 10 / 10, 2) == Padded(n / 10 / 10 / 10, 1) + [DigitOf(n / 10 / 10 % 10)];
    }
  }

  ghost predicate TupleLess(a: seq<nat>, b: seq<nat>)
    requires |a| == |b|
  {
    a != [] && (a[0] < b[0] || (a[0] == b[0] && TupleLess(a[1..], b[1..])))
  }

  lemma {:induction false} RenderOrder(a: seq<nat>, b: seq<nat>, ws: seq<nat>, seps: string)
    requires |a| == |b| == |ws| == |seps|
    requires forall i :: 0 <= i < |a| ==> |Padded(a[i], ws[i])| == ws[i] && |Padded(b[i], ws[i])| == ws[i]
    requires TupleLess(a, b)
    ensures LexLess(Render(a, ws, seps), Render(b, ws, seps))
  {
    var x, y := Padded(a[0], ws[0]), Padded(b[0], ws[0]);
    var u := Render(a[1..], ws[1..], seps[1..]);
    var v := Render(b[1..], ws[1..], seps[1..]);
    if a[0] < b[0] {
      PaddedOrder(a[0], b[0], ws[0]);
      LexHead(x, y, [seps[0]] + u, [seps[0]] + v);
    } else {
      RenderOrder(a[1..], b[1..], ws[1..], seps[1..]);
      LexPrefix([seps[0]], u, v);
      LexPrefix(x, [seps[0]] + u, [seps[0]] + v);
    }
  }

  lemma ClockOrder(p: nat, q: nat)
    requires p < q
    ensures TupleLess([p / 3_600, p % 3_600 / 60, p % 60], [q / 3_600, q % 3_600 / 60, q % 60])
  {
    var a, b := [p / 3_600, p % 3_600 / 60, p % 60], [q / 3_600, q % 3_600 / 60, q % 60];
    assert a[1..] == [a[1], a[2]] && b[1..] == [b[1], b[2]];
    assert a[1..][1..] == [a[2]] && b[1..][1..] == [b[2]];
    assert TupleLess(a[1..][1..], b[1..][1..]) <==> a[2] < b[2];
    ClockFields(p, q);
  }

  lemma ClockFields(p: nat, q: nat)
    requires p < q
    ensures var h, h' := p / 3_600, q / 3_600;
      var m, m' := p % 3_600 / 60, q % 3_600 / 60;
      h < h' || (h == h' && (m < m' || (m == m' && p % 60 < q % 60)))
  {
    ClockSum(p);
    ClockSum(q);
  }

  lemma ClockSum(p: nat)
    ensures p == 3_600 * (p / 3_600) + 60 * (p % 3_600 / 60) + p % 60
    ensures p % 3_600 / 60 < 60
  {
    var r := p % 3_600;
    assert p == 60 * (60 * (p / 3_600)) + r;
    assert p % 60 == r % 60;
  }

  lemma FieldsOrder(d: Date, p: nat, e: Date, q: nat)
    requires ValidDate(d) && d.year >= 0 && p < DAY_SECONDS
    requires ValidDate(e) && e.year >= 0 && q < DAY_SECONDS
    requires Before(d, e) || (d == e && p < q)
    ensures TupleLess(FieldsOf(d, p), FieldsOf(e, q))
  {
    var a, b := FieldsOf(d, p), FieldsOf(e, q);
    var ta, tb := [p / 3_600, p % 3_600 / 60, p % 60], [q / 3_600, q % 3_600 / 60, q % 60];
    assert a[1..] == [d.month, d.day] + ta && b[1..] == [e.month, e.day] + tb;
    assert a[1..][1..] == [d.day] + ta && b[1..][1..] == [e.day] + tb;
    assert a[1..][1..][1..] == ta && b[1..][1..][1..] == tb;
    assert TupleLess(a[1..][1..], b[1..][1..]) <==> d.day < e.day || (d.day == e.day && TupleLess(ta, tb));
    if p < q {
      ClockOrder(p, q);
    }
  }

  lemma FourDigitYears(d: Date, secs: nat)
    requires ValidDate(d) && DayNumber(d) == secs / DAY_SECONDS
    ensures d.year <= 9_999 <==> secs < FIVE_DIGIT_YEARS
  {
    var first := Date(10_000, 1, 1);
    MonthTable(10_000);
    assert DayNumber(first) == 2_932_897;
    DayNumberAscends(d, first);
    assert Before(d, first) <==> d.year <= 9_999;
  }

  /** Printed stamps compare as text exactly as the instants compare, while years have four digits. */
  lemma StampOrder(s: nat, t: nat)
    requires s < FIVE_DIGIT_YEARS && t < FIVE_DIGIT_YEARS
    ensures s < t <==> LexLess(Stamp(s), Stamp(t))
    ensures s == t <==> Stamp(s) == Stamp(t)
  {
    var d, e := CivilFromDays(s / DAY_SECONDS), CivilFromDays(t / DAY_SECONDS);
    StampDate(s);
    StampDate(t);
    if s < t {
      StampOfAscends(d, s, e, t);
      LexOrder(Stamp(s), Stamp(t), Stamp(s));
    } else if t < s {
      StampOfAscends(e, t, d, s);
      LexOrder(Stamp(t), Stamp(s), Stamp(t));
    } else if LexLess(Stamp(s), Stamp(t)) {
      LexOrder(Stamp(s), Stamp(t), Stamp(s));
    }
  }

  lemma StampOfAscends(d: Date, s: nat, e: Date, t: nat)
    requires s < t < FIVE_DIGIT_YEARS
    requires ValidDate(d) && d.year >= 0 && DayNumber(d) == s / DAY_SECONDS
    requires ValidDate(e) && e.year >= 0 && DayNumber(e) == t / DAY_SECONDS
    ensures LexLess(StampOf(d, s % DAY_SECONDS), StampOf(e, t % DAY_SECONDS))
  {
    var p, q := s % DAY_SECONDS, t % DAY_SECONDS;
    FourDigitYears(d, s);
    FourDigitYears(e, t);
    DayNumberAscends(d, e);
    FieldsOrder(d, p, e, q);
    PaddedWidths();
    TwoDigitFields(d, p);
    TwoDigitFields(e, q);
    RenderOrder(FieldsOf(d, p), FieldsOf(e, q), WIDTHS, SEPARATORS);
  }

  ghost predicate TextOrderBelow(bound: nat) {
    forall s: nat, t: nat :: s < t < bound ==> LexLess(Stamp(s), Stamp(t))
  }

  lemma DateOfLastSecond(d: Date, e: Date)
    requires ValidDate(d) && DayNumber(d) == (FIVE_DIGIT_YEARS - 1) / DAY_SECONDS
    requires ValidDate(e) && DayNumber(e) == FIVE_DIGIT_YEARS / DAY_SECONDS
    ensures d.year == 9_999 && e.year == 10_000
  {
    MonthTable(9_999);
    MonthTable(10_000);
    DayNumberAscends(d, Date(9_999, 12, 31));
    DayNumberAscends(e, Date(10_000, 1, 1));
  }

  lemma FirstDigit(d: Date, rem: nat, c: char)
    requires ValidDate(d) && rem < DAY_SECONDS
    requires d.year == 9_999 || d.year == 10_000
    requires c == if d.year == 9_999 then '9' else '1'
    ensures StampOf(d, rem) != [] && StampOf(d, rem)[0] == c
  {
    if d.year == 9_999 {
      assert Padded(9, 1) == "9";
      assert Padded(99, 2) == Padded(9, 1) + "9";
      assert Padded(999, 3) == Padded(99, 2) + "9";
      assert Padded(9_999, 4) == Padded(999, 3) + "9";
    } else {
      assert Padded(1, 0) == "1";
      assert Padded(10, 1) == Padded(1, 0) + "0";
      assert Padded(100, 2) == Padded(10, 1) + "0";
      assert Padded(1_000, 3) == Padded(100, 2) + "0";
      assert Padded(10_000, 4) == Padded(1_000, 3) + "0";
    }
  }

  /** Text order is sound below a bound exactly when the bound stops at the year 10000. */
  lemma TextOrderIff(bound: nat)
    ensures TextOrderBelow(bound) <==> bound <= FIVE_DIGIT_YEARS
  {
    if bound <= FIVE_DIGIT_YEARS {
      forall s: nat, t: nat | s < t < bound
        ensures LexLess(Stamp(s), Stamp(t))
      {
        StampOrder(s, t);
      }
    } else {
      // The last four-digit instant prints after the first five-digit one.
      var s, t := FIVE_DIGIT_YEARS - 1, FIVE_DIGIT_YEARS;
      StampDate(s);
      StampDate(t);
      DateOfLastSecond(CivilFromDays(s / DAY_SECONDS), CivilFromDays(t / DAY_SECONDS));
      FirstDigit(CivilFromDays(s / DAY_SECONDS), s % DAY_SECONDS, '9');
      FirstDigit(CivilFromDays(t / DAY_SECONDS), t % DAY_SECONDS, '1');
      assert !LexLess(Stamp(s), Stamp(t));
    }
  }

  // ------------------------------------------------------------- stamps read as text

  /** At least w digits, and no more of them than it takes. */
  predicate Numeral(s: string, w: nat) {
    AllDigits(s) && |s| >= w && (|s| > w ==> s[0] != '0')
  }

  /**
   A text that states an instant, read by its characters alone: a numeral of at least four
   digits, then `-MM-DDThh:mm:ssZ`, where the date is valid and the clock stays in range.
   */
  ghost predicate States(t: string, secs: int) {
    |t| >= 20
    && var year, r := t[..|t| - 16], t[|t| - 16..];
    && r[0] == '-' && r[3] == '-' && r[6] == 'T' && r[9] == ':' && r[12] == ':' && r[15] == 'Z'
    && Numeral(year, 4) && AllDigits(r[1..3]) && AllDigits(r[4..6])
    && AllDigits(r[7..9]) && AllDigits(r[10..12]) && AllDigits(r[13..15])
    && var date := Date(Spelled(year), Spelled(r[1..3]), Spelled(r[4..6]));
    var hour, minute, second := Spelled(r[7..9]), Spelled(r[10..12]), Spelled(r[13..15]);
    && ValidDate(date) && hour < 24 && minute < 60 && second < 60
    && DayNumber(date) * 86_400 + 3_600 * hour + 60 * minute + second == secs
  }

  lemma {:induction false} PaddedSpells(n: nat, w: nat)
    ensures Numeral(Padded(n, w), w) && Spelled(Padded(n, w)) == n
    ensures n == 0 && w == 0 <==> Padded(n, w) == ""
    decreases n, w
  {
    if n > 0 || w > 0 {
      PaddedSpells(n / 10, if w == 0 then 0 else w - 1);
      SpelledMore(Padded(n / 10, if w == 0 then 0 else w - 1), n % 10, w);
    }
  }

  lemma SpelledMore(front: string, digit: nat, w: nat)
    requires digit < 10 && Numeral(front, if w == 0 then 0 else w - 1)
    requires front == "" && w == 0 ==> digit > 0
    ensures var s := front + [DigitOf(digit)];
      Numeral(s, w) && Spelled(s) == 10 * Spelled(front) + digit
  {
    var s := front + [DigitOf(digit)];
    assert s[..|s| - 1] == front;
    if front != "" {
      assert s[0] == front[0];
    }
  }

  lemma {:induction false} SpelledPads(s: string, w: nat)
    requires Numeral(s, w)
    ensures Padded(Spelled(s), w) == s
    ensures |s| > w ==> Spelled(s) > 0
    decreases |s|
  {
    if s != "" {
      NumeralFront(s, w);
      SpelledPads(s[..|s| - 1], if w == 0 then 0 else w - 1);
      PaddedStep(Spelled(s[..|s| - 1]), LastDigit(s), w);
    }
  }

  function LastDigit(s: string): (d: nat)
    requires AllDigits(s) && s != ""
    ensures d < 10
  {
    (s[|s| - 1] - '0') as nat
  }

  lemma NumeralFront(s: string, w: nat)
    requires Numeral(s, w) && s != ""
    ensures var front, w' := s[..|s| - 1], if w == 0 then 0 else w - 1;
      && Numeral(front, w')
      && Spelled(s) == 10 * Spelled(front) + LastDigit(s)
      && front + [DigitOf(LastDigit(s))] == s
      && (|front| > w' || LastDigit(s) > 0 || w > 0)
  {
    var front := s[..|s| - 1];
    assert s == front + [s[|s| - 1]];
    if front != "" {
      assert front[0] == s[0];
    }
  }

  lemma PaddedStep(n: nat, digit: nat, w: nat)
    requires digit < 10 && (n > 0 || digit > 0 || w > 0)
    ensures Padded(10 * n + digit, w) == Padded(n, if w == 0 then 0 else w - 1) + [DigitOf(digit)]
  {
    assert (10 * n + digit) / 10 == n && (10 * n + digit) % 10 == digit;
  }

  function Written(y: string, mo: string, d: string, h: string, mi: string, s: string): string {
    y + ("-" + mo + "-" + d + "T" + h + ":" + mi + ":" + s + "Z")
  }

  lemma RenderNext(values: seq<nat>, i: nat)
    requires i < |values| == 6
    ensures Render(values[i..], WIDTHS[i..], SEPARATORS[i..])
      == Padded(values[i], WIDTHS[i]) + ([SEPARATORS[i]] + Render(values[i + 1..], WIDTHS[i + 1..], SEPARATORS[i + 1..]))
  {
    assert values[i..][1..] == values[i + 1..] && WIDTHS[i..][1..] == WIDTHS[i + 1..];
    assert SEPARATORS[i..][1..] == SEPARATORS[i + 1..];
  }

  lemma RenderClock(v: seq<nat>)
    requires |v| == 6
    ensures Render(v[3..], WIDTHS[3..], SEPARATORS[3..])
      == Padded(v[3], 2) + (":" + (Padded(v[4], 2) + (":" + (Padded(v[5], 2) + "Z"))))
  {
    RenderNext(v, 5);
    RenderNext(v, 4);
    RenderNext(v, 3);
    assert v[6..] == [] && Render([], [], "") == "";
  }

  lemma RenderIsWritten(v: seq<nat>)
    requires |v| == 6
    ensures Render(v, WIDTHS, SEPARATORS)
      == Written(Padded(v[0], 4), Padded(v[1], 2), Padded(v[2], 2), Padded(v[3], 2), Padded(v[4], 2), Padded(v[5], 2))
  {
    RenderClock(v);
    RenderNext(v, 2);
    RenderNext(v, 1);
    RenderNext(v, 0);
    assert v[0..] == v && WIDTHS[0..] == WIDTHS && SEPARATORS[0..] == SEPARATORS;
    Chain(Padded(v[0], 4), Padded(v[1], 2), Padded(v[2], 2), Padded(v[3], 2), Padded(v[4], 2), Padded(v[5], 2));
  }

  lemma Chain(y: string, mo: string, d: string, h: string, mi: string, s: string)
    ensures y + ("-" + (mo + ("-" + (d + ("T" + (h + (":" + (mi + (":" + (s + "Z"))))))))))
      == Written(y, mo, d, h, mi, s)
  {
  }

  /** Where the parts of a written stamp are. */
  lemma WrittenParts(y: string, mo: string, d: string, h: string, mi: string, s: string)
    requires |mo| == |d| == |h| == |mi| == |s| == 2
    ensures var t := Written(y, mo, d, h, mi, s);
      && |t| == |y| + 16 && t[..|y|] == y
      && var r := t[|y|..];
      && r[0] == '-' && r[3] == '-' && r[6] == 'T' && r[9] == ':' && r[12] == ':' && r[15] == 'Z'
      && r[1..3] == mo && r[4..6] == d && r[7..9] == h && r[10..12] == mi && r[13..15] == s
  {
    var r := "-" + mo + "-" + d + "T" + h + ":" + mi + ":" + s + "Z";
    assert Written(y, mo, d, h, mi, s)[|y|..] == r;
    assert r[1..3] == mo && r[4..6] == d && r[7..9] == h && r[10..12] == mi && r[13..15] == s;
  }

  lemma PartsWritten(t: string)
    requires |t| >= 16
    requires var r := t[|t| - 16..];
      r[0] == '-' && r[3] == '-' && r[6] == 'T' && r[9] == ':' && r[12] == ':' && r[15] == 'Z'
    ensures var r := t[|t| - 16..];
      t == Written(t[..|t| - 16], r[1..3], r[4..6], r[7..9], r[10..12], r[13..15])
  {
    var r := t[|t| - 16..];
    assert r == "-" + r[1..3] + "-" + r[4..6] + "T" + r[7..9] + ":" + r[10..12] + ":" + r[13..15] + "Z";
  }

  lemma ClockOf(hour: nat, minute: nat, second: nat)
    requires hour < 24 && minute < 60 && second < 60
    ensures var rem := 3_600 * hour + 60 * minute + second;
      rem < DAY_SECONDS && rem / 3_600 == hour && rem % 3_600 / 60 == minute && rem % 60 == second
  {
    var rem := 3_600 * hour + 60 * minute + second;
    assert rem % 3_600 == 60 * minute + second;
    assert rem == 60 * (60 * hour + minute) + second;
  }

  lemma DayAndClock(day: int, clock: nat, secs: nat)
    requires day * 86_400 + clock == secs && clock < 86_400
    ensures secs / 86_400 == day && secs % 86_400 == clock
  {
  }

  lemma WrittenStates(y: string, mo: string, d: string, h: string, mi: string, s: string, secs: int)
    requires |mo| == |d| == |h| == |mi| == |s| == 2 && |y| >= 4
    requires Numeral(y, 4) && AllDigits(mo) && AllDigits(d) && AllDigits(h) && AllDigits(mi) && AllDigits(s)
    requires var date := Date(Spelled(y), Spelled(mo), Spelled(d));
      && ValidDate(date) && Spelled(h) < 24 && Spelled(mi) < 60 && Spelled(s) < 60
      && DayNumber(date) * 86_400 + 3_600 * Spelled(h) + 60 * Spelled(mi) + Spelled(s) == secs
    ensures States(Written(y, mo, d, h, mi, s), secs)
  {
    WrittenParts(y, mo, d, h, mi, s);
  }

  lemma TwoDigits(n: nat)
    requires n < 100
    ensures |Padded(n, 2)| == 2 && AllDigits(Padded(n, 2)) && Spelled(Padded(n, 2)) == n
  {
    PaddedWidths();
    PaddedSpells(n, 2);
  }

  lemma PaddedStates(date: Date, hour: nat, minute: nat, second: nat, secs: int)
    requires ValidDate(date) && date.year >= 0 && hour < 24 && minute < 60 && second < 60
    requires DayNumber(date) * 86_400 + 3_600 * hour + 60 * minute + second == secs
    ensures States(Written(Padded(date.year, 4), Padded(date.month, 2), Padded(date.day, 2),
                           Padded(hour, 2), Padded(minute, 2), Padded(second, 2)), secs)
  {
    PaddedSpells(date.year, 4);
    TwoDigits(date.month);
    TwoDigits(date.day);
    TwoDigits(hour);
    TwoDigits(minute);
    TwoDigits(second);
    WrittenStates(Padded(date.year, 4), Padded(date.month, 2), Padded(date.day, 2),
      Padded(hour, 2), Padded(minute, 2), Padded(second, 2), secs);
  }

  lemma StampLength(date: Date, rem: nat)
    requires ValidDate(date) && date.year >= 0 && rem < DAY_SECONDS
    ensures |StampOf(date, rem)| == |Padded(date.year, 4)| + 16
  {
    TwoDigits(date.month);
    TwoDigits(date.day);
    ClockSum(rem);
    TwoDigits(rem / 3_600);
    TwoDigits(rem % 3_600 / 60);
    TwoDigits(rem % 60);
    RenderIsWritten(FieldsOf(date, rem));
  }

  lemma StampStates(secs: nat)
    ensures States(Stamp(secs), secs)
    ensures |Stamp(secs)| == 20 <==> secs < FIVE_DIGIT_YEARS
  {
    StampDate(secs);
    var date, rem := CivilFromDays(secs / DAY_SECONDS), secs % DAY_SECONDS;
    ClockSum(rem);
    PaddedStates(date, rem / 3_600, rem % 3_600 / 60, rem % 60, secs);
    RenderIsWritten(FieldsOf(date, rem));
    StampLength(date, rem);
    FourDigitYears(date, secs);
    FourDigits(date.year);
  }

  lemma FourDigits(n: nat)
    ensures |Padded(n, 4)| == 4 <==> n < 10_000
  {
    if |Padded(n, 4)| == 4 {
      PaddedSpells(n, 4);
      SpelledBelow(Padded(n, 4));
    } else {
      PaddedWidths();
    }
  }

  lemma SpelledBelow(s: string)
    requires AllDigits(s) && |s| == 4
    ensures Spelled(s) < 10_000
  {
    var a, b, c := s[..3], s[..2], s[..1];
    assert a[..2] == b && b[..1] == c && c[..0] == "";
    assert Spelled(c) < 10 && Spelled(b) < 100 && Spelled(a) < 1_000;
  }

  lemma StatesOnlyStamp(t: string, secs: nat)
    requires States(t, secs)
    ensures t == Stamp(secs)
  {
    var year, r := t[..|t| - 16], t[|t| - 16..];
    var date := Date(Spelled(year), Spelled(r[1..3]), Spelled(r[4..6]));
    var hour, minute, second := Spelled(r[7..9]), Spelled(r[10..12]), Spelled(r[13..15]);
    var rem := 3_600 * hour + 60 * minute + second;
    ClockOf(hour, minute, second);
    DayAndClock(DayNumber(date), rem, secs);
    CivilOfDayNumber(date);
    SpelledPads(year, 4);
    SpelledPads(r[1..3], 2);
    SpelledPads(r[4..6], 2);
    SpelledPads(r[7..9], 2);
    SpelledPads(r[10..12], 2);
    SpelledPads(r[13..15], 2);
    RenderIsWritten(FieldsOf(date, rem));
    PartsWritten(t);
  }

  /** Main result: the stamp of an instant is the one text that states it. */
  lemma StampStatesIff(t: string, secs: nat)
    ensures States(t, secs) <==> t == Stamp(secs)
    ensures |Stamp(secs)| == 20 <==> secs < FIVE_DIGIT_YEARS
  {
    StampStates(secs);
    if States(t, secs) {
      StatesOnlyStamp(t, secs);
    }
  }
}
