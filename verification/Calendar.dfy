/** The proleptic Gregorian calendar, defined year by year and month by month. */
module Calendar {

  datatype DateTime = DateTime(year: int, month: int, day: int, hour: int, minute: int, second: int, nanos: int)

  predicate Leap(y: int) {
    y % 4 == 0 && (y % 100 != 0 || y % 400 == 0)
  }

  function YearLength(y: int): (n: int) {
    if Leap(y) then 366 else 365
  }

  function MonthLength(y: int, m: int): (n: int)
    requires 1 <= m <= 12
    ensures 28 <= n <= 31
  {
    if m == 2 then (if Leap(y) then 29 else 28)
    else if m == 4 || m == 6 || m == 9 || m == 11 then 30
    else 31
  }

  /** Days from 1 January 1970 to 1 January of `y`, counted one year at a time. */
  function YearDays(y: int): (n: int)
    decreases if y >= 1970 then y - 1970 else 1970 - y
  {
    if y == 1970 then 0
    else if y > 1970 then YearDays(y - 1) + YearLength(y - 1)
    else YearDays(y + 1) - YearLength(y)
  }

  /** Days of `y` before the first of month `m`; month 13 stands for the end of the year. */
  function MonthDays(y: int, m: int): (n: int)
    requires 1 <= m <= 13
  {
    if m == 1 then 0 else MonthDays(y, m - 1) + MonthLength(y, m - 1)
  }

  function DayNumber(y: int, m: int, d: int): (n: int)
    requires 1 <= m <= 12
  {
    YearDays(y) + MonthDays(y, m) + (d - 1)
  }

  predicate Valid(dt: DateTime) {
    && 1 <= dt.month <= 12 && 1 <= dt.day <= MonthLength(dt.year, dt.month)
    && 0 <= dt.hour < 24 && 0 <= dt.minute < 60 && 0 <= dt.second < 60
    && 0 <= dt.nanos < 1_000_000_000
  }

  /** Seconds since the epoch, from the day count. */
  function Seconds(dt: DateTime): (t: int)
    requires 1 <= dt.month <= 12
  {
    86_400 * DayNumber(dt.year, dt.month, dt.day) + 3600 * dt.hour + 60 * dt.minute + dt.second
  }

  // ----- order -----

  predicate DateBefore(a: DateTime, b: DateTime) {
    || a.year < b.year
    || (a.year == b.year && (a.month < b.month || (a.month == b.month && a.day < b.day)))
  }

  predicate SameDate(a: DateTime, b: DateTime) {
    a.year == b.year && a.month == b.month && a.day == b.day
  }

  predicate TimeBefore(a: DateTime, b: DateTime) {
    || a.hour < b.hour
    || (a.hour == b.hour && (a.minute < b.minute || (a.minute == b.minute && a.second < b.second)))
  }

  /** The lexicographic order on year, month, day, hour, minute, second. */
  predicate Before(a: DateTime, b: DateTime) {
    DateBefore(a, b) || (SameDate(a, b) && TimeBefore(a, b))
  }

  lemma YearStep(y: int)
    ensures YearDays(y + 1) == YearDays(y) + YearLength(y)
  {
  }

  lemma {:induction false} YearsApart(y: int, z: int)
    requires y < z
    ensures YearDays(y) + YearLength(y) <= YearDays(z)
    decreases z - y
  {
    YearStep(y);
    if y + 1 < z {
      YearsApart(y + 1, z);
    }
  }

  lemma MonthTable(y: int)
    ensures var f := if Leap(y) then 1 else 0;
            && MonthDays(y, 1) == 0 && MonthDays(y, 2) == 31 && MonthDays(y, 3) == 59 + f
            && MonthDays(y, 4) == 90 + f && MonthDays(y, 5) == 120 + f && MonthDays(y, 6) == 151 + f
            && MonthDays(y, 7) == 181 + f && MonthDays(y, 8) == 212 + f && MonthDays(y, 9) == 243 + f
            && MonthDays(y, 10) == 273 + f && MonthDays(y, 11) == 304 + f && MonthDays(y, 12) == 334 + f
            && MonthDays(y, 13) == 365 + f
  {
    assert MonthDays(y, 2) == MonthDays(y, 1) + 31;
    assert MonthDays(y, 3) == MonthDays(y, 2) + MonthLength(y, 2);
    assert MonthDays(y, 5) == MonthDays(y, 3) + 61;
    assert MonthDays(y, 7) == MonthDays(y, 5) + 61;
    assert MonthDays(y, 9) == MonthDays(y, 7) + 62;
    assert MonthDays(y, 11) == MonthDays(y, 9) + 61;
    assert MonthDays(y, 13) == MonthDays(y, 11) + 61;
  }

  lemma {:induction false} MonthsApart(y: int, m: int, n: int)
    requires 1 <= m < n <= 13
    ensures MonthDays(y, m) + MonthLength(y, m) <= MonthDays(y, n)
    decreases n - m
  {
    if m + 1 < n {
      MonthsApart(y, m + 1, n);
    }
  }

  lemma DayNumberOrder(a: DateTime, b: DateTime)
    requires Valid(a) && Valid(b) && DateBefore(a, b)
    ensures DayNumber(a.year, a.month, a.day) < DayNumber(b.year, b.month, b.day)
  {
    if a.year < b.year {
      YearsApart(a.year, b.year);
      MonthsApart(a.year, a.month, 13);
      MonthTable(a.year);
      if b.month > 1 {
        MonthsApart(b.year, 1, b.month);
      }
    } else if a.month < b.month {
      MonthsApart(a.year, a.month, b.month);
    }
  }

  lemma SecondsOrderOneWay(a: DateTime, b: DateTime)
    requires Valid(a) && Valid(b) && Before(a, b)
    ensures Seconds(a) < Seconds(b)
  {
    if DateBefore(a, b) {
      DayNumberOrder(a, b);
    }
  }

  /** The second count is strictly monotone on valid dates, and so it determines the date and time. */
  lemma SecondsOrder(a: DateTime, b: DateTime)
    requires Valid(a) && Valid(b)
    ensures Seconds(a) < Seconds(b) <==> Before(a, b)
    ensures Seconds(a) == Seconds(b) <==> SameDate(a, b) && a.(nanos := 0) == b.(nanos := 0)
  {
    if Before(a, b) {
      SecondsOrderOneWay(a, b);
    } else if Before(b, a) {
      SecondsOrderOneWay(b, a);
    }
  }
}

/** Conversion of a system time to a calendar date, on years that start in March. */
module DateConversion {
  import opened Arith
  import opened Calendar

  type i32 = x: int | -0x8000_0000 <= x < 0x8000_0000
  type i64 = x: int | -0x8000_0000_0000_0000 <= x < 0x8000_0000_0000_0000

  const LEAPOCH: i64 := 946_684_800 + 86400 * (31 + 29)
  const DAYS_PER_400Y: i32 := 365 * 400 + 97
  const DAYS_PER_100Y: i32 := 365 * 100 + 24
  const DAYS_PER_4Y: i32 := 365 * 4 + 1
  const DAYS_IN_MONTH: seq<int> := [31, 30, 31, 30, 31, 31, 30, 31, 30, 31, 31, 29]

  /** Division and remainder that truncate toward zero. */
  function TruncDiv(a: int, b: int): (q: int)
    requires b > 0
  {
    if a >= 0 then a / b else -((-a) / b)
  }

  function TruncRem(a: int, b: int): (r: int)
    requires b > 0
    ensures a == TruncDiv(a, b) * b + r && -b < r < b && (a >= 0 ==> r >= 0)
  {
    a - TruncDiv(a, b) * b
  }

  /** The answer of `duration_since(UNIX_EPOCH)`: how far after or before the epoch. */
  datatype SystemTime = SinceEpoch(secs: int, subsec: int) | UntilEpoch(secs: int, subsec: int)

  predicate InRange(st: SystemTime) {
    0 <= st.secs <= I64_MAX && 0 <= st.subsec < 1_000_000_000
  }

  function SignedNanos(st: SystemTime): (n: int) {
    var n := st.secs * 1_000_000_000 + st.subsec;
    if st.SinceEpoch? then n else -n
  }

  // ----- years from March to February -----

  /** Day number of 1 March of `2000 + y`, relative to 1 March 2000. */
  function MarchDays(y: int): (n: int) {
    DayNumber(2000 + y, 3, 1) - 11017
  }

  lemma {:induction false} LeapEpoch(y: int)
    requires 1970 <= y <= 2000
    ensures YearDays(y) == 365 * (y - 1970) + (y - 1969) / 4
    decreases y
  {
    if y > 1970 {
      LeapEpoch(y - 1);
      var z := y - 1;
      var q, r := z / 4, z % 4;
      DivModUnique(z, 19, z - 1900, 100);
      DivModUnique(z - 1968, q - 492, r, 4);
      DivModUnique(z - 1969, if r > 0 then q - 492 else q - 493, if r > 0 then r - 1 else 3, 4);
    }
  }

  lemma MarchStep(y: int)
    ensures MarchDays(y + 1) == MarchDays(y) + YearLength(2000 + y + 1)
  {
    YearStep(2000 + y);
    MonthTable(2000 + y);
    MonthTable(2000 + y + 1);
  }

  /** Number of leap days before the March year `y`. */
  function LeapDays(y: int): (n: int) {
    y / 4 - y / 100 + y / 400
  }

  lemma LeapDaysStep(y: int)
    ensures LeapDays(y + 1) == LeapDays(y) + (if Leap(2000 + y + 1) then 1 else 0)
  {
    QuotientStep(y, 4, 500);
    QuotientStep(y, 100, 20);
    QuotientStep(y, 400, 5);
    Multiples(2000 + y + 1);
  }

  lemma Multiples(x: int)
    ensures x % 400 == 0 ==> x % 100 == 0
    ensures x % 100 == 0 ==> x % 4 == 0
  {
    if x % 400 == 0 {
      DivModUnique(x, 4 * (x / 400), 0, 100);
    }
    if x % 100 == 0 {
      DivModUnique(x, 25 * (x / 100), 0, 4);
    }
  }

  /** The quotient by a divisor of 2000 grows exactly when the year 2000 + y + 1 is a multiple. */
  lemma QuotientStep(y: int, n: int, k: int)
    requires 0 < n && k * n == 2000
    ensures (y + 1) / n == y / n + (if (2000 + y + 1) % n == 0 then 1 else 0)
  {
    var q, r := y / n, y % n;
    assert y == q * n + r;
    Distribute(k, q, n);
    if r + 1 < n {
      DivModUnique(y + 1, q, r + 1, n);
      DivModUnique(2000 + y + 1, k + q, r + 1, n);
    } else {
      Distribute(q, 1, n);
      Distribute(k + q, 1, n);
      DivModUnique(y + 1, q + 1, 0, n);
      DivModUnique(2000 + y + 1, k + q + 1, 0, n);
    }
  }

  lemma {:induction false} MarchDaysClosed(y: int)
    ensures MarchDays(y) == 365 * y + LeapDays(y)
    decreases if y >= 0 then y else -y
  {
    if y == 0 {
      LeapEpoch(2000);
      MonthTable(2000);
    } else if y > 0 {
      MarchDaysClosed(y - 1);
      MarchStep(y - 1);
      LeapDaysStep(y - 1);
    } else {
      MarchDaysClosed(y + 1);
      MarchStep(y);
      LeapDaysStep(y);
    }
  }

  /** A year count split into 400, 100, 4 and 1 year cycles; the March year then starts after whole cycles. */
  predicate Cycles(qc: int, c: int, q: int, r: int) {
    0 <= c <= 3 && 0 <= q <= 24 && 0 <= r <= 3
  }

  function YearOf(qc: int, c: int, q: int, r: int): (y: int) {
    r + 4 * q + 100 * c + 400 * qc
  }

  lemma LeapDaysOfCycles(qc: int, c: int, q: int, r: int)
    requires Cycles(qc, c, q, r)
    ensures LeapDays(YearOf(qc, c, q, r)) == q + 24 * c + 97 * qc
  {
    var y := YearOf(qc, c, q, r);
    DivModUnique(y, q + 25 * c + 100 * qc, r, 4);
    DivModUnique(y, c + 4 * qc, r + 4 * q, 100);
    DivModUnique(y, qc, r + 4 * q + 100 * c, 400);
  }

  lemma MarchDaysOfCycles(qc: int, c: int, q: int, r: int)
    requires Cycles(qc, c, q, r)
    ensures MarchDays(YearOf(qc, c, q, r)) == DAYS_PER_400Y * qc + DAYS_PER_100Y * c + DAYS_PER_4Y * q + 365 * r
  {
    hide MarchDays, LeapDays;
    MarchDaysClosed(YearOf(qc, c, q, r));
    LeapDaysOfCycles(qc, c, q, r);
  }

  /** The last day of a March year exists only when its February has 29 days. */
  lemma LeapOfCycles(qc: int, c: int, q: int, r: int)
    requires Cycles(qc, c, q, r)
    ensures Leap(2000 + YearOf(qc, c, q, r) + 1) <==> r == 3 && (q != 24 || c == 3)
  {
    var year := 2000 + YearOf(qc, c, q, r) + 1;
    if r < 3 {
      DivModUnique(year, 500 + q + 25 * c + 100 * qc, r + 1, 4);
    } else {
      DivModUnique(year, 500 + q + 1 + 25 * c + 100 * qc, 0, 4);
      if q < 24 {
        DivModUnique(year, 20 + c + 4 * qc, 4 * (q + 1), 100);
      } else {
        DivModUnique(year, 20 + c + 1 + 4 * qc, 0, 100);
        DivModUnique(year, 5 + qc + (if c < 3 then 0 else 1), if c < 3 then 100 * (c + 1) else 0, 400);
      }
    }
  }

  /** Days from 1 March to the start of month number `m` of a March year. */
  function MarchMonths(m: int): (n: int)
    requires 0 <= m <= 12
  {
    if m == 0 then 0 else MarchMonths(m - 1) + DAYS_IN_MONTH[m - 1]
  }

  lemma MarchMonthTable()
    ensures MarchMonths(1) == 31 && MarchMonths(2) == 61 && MarchMonths(3) == 92 && MarchMonths(4) == 122
    ensures MarchMonths(5) == 153 && MarchMonths(6) == 184 && MarchMonths(7) == 214 && MarchMonths(8) == 245
    ensures MarchMonths(9) == 275 && MarchMonths(10) == 306 && MarchMonths(11) == 337 && MarchMonths(12) == 366
  {
    assert MarchMonths(3) == 92;
    assert MarchMonths(6) == MarchMonths(3) + 92;
    assert MarchMonths(9) == MarchMonths(6) + 91;
    assert MarchMonths(12) == MarchMonths(9) + 91;
  }

  /** Day `rem` of month `m` of the March year `y`, in calendar terms. */
  lemma MarchDate(y: int, m: int, rem: int)
    requires 0 <= m <= 11 && 0 <= rem < DAYS_IN_MONTH[m]
    requires m == 11 && rem == 28 ==> Leap(2000 + y + 1)
    ensures var (year, month) := if m >= 10 then (2000 + y + 1, m - 9) else (2000 + y, m + 3);
            && 1 <= month <= 12 && 1 <= rem + 1 <= MonthLength(year, month)
            && DayNumber(year, month, rem + 1) == 11017 + MarchDays(y) + MarchMonths(m) + rem
  {
    MarchMonthTable();
    MonthTable(2000 + y);
    if m >= 10 {
      MonthTable(2000 + y + 1);
      YearStep(2000 + y);
    }
  }

  // ----- the conversion -----

  /** The days, counted from 1 March 2000, that a 64-bit number of seconds can fall on. */
  predicate Countable(days: int) {
    -106_751_991_167_301 - 11018 <= days <= 106_751_991_167_300
  }

  /** Splits a day count since 1 March 2000 into whole cycles and the day within the March year. */
  method SplitDays(days: i64) returns (qc: i32, c: i32, q: i32, r: i32, rem: i32)
    requires Countable(days)
    ensures Cycles(qc, c, q, r)
    ensures days as int == DAYS_PER_400Y as int * qc as int + DAYS_PER_100Y as int * c as int
                           + DAYS_PER_4Y as int * q as int + 365 * r as int + rem as int
    ensures 0 <= rem <= 365 && (rem == 365 ==> r == 3 && (q != 24 || c == 3))
  {
    qc, rem := FloorSplit(days);
    c, rem := CappedSplit(rem, DAYS_PER_100Y, 4);
    q, rem := CappedSplit(rem, DAYS_PER_4Y, 25);
    r, rem := CappedSplit(rem, 365, 4);
  }

  /** Whole 400-year cycles, rounding down also for days before 1 March 2000. */
  method FloorSplit(days: i64) returns (qc: i32, rem: i32)
    requires Countable(days)
    ensures days == DAYS_PER_400Y as int * qc as int + rem as int && 0 <= rem < DAYS_PER_400Y
  {
    TruncDivBound(days);
    qc := TruncDiv(days, DAYS_PER_400Y);
    rem := TruncRem(days, DAYS_PER_400Y);
    if rem < 0 {
      rem := rem + DAYS_PER_400Y;
      qc := qc - 1;
    }
  }

  lemma TruncDivBound(days: int)
    requires Countable(days)
    ensures -0x7FFF_FFFF <= TruncDiv(days, 146097) <= 0x7FFF_FFFF
  {
    var r := TruncRem(days, 146097);
    assert days == TruncDiv(days, 146097) * 146097 + r;
  }

  /** Whole cycles of `unit` days, the last of at most `cap` cycles taking what is left over. */
  method CappedSplit(days: i32, unit: i32, cap: i32) returns (k: i32, rem: i32)
    requires 0 < unit && 1 < cap && 0 <= days && days as int < unit as int * cap as int + unit as int
    requires unit as int * cap as int < 0x1000_0000
    ensures 0 <= k < cap && 0 <= rem && days as int == k as int * unit as int + rem as int
    ensures k < cap - 1 ==> rem < unit
  {
    QuotientBound(days, unit, cap);
    k := TruncDiv(days, unit);
    assert days as int == TruncDiv(days, unit) * unit as int + TruncRem(days, unit);
    if k == cap {
      k := k - 1;
    }
    ProductBound(k, unit, days);
    rem := days - k * unit;
  }

  lemma ProductBound(k: int, b: int, a: int)
    requires 0 < b && 0 <= k && (k == a / b || k == a / b - 1) && 0 <= a
    ensures 0 <= k * b <= a
  {
    assert a == (a / b) * b + a % b;
    assert (a / b - 1) * b == (a / b) * b - b;
  }

  /** Finds the month of a March year; the table index stays within the twelve months. */
  method FindMonth(day: i32) returns (months: i32, rem: i32)
    requires 0 <= day <= 365
    ensures 0 <= months <= 11 && 0 <= rem < DAYS_IN_MONTH[months]
    ensures day == MarchMonths(months) + rem
  {
    MarchMonthTable();
    months := 0;
    rem := day;
    while DAYS_IN_MONTH[months] <= rem
      invariant 0 <= months <= 11 && 0 <= rem
      invariant day == MarchMonths(months) + rem
      decreases 11 - months
    {
      assert MarchMonths(months + 1) == MarchMonths(months) + DAYS_IN_MONTH[months] <= day;
      rem := rem - DAYS_IN_MONTH[months];
      months := months + 1;
    }
  }

  /**
   * Converts any system time in range, before or after the epoch: the result is a valid date and time
   * whose independent second count, with its nanoseconds, is exactly the input.
   */
  method FromSystemTime(timestamp: SystemTime) returns (dt: DateTime)
    requires InRange(timestamp)
    ensures Valid(dt)
    ensures Seconds(dt) * 1_000_000_000 + dt.nanos == SignedNanos(timestamp)
  {
    var t: i64, nanos;
    match timestamp {
      case SinceEpoch(secs, subsec) =>
        t, nanos := secs, subsec;
      case UntilEpoch(secs, subsec) =>
        if subsec == 0 {
          t, nanos := -secs, 0;
        } else {
          t, nanos := -secs - 1, 1_000_000_000 - subsec;
        }
    }

    var days, remsecs := SplitSeconds(t);
    var year, month, day := DateOfDays(days);
    dt := DateTime(year, month, day, TruncDiv(remsecs, 3600), TruncRem(TruncDiv(remsecs, 60), 60),
                   TruncRem(remsecs, 60), nanos);
    TimeOfDay(remsecs);
  }

  /** Days since 1 March 2000 and seconds of the day, rounding down also before the epoch. */
  method SplitSeconds(t: i64) returns (days: i64, remsecs: i32)
    ensures t as int == 86_400 * (days as int + 11017) + remsecs as int && 0 <= remsecs < 86_400
  {
    assert TruncDiv(LEAPOCH, 86_400) == 11017;
    days := TruncDiv(t, 86_400) - TruncDiv(LEAPOCH, 86_400);
    remsecs := TruncRem(t, 86_400);
    if remsecs < 0 {
      remsecs := remsecs + 86_400;
      days := days - 1;
    }
  }

  /** The calendar date of a day counted from 1 March 2000. */
  method DateOfDays(days: i64) returns (year: i64, month: int, day: int)
    requires Countable(days)
    ensures 1 <= month <= 12 && 1 <= day <= MonthLength(year, month)
    ensures DayNumber(year, month, day) == 11017 + days
  {
    hide MarchDays, DayNumber, MarchMonths;
    var qc, c, q, r, remdays := SplitDays(days);
    var years: i64 := r as int + 4 * q as int + 100 * c as int + 400 * qc as int;
    ghost var y := years;
    MarchDaysOfCycles(qc, c, q, r);
    LeapOfCycles(qc, c, q, r);

    var months;
    months, remdays := FindMonth(remdays);
    FebruaryStart();
    MarchDate(y, months, remdays);

    if months >= 10 {
      months := months - 12;
      years := years + 1;
    }
    return years + 2000, months + 3, remdays + 1;
  }

  lemma FebruaryStart()
    ensures MarchMonths(11) == 337
  {
    MarchMonthTable();
  }

  lemma TimeOfDay(s: int)
    requires 0 <= s < 86_400
    ensures 0 <= TruncDiv(s, 3600) < 24 && 0 <= TruncRem(TruncDiv(s, 60), 60) < 60 && 0 <= TruncRem(s, 60) < 60
    ensures s == 3600 * TruncDiv(s, 3600) + 60 * TruncRem(TruncDiv(s, 60), 60) + TruncRem(s, 60)
  {
    assert s / 60 / 60 == s / 3600;
  }

  /** Valid dates with their nanoseconds are ordered like their nanosecond counts, and equal only for equal counts. */
  lemma ConversionOrder(a: DateTime, b: DateTime)
    requires Valid(a) && Valid(b)
    ensures Seconds(a) * 1_000_000_000 + a.nanos < Seconds(b) * 1_000_000_000 + b.nanos <==> Earlier(a, b)
    ensures Seconds(a) * 1_000_000_000 + a.nanos == Seconds(b) * 1_000_000_000 + b.nanos <==> a == b
  {
    SecondsOrder(a, b);
  }

  /** Field by field, from the year down to the nanoseconds. */
  predicate Earlier(a: DateTime, b: DateTime) {
    Before(a, b) || (a.(nanos := 0) == b.(nanos := 0) && a.nanos < b.nanos)
  }

  /** The calendar in closed form: 1 March 2000 is day 11017, and the leap days in between follow the Gregorian rule. */
  lemma FirstOfMarch(y: int)
    ensures DayNumber(2000 + y, 3, 1) == 11017 + 365 * y + y / 4 - y / 100 + y / 400
  {
    hide DayNumber;
    MarchDaysClosed(y);
  }

  /** Conversion is strictly monotone: two times are converted to dates in the same order, equal ones to equal dates. */
  method ConvertBoth(t: SystemTime, u: SystemTime) returns (a: DateTime, b: DateTime)
    requires InRange(t) && InRange(u)
    ensures Valid(a) && Valid(b)
    ensures SignedNanos(t) < SignedNanos(u) <==> Earlier(a, b)
    ensures SignedNanos(t) == SignedNanos(u) <==> a == b
  {
    a := FromSystemTime(t);
    b := FromSystemTime(u);
    ConversionOrder(a, b);
  }
}
