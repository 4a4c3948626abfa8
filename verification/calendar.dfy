/** Time values and the proleptic Gregorian calendar as JavaScript's Date uses
    them, in one time zone.  An instant is a count of milliseconds since
    1970-01-01T00:00; a day number counts whole days from that date; weekday 0
    is Sunday, as Date.prototype.getDay reports it. */
module Calendar {

  type Instant = int

  const MsPerDay: int := 86400000

  /** The day number of the calendar day holding t. */
  function Day(t: Instant): int
  {
    t / MsPerDay
  }

  /** The largest magnitude of an ECMAScript time value (TimeClip in
      ECMA-262): 100,000,000 days either side of 1970-01-01.  A Date whose
      time value lies beyond it is an Invalid Date. */
  const MaxTime: int := 8640000000000000

  predicate InTimeRange(t: Instant)
  {
    -MaxTime <= t <= MaxTime
  }

  /** The first instant (00:00:00.000) of a day. */
  function Midnight(day: int): Instant
  {
    day * MsPerDay
  }

  /** date-fns startOfDay. */
  function StartOfDay(t: Instant): (r: Instant)
    ensures Day(r) == Day(t)
    ensures r <= t < r + MsPerDay
  {
    Midnight(Day(t))
  }

  /** date-fns endOfDay: 23:59:59.999 of the same day. */
  function EndOfDay(t: Instant): (r: Instant)
    ensures Day(r) == Day(t)
    ensures t <= r && r + 1 == Midnight(Day(t) + 1)
  {
    Midnight(Day(t) + 1) - 1
  }

  lemma DayOfMidnight(day: int)
    ensures Day(Midnight(day)) == day
  {
  }

  /** Every instant between two midnights falls on the first one's day. */
  lemma DayOfInstant(day: int, t: Instant)
    requires Midnight(day) <= t < Midnight(day + 1)
    ensures Day(t) == day
  {
  }

  lemma LastInstantOfDay(day: int)
    ensures Day(Midnight(day + 1) - 1) == day
  {
  }

  /** Date.prototype.getDay of any instant of day `day`: 1970-01-01 was a Thursday. */
  function Weekday(day: int): (w: int)
    ensures 0 <= w < 7
  {
    (day + 4) % 7
  }

  function GetDay(t: Instant): int
  {
    Weekday(Day(t))
  }

  predicate IsLeapYear(y: int)
  {
    y % 4 == 0 && (y % 100 != 0 || y % 400 == 0)
  }

  function YearLength(y: int): int
  {
    if IsLeapYear(y) then 366 else 365
  }

  /** Leap years below y, counted from a fixed origin (floor divisions). */
  function LeapCount(y: int): int
  {
    (y - 1) / 4 - (y - 1) / 100 + (y - 1) / 400
  }

  /** Day number of January 1 of year y. */
  function YearStart(y: int): int
  {
    365 * (y - 1970) + LeapCount(y) - LeapCount(1970)
  }

  lemma YearStartStep(y: int)
    ensures YearStart(y + 1) == YearStart(y) + YearLength(y)
  {
    DivStep(y, 4);
    DivStep(y, 100);
    DivStep(y, 400);
  }

  /** Going from y - 1 to y, the quotient by d grows exactly at multiples of d. */
  lemma DivStep(y: int, d: int)
    requires d > 0
    ensures y / d - (y - 1) / d == if y % d == 0 then 1 else 0
  {
    var q, r := y / d, y % d;
    if r == 0 {
      DivUnique(y - 1, d, q - 1, d - 1);
    } else {
      DivUnique(y - 1, d, q, r - 1);
    }
  }

  lemma DivUnique(x: int, d: int, q: int, r: int)
    requires d > 0 && 0 <= r < d && x == d * q + r
    ensures x / d == q
  {
    var q', r' := x / d, x % d;
    var k := q - q';
    assert d * k == d * q - d * q';
    assert d * k == r' - r;
    if k > 0 {
      MulAtLeast(d, k);
    } else if k < 0 {
      MulAtLeast(d, -k);
    }
  }

  lemma MulAtLeast(d: int, k: int)
    requires d > 0 && k >= 1
    ensures d * k >= d
  {
    assert d * k == d + d * (k - 1);
  }

  lemma {:induction false} YearStartMonotone(a: int, b: int)
    requires a < b
    ensures YearStart(a + 1) <= YearStart(b)
    decreases b - a
  {
    YearStartStep(a);
    if a + 1 < b {
      YearStartMonotone(a + 1, b);
      YearStartStep(a + 1);
    }
  }

  /** 400 Gregorian years hold exactly 146097 days. */
  lemma YearStartEra(q: int)
    ensures YearStart(2000 + 400 * q) == YearStart(2000) + 146097 * q
    ensures YearStart(2400 + 400 * q) == YearStart(2000) + 146097 * (q + 1)
  {
    assert (1999 + 400 * q) / 4 == 499 + 100 * q;
    assert (1999 + 400 * q) / 100 == 19 + 4 * q;
    assert (1999 + 400 * q) / 400 == 4 + q;
    assert (2399 + 400 * q) / 4 == 599 + 100 * q;
    assert (2399 + 400 * q) / 100 == 23 + 4 * q;
    assert (2399 + 400 * q) / 400 == 5 + q;
  }

  /** The year in [y, hi) whose days include day n. */
  function SearchYear(n: int, y: int, hi: int): (r: int)
    requires y < hi && YearStart(y) <= n < YearStart(hi)
    ensures y <= r < hi
    ensures YearStart(r) <= n < YearStart(r + 1)
    decreases hi - y
  {
    if n < YearStart(y + 1) then y
    else SearchYear(n, y + 1, hi)
  }

  /** The calendar year holding day n. */
  function YearOfDay(n: int): (y: int)
    ensures YearStart(y) <= n < YearStart(y + 1)
  {
    var q := (n - YearStart(2000)) / 146097;
    YearStartEra(q);
    SearchYear(n, 2000 + 400 * q, 2400 + 400 * q)
  }

  /** A day lies in exactly one year. */
  lemma YearOfDayUnique(n: int, y: int)
    requires YearStart(y) <= n < YearStart(y + 1)
    ensures YearOfDay(n) == y
  {
    var y' := YearOfDay(n);
    if y < y' {
      YearStartMonotone(y, y');
    } else if y' < y {
      YearStartMonotone(y', y);
    }
  }

  /** Days of year y before the first of month m (m == 13: the whole year). */
  function MonthStart(y: int, m: int): (r: int)
    requires 1 <= m <= 13
    ensures m == 1 ==> r == 0
    ensures m == 13 ==> r == YearLength(y)
  {
    [0, 31, 59, 90, 120, 151, 181, 212, 243, 273, 304, 334, 365][m - 1]
      + (if m > 2 && IsLeapYear(y) then 1 else 0)
  }

  function DaysInMonth(y: int, m: int): (r: int)
    requires 1 <= m <= 12
    ensures 28 <= r <= 31
  {
    MonthStart(y, m + 1) - MonthStart(y, m)
  }

  /** The month (1..12) of year y holding its day-of-year doy. */
  function SearchMonth(y: int, doy: int, m: int): (r: int)
    requires 1 <= m <= 12 && MonthStart(y, m) <= doy < YearLength(y)
    ensures m <= r <= 12
    ensures MonthStart(y, r) <= doy < MonthStart(y, r + 1)
    decreases 12 - m
  {
    if m == 12 || doy < MonthStart(y, m + 1) then m
    else SearchMonth(y, doy, m + 1)
  }

  lemma MonthStartMonotone(y: int, a: int, b: int)
    requires 1 <= a < b <= 13
    ensures MonthStart(y, a + 1) <= MonthStart(y, b)
  {
  }

  datatype Civil = Civil(year: int, month: int, day: int)

  predicate ValidCivil(c: Civil)
  {
    1 <= c.month <= 12 && 1 <= c.day <= DaysInMonth(c.year, c.month)
  }

  /** Day number of a calendar date. */
  function DaysFromCivil(c: Civil): int
    requires 1 <= c.month <= 12
  {
    YearStart(c.year) + MonthStart(c.year, c.month) + c.day - 1
  }

  /** Calendar date of a day number; DaysFromCivil undoes it. */
  function CivilFromDays(n: int): (c: Civil)
    ensures ValidCivil(c)
    ensures DaysFromCivil(c) == n
  {
    var y := YearOfDay(n);
    YearStartStep(y);
    var doy := n - YearStart(y);
    var m := SearchMonth(y, doy, 1);
    Civil(y, m, doy - MonthStart(y, m) + 1)
  }

  /** Every valid calendar date is the date of its own day number. */
  lemma CivilRoundTrip(c: Civil)
    requires ValidCivil(c)
    ensures CivilFromDays(DaysFromCivil(c)) == c
  {
    var n := DaysFromCivil(c);
    YearStartStep(c.year);
    YearOfDayUnique(n, c.year);
    var doy := n - YearStart(c.year);
    var m := SearchMonth(c.year, doy, 1);
    if m < c.month {
      MonthStartMonotone(c.year, m, c.month);
    } else if c.month < m {
      MonthStartMonotone(c.year, c.month, m);
    }
  }

  /** ECMAScript MakeDay (section 21.4.1.28 of ECMA-262): the day number of
      (year, monthIndex, date) where monthIndex counts from 0 and both the month
      and the date may lie outside their usual range and carry over. */
  function MakeDay(year: int, monthIndex: int, date: int): (r: int)
    ensures 0 <= monthIndex < 12 ==> r == DaysFromCivil(Civil(year, monthIndex + 1, 1)) + date - 1
  {
    var ym := year + monthIndex / 12;
    var mn := monthIndex % 12;
    assert 0 <= monthIndex < 12 ==> ym == year && mn == monthIndex;
    YearStart(ym) + MonthStart(ym, mn + 1) + date - 1
  }

  /** January 1 of any year from 1 on lies no earlier than 365 days a year
      before 1970 less the 477 leap days counted up to 1970. */
  lemma YearStartAtLeast(y: int)
    requires y >= 1
    ensures YearStart(y) >= 365 * (y - 1970) - 477
  {
    assert LeapCount(1970) == 477;
    assert (y - 1) / 4 >= (y - 1) / 100;
  }

  lemma MonthStartNonNegative(y: int, m: int)
    requires 1 <= m <= 13
    ensures MonthStart(y, m) >= 0
  {
  }

  /** The midnight of a day in range is in range: -MaxTime is itself a midnight. */
  lemma StartOfDayInRange(t: Instant)
    requires InTimeRange(t)
    ensures InTimeRange(StartOfDay(t))
  {
  }

  /** Every day of the years 1..9999 lies well inside the time-value range. */
  lemma FourDigitYearInRange(n: int)
    requires 1 <= YearOfDay(n) <= 9999
    ensures InTimeRange(Midnight(n))
  {
    var y := YearOfDay(n);
    assert -800000 <= YearStart(y);
    assert YearStart(y + 1) <= 3000000;
  }

  function YearOf(t: Instant): int
  {
    CivilFromDays(Day(t)).year
  }
}
