/** The calendar engine of src/utils/dateUtils.ts: Monday-to-Sunday week
    bounds, the Sunday-based week-of-year number, working-day listing, day keys
    and their inverse, week membership and the week-range label. */
module DateUtils {

  import opened Seqs
  import opened Text
  import opened Calendar
  import opened DateFormat

  datatype WeekData = WeekData(startDate: Instant, endDate: Instant, weekNumber: int, year: int)

  /** JavaScript's Date.prototype.getDay value for Monday, Saturday, Sunday. */
  const Sunday: int := 0
  const Monday: int := 1
  const Friday: int := 5
  const Saturday: int := 6

  /** date-fns startOfWeek(t, { weekStartsOn: 1 }): midnight of the Monday on
      or before t. */
  function StartOfWeek(t: Instant): (r: Instant)
    ensures r == Midnight(Day(r))
    ensures GetDay(r) == Monday
    ensures Day(r) <= Day(t) < Day(r) + 7
  {
    var day := GetDay(t);
    var diff := (if day < Monday then 7 else 0) + day - Monday;
    DayOfMidnight(Day(t) - diff);
    Midnight(Day(t) - diff)
  }

  /** Day offset from t's day back to its week's Monday. */
  function MondayOffset(day: int): (d: int)
    requires 0 <= day < 7
    ensures 0 <= d < 7
    ensures (day - d + 7) % 7 == Monday
  {
    (if day < Monday then 7 else 0) + day - Monday
  }

  /** date-fns endOfWeek(t, { weekStartsOn: 1 }): 23:59:59.999 of the Sunday on
      or after t. */
  function EndOfWeek(t: Instant): (r: Instant)
    ensures Day(r) == Day(StartOfWeek(t)) + 6
    ensures GetDay(r) == Sunday
    ensures r + 1 == Midnight(Day(r) + 1)
  {
    var n := Day(t);
    var day := GetDay(t);
    var diff := (if day < Monday then -7 else 0) + 6 - (day - Monday);
    assert diff == 6 - MondayOffset(day);
    assert Day(StartOfWeek(t)) == n - MondayOffset(day);
    LastInstantOfDay(n + diff);
    assert Weekday(n + diff) == Sunday;
    Midnight(n + diff + 1) - 1
  }

  /** Sunday-based week of the year of day n: one plus the number of Sundays
      from January 2 up to n.  This is getWeekNumber's formula evaluated on
      whole days. */
  function WeekNumberOfDay(n: int): (w: int)
    ensures 1 <= w <= 54
  {
    var jan1 := YearStart(YearOfDay(n));
    YearStartStep(YearOfDay(n));
    (n - jan1 + Weekday(jan1) + 1 + 6) / 7
  }

  /** getWeekNumber as written: January 1 comes from new Date(year, 0, 1),
      so the two-digit-year rule applies; the days since January 1 are a
      fraction (milliseconds / 86400000) when t is not a midnight, and
      Math.ceil rounds that fraction up. */
  function GetWeekNumberAsWritten(t: Instant): int
  {
    var firstDayOfYear := Midnight(MakeDay(ConstructorYear(YearOf(t)), 0, 1));
    var numerator := t - firstDayOfYear + (GetDay(firstDayOfYear) + 1) * MsPerDay;
    var denominator := 7 * MsPerDay;
    (numerator + denominator - 1) / denominator
  }

  /** getWeekNumber as evidently intended: the week number of t's calendar day. */
  function GetWeekNumber(t: Instant): (w: int)
    ensures 1 <= w <= 54
  {
    WeekNumberOfDay(Day(t))
  }

  /** Floor division by the length of a week in milliseconds. */
  lemma DivWeekMs(a: int, k: int)
    requires 7 * MsPerDay * k <= a < 7 * MsPerDay * (k + 1)
    ensures a / (7 * MsPerDay) == k
  {
  }

  /** Outside years 0..99, new Date(year, 0, 1) is the year's first day. */
  lemma ConstructedNewYear(y: int)
    requires !(0 <= y <= 99)
    ensures MakeDay(ConstructorYear(y), 0, 1) == YearStart(y)
  {
  }

  /** The as-written formula in whole days: x counts the days from the Sunday
      before January 1 through t's day, f is t's offset into its day. */
  lemma AsWrittenInDays(t: Instant)
    requires !(0 <= YearOf(t) <= 99)
    ensures var n := Day(t);
      var jan1 := YearStart(YearOfDay(n));
      var x := n - jan1 + Weekday(jan1) + 1;
      x >= 1 &&
      GetWeekNumberAsWritten(t) == (if t == StartOfDay(t) then (x + 6) / 7 else x / 7 + 1)
  {
    var n := Day(t);
    var y := YearOfDay(n);
    assert YearOf(t) == y;
    var jan1 := YearStart(y);
    ConstructedNewYear(y);
    DayOfMidnight(jan1);
    YearStartStep(y);
    var w := Weekday(jan1);
    var x := n - jan1 + w + 1;
    var f := t - Midnight(n);
    assert 0 <= f < MsPerDay;
    var a := t - Midnight(jan1) + (w + 1) * MsPerDay + 7 * MsPerDay - 1;
    assert a == x * MsPerDay + f + 7 * MsPerDay - 1;
    var q, r := x / 7, x % 7;
    assert a == 7 * MsPerDay * (q + 1) + (r * MsPerDay + f - 1);
    if f == 0 && r == 0 {
      DivWeekMs(a, q);
    } else {
      DivWeekMs(a, q + 1);
    }
  }

  /** At any midnight the as-written formula gives the whole-day week number. */
  lemma AsWrittenAtMidnight(t: Instant)
    requires !(0 <= YearOf(t) <= 99)
    requires t == StartOfDay(t)
    ensures GetWeekNumberAsWritten(t) == GetWeekNumber(t)
  {
    AsWrittenInDays(t);
  }

  /** Away from midnight the as-written formula is one week ahead exactly on
      Saturdays, and agrees with the whole-day number on every other day. */
  lemma AsWrittenOffMidnight(t: Instant)
    requires !(0 <= YearOf(t) <= 99)
    requires t != StartOfDay(t)
    ensures GetWeekNumberAsWritten(t) == GetWeekNumber(t) + (if GetDay(t) == Saturday then 1 else 0)
  {
    AsWrittenInDays(t);
    var n := Day(t);
    var jan1 := YearStart(YearOfDay(n));
    SaturdayStep(n, jan1);
  }

  /** Counting days from the Sunday before jan1, day n ends a whole number of
      weeks exactly when it is a Saturday. */
  lemma SaturdayStep(n: int, jan1: int)
    ensures var x := n - jan1 + Weekday(jan1) + 1;
      x / 7 + 1 == (x + 6) / 7 + (if Weekday(n) == Saturday then 1 else 0)
  {
    var w := Weekday(jan1);
    var k := (jan1 + 4) / 7;
    assert jan1 + 4 == 7 * k + w;
    var x := n - jan1 + w + 1;
    assert x == n + 5 - 7 * k;
    var q, r := x / 7, x % 7;
    assert x == 7 * q + r;
    assert n + 4 == 7 * (q + k - 1) + r + 6;
    if r == 0 {
      assert (x + 6) / 7 == q;
      assert (n + 4) % 7 == 6;
    } else {
      assert (x + 6) / 7 == q + 1;
      assert (n + 4) % 7 == r - 1;
    }
  }

  /** A concrete instance: 2022-01-01 was a Saturday; at 00:00 that day the
      as-written formula reports week 1, at 12:00 it reports week 2. */
  lemma AsWrittenSaturdayNoon()
    ensures GetWeekNumberAsWritten(Midnight(18993)) == 1
    ensures GetWeekNumberAsWritten(Midnight(18993) + MsPerDay / 2) == 2
  {
    NewYear2022();
    var midnight, noon := Midnight(18993), Midnight(18993) + MsPerDay / 2;
    DayOfMidnight(18993);
    DayOfInstant(18993, noon);
    AsWrittenNewYearSaturday(2022, midnight);
    AsWrittenNewYearSaturday(2022, noon);
  }

  /** On a January 1 that is a Saturday, the as-written formula gives week 1
      at midnight and week 2 at every later instant of the day. */
  lemma AsWrittenNewYearSaturday(y: int, t: Instant)
    requires !(0 <= y <= 99)
    requires Weekday(YearStart(y)) == Saturday && Day(t) == YearStart(y)
    ensures GetWeekNumberAsWritten(t) == if t == Midnight(YearStart(y)) then 1 else 2
  {
    var n := YearStart(y);
    WeekNumberJanuaryFirst(y);
    YearStartStep(y);
    YearOfDayUnique(n, y);
    if t == Midnight(n) {
      NewYearMidnight(n);
    } else {
      NewYearAfterMidnight(n, t);
    }
  }

  /** At the midnight of a day in week 1 the as-written formula says 1. */
  lemma NewYearMidnight(n: int)
    requires !(0 <= YearOfDay(n) <= 99)
    requires WeekNumberOfDay(n) == 1
    ensures GetWeekNumberAsWritten(Midnight(n)) == 1
  {
    DayOfMidnight(n);
    AsWrittenAtMidnight(Midnight(n));
  }

  /** Later on a week-1 Saturday the as-written formula already says 2. */
  lemma NewYearAfterMidnight(n: int, t: Instant)
    requires !(0 <= YearOfDay(n) <= 99)
    requires WeekNumberOfDay(n) == 1 && Weekday(n) == Saturday
    requires Day(t) == n && t != Midnight(n)
    ensures GetWeekNumberAsWritten(t) == 2
  {
    assert GetWeekNumber(t) == 1 && GetDay(t) == Saturday;
    AsWrittenOffMidnight(t);
  }

  /** Day 18993 is 2022-01-01, a Saturday. */
  lemma NewYear2022()
    ensures YearStart(2022) == 18993 && YearOfDay(18993) == 2022 && Weekday(18993) == Saturday
  {
    assert YearStart(2022) == 18993;
    YearStartStep(2022);
    YearOfDayUnique(18993, 2022);
    assert 18993 + 4 == 7 * 2713 + 6;
  }

  /** January 1 is always in week 1. */
  lemma WeekNumberJanuaryFirst(y: int)
    ensures WeekNumberOfDay(YearStart(y)) == 1
  {
    YearStartStep(y);
    YearOfDayUnique(YearStart(y), y);
  }

  /** Within a year the week number goes up by one exactly on Sundays and
      stays the same on every other day. */
  lemma WeekNumberStep(n: int)
    requires YearOfDay(n + 1) == YearOfDay(n)
    ensures WeekNumberOfDay(n + 1) == WeekNumberOfDay(n) + (if Weekday(n + 1) == Sunday then 1 else 0)
  {
    SundayStep(n, YearStart(YearOfDay(n)));
  }

  /** Counting days from the Sunday before jan1, a new week starts on Sundays. */
  lemma SundayStep(n: int, jan1: int)
    ensures var x := n - jan1 + Weekday(jan1) + 1;
      (x + 7) / 7 == (x + 6) / 7 + (if Weekday(n + 1) == Sunday then 1 else 0)
  {
    var x := n - jan1 + Weekday(jan1) + 1;
    var k := (jan1 + 4) / 7;
    assert jan1 + 4 == 7 * k + Weekday(jan1);
    assert x == n + 5 - 7 * k;
    var q, r := (x + 6) / 7, (x + 6) % 7;
    assert x + 6 == 7 * q + r;
    assert n + 5 == 7 * (q + k - 1) + r + 1;
    if r == 6 {
      assert (x + 7) / 7 == q + 1;
      assert (n + 5) % 7 == 0;
    } else {
      assert (x + 7) / 7 == q;
      assert (n + 5) % 7 == r + 1;
    }
  }

  /** getWeekForDate. */
  function GetWeekForDate(t: Instant): (w: WeekData)
    ensures GetDay(w.startDate) == Monday && w.startDate == Midnight(Day(w.startDate))
    ensures GetDay(w.endDate) == Sunday && w.endDate + 1 == Midnight(Day(w.endDate) + 1)
    ensures Day(w.endDate) == Day(w.startDate) + 6
    ensures w.startDate <= t <= w.endDate
    ensures 1 <= w.weekNumber <= 54
    ensures w.year == YearOf(t)
  {
    WeekData(StartOfWeek(t), EndOfWeek(t), GetWeekNumber(t), YearOf(t))
  }

  /** getCurrentWeek: the week of the clock reading `now`, built field by
      field like getWeekForDate. */
  function GetCurrentWeek(now: Instant): (w: WeekData)
    ensures w == GetWeekForDate(now)
    ensures Day(w.startDate) <= Day(now) <= Day(w.endDate)
  {
    var start := StartOfWeek(now);
    var end := EndOfWeek(now);
    var weekNumber := GetWeekNumber(now);
    var year := YearOf(now);
    WeekData(start, end, weekNumber, year)
  }

  /** The week number getWeekForDate computes as written is the model's
      whole-day number, plus one at any instant after midnight on a
      Saturday. */
  lemma SourceWeekNumber(t: Instant)
    requires !(0 <= YearOf(t) <= 99)
    ensures GetWeekNumberAsWritten(t) ==
      GetWeekForDate(t).weekNumber + (if t != StartOfDay(t) && GetDay(t) == Saturday then 1 else 0)
  {
    if t == StartOfDay(t) {
      AsWrittenAtMidnight(t);
    } else {
      AsWrittenOffMidnight(t);
    }
  }

  /** isTodayFriday, for the clock reading `now`. */
  predicate IsTodayFriday(now: Instant)
  {
    GetDay(now) == Friday
  }

  /** date-fns isWeekend. */
  predicate IsWeekend(t: Instant)
  {
    GetDay(t) == Sunday || GetDay(t) == Saturday
  }

  /** isWeekday. */
  predicate IsWeekday(t: Instant)
  {
    !IsWeekend(t)
  }

  /** Midnights of days a..b, ascending. */
  function MidnightsFrom(a: int, b: int): (r: seq<Instant>)
    ensures |r| == if a <= b then b - a + 1 else 0
    ensures forall i :: 0 <= i < |r| ==> r[i] == Midnight(a + i)
    decreases b - a
  {
    if a > b then [] else [Midnight(a)] + MidnightsFrom(a + 1, b)
  }

  function Reverse<T>(xs: seq<T>): (r: seq<T>)
    ensures |r| == |xs|
    ensures forall i :: 0 <= i < |xs| ==> r[i] == xs[|xs| - 1 - i]
  {
    if |xs| == 0 then [] else Reverse(xs[1..]) + [xs[0]]
  }

  /** date-fns eachDayOfInterval: midnights of every day from start's day to
      end's day, in that direction. */
  function EachDayOfInterval(start: Instant, end: Instant): (r: seq<Instant>)
    ensures start <= end ==> |r| == Day(end) - Day(start) + 1
    ensures start <= end ==> forall i :: 0 <= i < |r| ==> r[i] == Midnight(Day(start) + i)
    ensures start > end ==> |r| == Day(start) - Day(end) + 1
    ensures start > end ==> forall i :: 0 <= i < |r| ==> r[i] == Midnight(Day(start) - i)
  {
    if start > end then Reverse(MidnightsFrom(Day(end), Day(start)))
    else MidnightsFrom(Day(start), Day(end))
  }

  ghost predicate Ascending(xs: seq<int>)
  {
    forall i, j :: 0 <= i < j < |xs| ==> xs[i] < xs[j]
  }

  ghost predicate Descending(xs: seq<int>)
  {
    forall i, j :: 0 <= i < j < |xs| ==> xs[i] > xs[j]
  }

  lemma {:induction false} SubsequenceKeepsOrder(a: seq<int>, b: seq<int>)
    requires IsSubsequence(a, b)
    ensures Ascending(b) ==> Ascending(a)
    ensures Descending(b) ==> Descending(a)
    decreases |b|
  {
    if |a| > 0 {
      if a[0] == b[0] {
        SubsequenceKeepsOrder(a[1..], b[1..]);
        SubsequenceMembers(a[1..], b[1..]);
      } else {
        SubsequenceKeepsOrder(a, b[1..]);
      }
    }
  }

  /** A day strictly inside the closed range between the days of x and y. */
  predicate DayBetween(n: int, x: Instant, y: Instant)
  {
    (Day(x) <= n <= Day(y)) || (Day(y) <= n <= Day(x))
  }

  predicate IsWorkingDay(d: Instant)
  {
    !IsWeekend(d)
  }

  /** getWeekDaysOnly: eachDayOfInterval filtered by !isWeekend. */
  function GetWeekDaysOnly(start: Instant, end: Instant): seq<Instant>
  {
    Filter(EachDayOfInterval(start, end), IsWorkingDay)
  }

  /** The days of the interval, by position. */
  lemma IntervalDays(start: Instant, end: Instant)
    ensures var all := EachDayOfInterval(start, end);
      forall i :: 0 <= i < |all| ==>
        all[i] == Midnight(Day(all[i])) && Day(all[i]) == (if start <= end then Day(start) + i else Day(start) - i)
  {
    var all := EachDayOfInterval(start, end);
    forall i | 0 <= i < |all|
      ensures all[i] == Midnight(Day(all[i])) && Day(all[i]) == (if start <= end then Day(start) + i else Day(start) - i)
    {
      if start <= end { DayOfMidnight(Day(start) + i); } else { DayOfMidnight(Day(start) - i); }
    }
  }

  /** The working days are midnights of Monday..Friday days inside the
      interval, in the interval's direction. */
  lemma WorkingDaysSound(start: Instant, end: Instant)
    ensures var r := GetWeekDaysOnly(start, end);
      forall i :: 0 <= i < |r| ==>
        r[i] == Midnight(Day(r[i])) && DayBetween(Day(r[i]), start, end) && Monday <= GetDay(r[i]) <= Friday
    ensures start <= end ==> Ascending(GetWeekDaysOnly(start, end))
    ensures start > end ==> Descending(GetWeekDaysOnly(start, end))
  {
    var all := EachDayOfInterval(start, end);
    var r := GetWeekDaysOnly(start, end);
    IntervalDays(start, end);
    forall i | 0 <= i < |r|
      ensures r[i] == Midnight(Day(r[i])) && DayBetween(Day(r[i]), start, end)
    {
      var j :| 0 <= j < |all| && all[j] == r[i];
    }
    SubsequenceKeepsOrder(r, all);
  }

  /** Every Monday..Friday day inside the interval is listed. */
  lemma WorkingDaysComplete(start: Instant, end: Instant, n: int)
    requires DayBetween(n, start, end) && Monday <= Weekday(n) <= Friday
    ensures Midnight(n) in GetWeekDaysOnly(start, end)
  {
    var all := EachDayOfInterval(start, end);
    var i := if start <= end then n - Day(start) else Day(start) - n;
    assert all[i] == Midnight(n);
    DayOfMidnight(n);
    assert IsWorkingDay(all[i]);
  }

  /** The working days of any week getWeekForDate returns are its Monday to
      Friday, in order. */
  lemma WeekHasFiveWorkingDays(t: Instant)
    ensures var w := GetWeekForDate(t);
      GetWeekDaysOnly(w.startDate, w.endDate) == seq(5, i => Midnight(Day(w.startDate) + i))
  {
    var w := GetWeekForDate(t);
    MondayToSundayWorkingDays(w.startDate, w.endDate);
  }

  /** The working days between a Monday and the Sunday six days later. */
  lemma MondayToSundayWorkingDays(start: Instant, end: Instant)
    requires GetDay(start) == Monday && start <= end && Day(end) == Day(start) + 6
    ensures GetWeekDaysOnly(start, end) == seq(5, i => Midnight(Day(start) + i))
  {
    var m := Day(start);
    var week := seq(7, i => Midnight(m + i));
    assert EachDayOfInterval(start, end) == week;
    forall i | 0 <= i < 7 ensures IsWorkingDay(week[i]) <==> i < 5 {
      DayOfMidnight(m + i);
      DaysAfterMonday(m, i);
    }
    assert week == week[..5] + [week[5], week[6]];
    FilterDropsTail(week[..5], week[5], week[6]);
  }

  lemma FilterDropsTail(days: seq<Instant>, x: Instant, y: Instant)
    requires forall i :: 0 <= i < |days| ==> IsWorkingDay(days[i])
    requires !IsWorkingDay(x) && !IsWorkingDay(y)
    ensures Filter(days + [x, y], IsWorkingDay) == days
  {
    FilterAppend(days, [x, y], IsWorkingDay);
    FilterKeepsAll(days, IsWorkingDay);
  }

  /** The weekday i days after a Monday. */
  lemma DaysAfterMonday(m: int, i: int)
    requires Weekday(m) == Monday && 0 <= i < 7
    ensures Weekday(m + i) == (1 + i) % 7
  {
  }

  /** isDateInWeek: t's day lies between the week's first and last days. */
  predicate IsDateInWeek(t: Instant, w: WeekData)
  {
    (StartOfDay(t) > StartOfDay(w.startDate) || Day(t) == Day(w.startDate))
    && (EndOfDay(t) < EndOfDay(w.endDate) || Day(t) == Day(w.endDate))
  }

  /** Membership is inclusive at both ends at day granularity. */
  lemma IsDateInWeekMeans(t: Instant, w: WeekData)
    ensures IsDateInWeek(t, w) <==> Day(w.startDate) <= Day(t) <= Day(w.endDate)
  {
    DayOfMidnight(Day(t));
    DayOfMidnight(Day(w.startDate));
    DayOfMidnight(Day(t) + 1);
    DayOfMidnight(Day(w.endDate) + 1);
  }

  /** Every instant is in the week getWeekForDate gives it. */
  lemma InOwnWeek(t: Instant)
    ensures IsDateInWeek(t, GetWeekForDate(t))
  {
    IsDateInWeekMeans(t, GetWeekForDate(t));
  }

  /** An instant is a weekday exactly when its midnight is one of the working
      days listed for its week. */
  lemma WeekdayIffListed(t: Instant)
    ensures var w := GetWeekForDate(t);
      IsWeekday(t) <==> Midnight(Day(t)) in GetWeekDaysOnly(w.startDate, w.endDate)
  {
    var w := GetWeekForDate(t);
    var r := GetWeekDaysOnly(w.startDate, w.endDate);
    var n := Day(t);
    DayOfMidnight(n);
    if IsWeekday(t) {
      WorkingDaysComplete(w.startDate, w.endDate, n);
    }
    if Midnight(n) in r {
      WorkingDaysSound(w.startDate, w.endDate);
      var i :| 0 <= i < |r| && r[i] == Midnight(n);
      assert Day(r[i]) == n;
    }
  }

  /** getWeekStringIdentifier. */
  function GetWeekStringIdentifier(w: WeekData): string
  {
    "week-" + IntToString(w.year) + "-" + IntToString(w.weekNumber)
  }

  /** Week identifiers of weeks with non-negative year and number determine
      the pair. */
  lemma WeekStringIdentifierInjective(a: WeekData, b: WeekData)
    requires a.year >= 0 && a.weekNumber >= 0 && b.year >= 0 && b.weekNumber >= 0
    requires GetWeekStringIdentifier(a) == GetWeekStringIdentifier(b)
    ensures a.year == b.year && a.weekNumber == b.weekNumber
  {
    var pa := WeekIdParts(a.year, a.weekNumber);
    var pb := WeekIdParts(b.year, b.weekNumber);
    assert pa[1] == pb[1] && pa[2] == pb[2];
  }

  /** The three '-'-separated fields of a week identifier. */
  lemma WeekIdParts(year: nat, weekNumber: nat) returns (parts: seq<string>)
    ensures parts == Split("week-" + IntToString(year) + "-" + IntToString(weekNumber), '-')
    ensures |parts| == 3 && AllDigits(parts[1]) && AllDigits(parts[2])
    ensures ParseDigits(parts[1]) == year && ParseDigits(parts[2]) == weekNumber
  {
    var ys, ns := Decimal(year), Decimal(weekNumber);
    NoDash(ys);
    NoDash(ns);
    assert "week-" + IntToString(year) + "-" + IntToString(weekNumber) == "week" + ['-'] + (ys + ['-'] + ns);
    SplitFront("week", '-', ys + ['-'] + ns);
    SplitFront(ys, '-', ns);
    parts := ["week", ys, ns];
  }

  /** getDayIdentifier: format(t, "yyyy-MM-dd"). */
  function GetDayIdentifier(t: Instant): string
  {
    DayKey(Day(t))
  }

  /** The Date constructor's two-digit-year rule: years 0..99 mean 1900..1999. */
  function ConstructorYear(y: int): int
  {
    if 0 <= y <= 99 then 1900 + y else y
  }

  /** getDateFromDayIdentifier: split at '-', Number() each field, then
      new Date(year, month - 1, day) at local midnight.  None is an Invalid
      Date: a missing or non-numeric field, or a date beyond the time-value
      range. */
  function GetDateFromDayIdentifier(dayId: string): (r: Option<Instant>)
    ensures var parts := Split(dayId, '-');
      r.Some? <==>
        (&& |parts| >= 3 && AllDigits(parts[0]) && AllDigits(parts[1]) && AllDigits(parts[2])
         && InTimeRange(LocalDate(ParseDigits(parts[0]), ParseDigits(parts[1]), ParseDigits(parts[2]))))
    ensures r.Some? ==> r.value == Midnight(Day(r.value)) && InTimeRange(r.value)
  {
    var parts := Split(dayId, '-');
    if |parts| < 3 then None
    else
      var year, month, day := NumberOf(parts[0]), NumberOf(parts[1]), NumberOf(parts[2]);
      if year.None? || month.None? || day.None? then None
      else TimeClip(LocalDate(year.value, month.value, day.value))
  }

  /** TimeClip: a time value beyond the range makes an Invalid Date. */
  function TimeClip(t: Instant): (r: Option<Instant>)
    ensures r.Some? <==> InTimeRange(t)
    ensures r.Some? ==> r.value == t
  {
    if InTimeRange(t) then Some(t) else None
  }

  /** new Date(year, month - 1, day) for numeric fields: local midnight of
      the day MakeDay names, after the two-digit-year rule. */
  function LocalDate(year: int, month: int, day: int): (r: Instant)
    ensures r == Midnight(Day(r))
    ensures 1 <= month <= 12 && !(0 <= year <= 99) ==>
      r == Midnight(DaysFromCivil(Civil(year, month, 1)) + day - 1)
  {
    var n := MakeDay(ConstructorYear(year), month - 1, day);
    DayOfMidnight(n);
    Midnight(n)
  }

  /** The edge of the Date range, reached through keys: +275760-09-13 is the
      last day the Date constructor accepts (its midnight is MaxTime), and the
      day after it is an Invalid Date. */
  lemma TimeRangeEdgeKeys()
    ensures GetDateFromDayIdentifier("275760-09-13") == Some(MaxTime)
    ensures GetDateFromDayIdentifier("275760-09-14").None?
  {
    LastValidKey();
    FirstInvalidKey();
  }

  lemma LastValidKey()
    ensures GetDateFromDayIdentifier("275760-09-13") == Some(MaxTime)
  {
    EdgeFieldValues();
    assert "275760-09-13" == KeyOf("275760", "09", "13");
    ParseKey("275760", "09", "13");
    EdgeDays();
  }

  lemma FirstInvalidKey()
    ensures GetDateFromDayIdentifier("275760-09-14").None?
  {
    EdgeFieldValues();
    assert "275760-09-14" == KeyOf("275760", "09", "14");
    ParseKey("275760", "09", "14");
    EdgeDays();
  }

  /** Day 100,000,000 after 1970-01-01 is 275760-09-13. */
  lemma EdgeDays()
    ensures LocalDate(275760, 9, 13) == MaxTime
    ensures LocalDate(275760, 9, 14) == MaxTime + MsPerDay
  {
    assert YearStart(275760) == 99999744;
    assert MonthStart(275760, 9) == 244;
  }

  lemma EdgeFieldValues()
    ensures AllDigits("275760") && ParseDigits("275760") == 275760
    ensures AllDigits("09") && ParseDigits("09") == 9
    ensures AllDigits("13") && ParseDigits("13") == 13
    ensures AllDigits("14") && ParseDigits("14") == 14
  {
    assert "275760"[..5] == "27576";
    assert "27576"[..4] == "2757";
    assert "2757"[..3] == "275";
    assert "275"[..2] == "27";
    assert "27"[..1] == "2";
    assert "09"[..1] == "0";
    assert "13"[..1] == "1";
    assert "14"[..1] == "1";
  }

  /** Number() rounds a digit field of 2^53 or more to a nearby double, which
      is again at least 2^53; any such field puts the date beyond the
      time-value range, so the rounding never changes the result. */
  lemma LargeFieldOutOfRange(year: nat, month: nat, day: nat)
    requires year >= 0x20_0000_0000_0000 || month >= 0x20_0000_0000_0000 || day >= 0x20_0000_0000_0000
    ensures !InTimeRange(LocalDate(year, month, day))
  {
    var y := ConstructorYear(year);
    var ym := y + (month - 1) / 12;
    assert ym >= 99;
    YearStartAtLeast(ym);
    MonthStartNonNegative(ym, (month - 1) % 12 + 1);
    assert MakeDay(y, month - 1, day) > 100000000;
  }

  /** Parsing the key of a valid date in a year from 100 on gives its midnight. */
  lemma DayIdentifierRoundTrip(t: Instant)
    requires YearOf(t) >= 100
    ensures InTimeRange(t) ==> GetDateFromDayIdentifier(GetDayIdentifier(t)) == Some(StartOfDay(t))
    ensures !InTimeRange(StartOfDay(t)) ==> GetDateFromDayIdentifier(GetDayIdentifier(t)).None?
  {
    KeyParsesToMidnight(t);
    if InTimeRange(t) {
      StartOfDayInRange(t);
    }
  }

  lemma KeyParsesToMidnight(t: Instant)
    requires YearOf(t) >= 100
    ensures GetDateFromDayIdentifier(GetDayIdentifier(t)) == TimeClip(StartOfDay(t))
  {
    var n := Day(t);
    var c := CivilFromDays(n);
    var ys, ms, ds := YearToken(c.year), ZeroPad(c.month, 2), ZeroPad(c.day, 2);
    ParseKey(ys, ms, ds);
    assert GetDayIdentifier(t) == KeyOf(ys, ms, ds);
    LocalDateOfDay(n);
  }

  /** Building a local date from day n's own fields gives day n's midnight. */
  lemma LocalDateOfDay(n: int)
    requires CivilFromDays(n).year >= 100
    ensures var c := CivilFromDays(n); LocalDate(c.year, c.month, c.day) == Midnight(n)
  {
    var c := CivilFromDays(n);
    assert DaysFromCivil(c) == DaysFromCivil(Civil(c.year, c.month, 1)) + c.day - 1;
  }

  /** Keys the day-key format can produce from years 100..9999: four digits,
      '-', two digits, '-', two digits naming a real calendar date. */
  predicate IsCanonicalDayKey(s: string)
  {
    && |s| == 10 && s[4] == '-' && s[7] == '-'
    && AllDigits(s[..4]) && AllDigits(s[5..7]) && AllDigits(s[8..])
    && ParseDigits(s[..4]) >= 100
    && 1 <= ParseDigits(s[5..7]) <= 12
    && 1 <= ParseDigits(s[8..]) <= DaysInMonth(ParseDigits(s[..4]), ParseDigits(s[5..7]))
  }

  /** A canonical key parses to a date whose key is the same text. */
  lemma DayKeyParseRoundTrip(s: string)
    requires IsCanonicalDayKey(s)
    ensures GetDateFromDayIdentifier(s).Some?
    ensures GetDayIdentifier(GetDateFromDayIdentifier(s).value) == s
  {
    var ys, ms, ds := s[..4], s[5..7], s[8..];
    KeyFields(s);
    ParseKey(ys, ms, ds);
    var c := Civil(ParseDigits(ys), ParseDigits(ms), ParseDigits(ds));
    var n := DaysFromCivil(c);
    assert LocalDate(c.year, c.month, c.day) == Midnight(n);
    CivilRoundTrip(c);
    FourDigitYearInRange(n);
    DayOfMidnight(n);
    CanonicalKeyOfDay(s, c);
  }

  /** The key of the day a canonical key names is that key. */
  lemma CanonicalKeyOfDay(s: string, c: Civil)
    requires IsCanonicalDayKey(s)
    requires c == Civil(ParseDigits(s[..4]), ParseDigits(s[5..7]), ParseDigits(s[8..]))
    ensures DayKey(DaysFromCivil(c)) == s
  {
    var ys, ms, ds := s[..4], s[5..7], s[8..];
    assert ValidCivil(c);
    CivilRoundTrip(c);
    var n := DaysFromCivil(c);
    assert CivilFromDays(n) == c;
    PadParse(ys);
    PadParse(ms);
    PadParse(ds);
    assert YearToken(c.year) == ys;
    assert ZeroPad(c.month, 2) == ms;
    assert ZeroPad(c.day, 2) == ds;
    assert DayKey(n) == KeyOf(ys, ms, ds);
    KeyFields(s);
  }

  /** A ten-character text with '-' at 4 and 7 is the key of its fields. */
  lemma KeyFields(s: string)
    requires |s| == 10 && s[4] == '-' && s[7] == '-'
    ensures s == KeyOf(s[..4], s[5..7], s[8..])
  {
    assert s == s[..4] + [s[4]] + s[5..7] + [s[7]] + s[8..];
  }

  /** A two-digit-year key does not survive the round trip: "0050-01-01" is
      read as January 1, 1950, whose key is "1950-01-01". */
  lemma TwoDigitYearKeyShifts()
    ensures GetDateFromDayIdentifier("0050-01-01") == Some(Midnight(YearStart(1950)))
  {
    assert "0050-01-01" == KeyOf("0050", "01", "01");
    FieldValues();
    ParseKey("0050", "01", "01");
    assert LocalDate(50, 1, 1) == Midnight(MakeDay(1950, 0, 1));
    assert MakeDay(1950, 0, 1) == YearStart(1950);
  }

  lemma FieldValues()
    ensures AllDigits("0050") && ParseDigits("0050") == 50
    ensures AllDigits("01") && ParseDigits("01") == 1
  {
    assert "0050"[..3] == "005";
    assert "005"[..2] == "00";
    assert "00"[..1] == "0";
    assert "01"[..1] == "0";
  }

  /** Reading a key made of three digit fields. */
  lemma ParseKey(a: string, b: string, c: string)
    requires AllDigits(a) && AllDigits(b) && AllDigits(c)
    ensures GetDateFromDayIdentifier(KeyOf(a, b, c)) == TimeClip(LocalDate(ParseDigits(a), ParseDigits(b), ParseDigits(c)))
  {
    SplitKey(a, b, c);
  }

  /** formatWeekRange: "MMM d-d, yyyy" when both dates have the same month
      abbreviation, "MMM d - MMM d, yyyy" otherwise; the year is the end's. */
  function FormatWeekRange(start: Instant, end: Instant): (r: string)
  {
    RangeLabel(CivilFromDays(Day(start)), CivilFromDays(Day(end)))
  }

  /** FormatWeekRange on calendar dates. */
  function RangeLabel(s: Civil, e: Civil): (r: string)
    requires ValidCivil(s) && ValidCivil(e)
    ensures var yearText := ", " + YearToken(e.year);
      |r| > |yearText| && r[|r| - |yearText|..] == yearText
    ensures StartsWith(r, MonthAbbrev(s.month) + " " + Decimal(s.day))
    ensures var k := 4 + |Decimal(s.day)|;
      k < |r| && (r[k] == '-' <==> s.month == e.month)
  {
    var startMonth := MonthAbbrev(s.month);
    var endMonth := MonthAbbrev(e.month);
    var head := startMonth + " " + Decimal(s.day);
    var tail := ", " + YearToken(e.year);
    if startMonth == endMonth then
      MonthAbbrevInjective(s.month, e.month);
      var mid := "-" + Decimal(e.day);
      ThreePieces(head, mid, tail);
      head + mid + tail
    else
      var mid := " - " + (endMonth + " " + Decimal(e.day));
      ThreePieces(head, mid, tail);
      head + mid + tail
  }

  /** How the label ends, and its length: with the two starting pieces the
      label's contract already gives, this fixes every character.  The end
      day and year close both forms; the two-month form puts " - " and the
      end month's abbreviation before them. */
  lemma RangeLabelEnd(s: Civil, e: Civil)
    requires ValidCivil(s) && ValidCivil(e)
    ensures var r, endText := RangeLabel(s, e), Decimal(e.day) + ", " + YearToken(e.year);
      |r| > |endText| && r[|r| - |endText|..] == endText
    ensures var r, endText := RangeLabel(s, e), " - " + MonthAbbrev(e.month) + " " + Decimal(e.day) + ", " + YearToken(e.year);
      s.month != e.month ==> |r| > |endText| && r[|r| - |endText|..] == endText
    ensures |RangeLabel(s, e)| ==
      4 + |Decimal(s.day)| + (if s.month == e.month then 1 else 7) + |Decimal(e.day)| + 2 + |YearToken(e.year)|
  {
    if s.month == e.month {
      SameMonthEnd(s, e);
    } else {
      if MonthAbbrev(s.month) == MonthAbbrev(e.month) {
        MonthAbbrevInjective(s.month, e.month);
      }
      TwoMonthEnd(s, e);
    }
  }

  lemma SameMonthEnd(s: Civil, e: Civil)
    requires ValidCivil(s) && ValidCivil(e) && s.month == e.month
    ensures var r, endText := RangeLabel(s, e), Decimal(e.day) + ", " + YearToken(e.year);
      && |r| == 4 + |Decimal(s.day)| + 1 + |endText|
      && r[|r| - |endText|..] == endText
  {
    var endText := Decimal(e.day) + ", " + YearToken(e.year);
    var front := MonthAbbrev(s.month) + " " + Decimal(s.day) + "-";
    assert RangeLabel(s, e) == front + endText;
    SuffixOfConcat(front, endText);
  }

  lemma TwoMonthEnd(s: Civil, e: Civil)
    requires ValidCivil(s) && ValidCivil(e) && MonthAbbrev(s.month) != MonthAbbrev(e.month)
    ensures var r, endText := RangeLabel(s, e), Decimal(e.day) + ", " + YearToken(e.year);
      && |r| == 4 + |Decimal(s.day)| + 7 + |endText|
      && r[|r| - |endText|..] == endText
    ensures var r, endText := RangeLabel(s, e), " - " + MonthAbbrev(e.month) + " " + Decimal(e.day) + ", " + YearToken(e.year);
      r[|r| - |endText|..] == endText
  {
    var head := MonthAbbrev(s.month) + " " + Decimal(s.day);
    var endMonth := " - " + MonthAbbrev(e.month) + " ";
    var endText := Decimal(e.day) + ", " + YearToken(e.year);
    TwoMonthLabel(s, e);
    SuffixOfConcat(head + endMonth, endText);
    SuffixOfConcat(head, endMonth + endText);
  }

  lemma TwoMonthLabel(s: Civil, e: Civil)
    requires ValidCivil(s) && ValidCivil(e) && MonthAbbrev(s.month) != MonthAbbrev(e.month)
    ensures var head, endMonth, endText :=
        MonthAbbrev(s.month) + " " + Decimal(s.day), " - " + MonthAbbrev(e.month) + " ",
        Decimal(e.day) + ", " + YearToken(e.year);
      && RangeLabel(s, e) == (head + endMonth) + endText
      && RangeLabel(s, e) == head + (endMonth + endText)
  {
  }

  /** A string built from three pieces starts with the first, ends with the
      last, and shows the middle piece's first character where it begins. */
  lemma ThreePieces(a: string, b: string, c: string)
    requires |b| > 0
    ensures var r := a + b + c;
      && r[..|a|] == a && r[|r| - |c|..] == c && r[|a|] == b[0]
  {
    var r := a + b + c;
    assert r[..|a|] == a;
    assert r[|r| - |c|..] == c;
  }
}
