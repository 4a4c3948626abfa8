/** The text forms of dates the core relies on: the date-fns tokens "yyyy",
    "MM", "dd", "d" and "MMM" (English locale) and Date.prototype.toISOString,
    all in the single time zone of the model. */
module DateFormat {

  import opened Seqs
  import opened Text
  import opened Calendar

  /** date-fns "yyyy": the era year (1 - y for years up to 0), zero-padded to
      four digits and longer when it needs more. */
  function YearToken(y: int): (s: string)
    ensures AllDigits(s) && |s| >= 4
    ensures 1 <= y ==> ParseDigits(s) == y
    ensures 1 <= y <= 9999 ==> |s| == 4
  {
    ZeroPad(if y > 0 then y else 1 - y, 4)
  }

  /** date-fns "MMM" in the default English locale. */
  function MonthAbbrev(m: int): (s: string)
    requires 1 <= m <= 12
    ensures |s| == 3
  {
    ["Jan", "Feb", "Mar", "Apr", "May", "Jun", "Jul", "Aug", "Sep", "Oct", "Nov", "Dec"][m - 1]
  }

  lemma MonthAbbrevInjective(a: int, b: int)
    requires 1 <= a <= 12 && 1 <= b <= 12
    requires MonthAbbrev(a) == MonthAbbrev(b)
    ensures a == b
  {
    var names := ["Jan", "Feb", "Mar", "Apr", "May", "Jun", "Jul", "Aug", "Sep", "Oct", "Nov", "Dec"];
    assert names[a - 1][0] == names[b - 1][0] && names[a - 1][1] == names[b - 1][1] && names[a - 1][2] == names[b - 1][2];
  }

  /** The three fields of a "yyyy-MM-dd" text. */
  function KeyOf(year: string, month: string, date: string): string
  {
    year + "-" + month + "-" + date
  }

  /** format(date, "yyyy-MM-dd") for any instant of day n. */
  function DayKey(n: int): (s: string)
  {
    var c := CivilFromDays(n);
    KeyOf(YearToken(c.year), ZeroPad(c.month, 2), ZeroPad(c.day, 2))
  }

  /** The year field of toISOString: four digits for years 0..9999, a sign
      and six digits otherwise. */
  function IsoYear(y: int): (s: string)
    ensures 'T' !in s
    ensures 1 <= y <= 9999 ==> s == YearToken(y)
  {
    if 0 <= y <= 9999 then NoDash(ZeroPad(y, 4)); ZeroPad(y, 4)
    else if y < 0 then NoDash(ZeroPad(-y, 6)); "-" + ZeroPad(-y, 6)
    else NoDash(ZeroPad(y, 6)); "+" + ZeroPad(y, 6)
  }

  /** The part of toISOString before 'T'. */
  function IsoDate(n: int): (s: string)
    ensures 'T' !in s
  {
    var c := CivilFromDays(n);
    var mm, dd := ZeroPad(c.month, 2), ZeroPad(c.day, 2);
    NoDash(mm);
    NoDash(dd);
    IsoYear(c.year) + "-" + mm + "-" + dd
  }

  /** The part of toISOString after 'T', for ms milliseconds into the day. */
  function IsoTime(ms: int): string
    requires 0 <= ms < MsPerDay
  {
    ZeroPad(ms / 3600000, 2) + ":" + ZeroPad(ms / 60000 % 60, 2) + ":"
      + ZeroPad(ms / 1000 % 60, 2) + "." + ZeroPad(ms % 1000, 3) + "Z"
  }

  /** Date.prototype.toISOString: "YYYY-MM-DDTHH:mm:ss.sssZ". */
  function IsoString(t: Instant): string
  {
    IsoDate(Day(t)) + "T" + IsoTime(t % MsPerDay)
  }

  /** task.date.split('T')[0]: the calendar-date text of a stored instant. */
  function DayPrefix(t: Instant): (s: string)
    ensures s == IsoDate(Day(t))
  {
    SplitHead(IsoDate(Day(t)), 'T', IsoTime(t % MsPerDay));
    Split(IsoString(t), 'T')[0]
  }

  lemma NoDash(s: string)
    requires AllDigits(s)
    ensures '-' !in s && 'T' !in s
  {
  }

  /** A key's fields have no '-' of their own, so splitting at '-' recovers them. */
  lemma SplitKey(a: string, b: string, c: string)
    requires AllDigits(a) && AllDigits(b) && AllDigits(c)
    ensures Split(KeyOf(a, b, c), '-') == [a, b, c]
  {
    NoDash(a);
    NoDash(b);
    NoDash(c);
    assert KeyOf(a, b, c) == a + ['-'] + (b + ['-'] + c);
    SplitFront(a, '-', b + ['-'] + c);
    SplitFront(b, '-', c);
  }

  /** Two days with the same key in years from 1 on are the same day. */
  lemma DayKeyInjective(a: int, b: int)
    requires CivilFromDays(a).year >= 1 && CivilFromDays(b).year >= 1
    requires DayKey(a) == DayKey(b)
    ensures a == b
  {
    var ca, cb := CivilFromDays(a), CivilFromDays(b);
    SplitKey(YearToken(ca.year), ZeroPad(ca.month, 2), ZeroPad(ca.day, 2));
    SplitKey(YearToken(cb.year), ZeroPad(cb.month, 2), ZeroPad(cb.day, 2));
    assert ParseDigits(YearToken(ca.year)) == ParseDigits(YearToken(cb.year));
    assert ca == cb;
  }

  /** For years 1..9999 the key is the ISO date text, ten characters long. */
  lemma DayKeyIsIsoDate(n: int)
    requires 1 <= CivilFromDays(n).year <= 9999
    ensures DayKey(n) == IsoDate(n)
    ensures |DayKey(n)| == 10
  {
    var c := CivilFromDays(n);
    assert |ZeroPad(c.month, 2)| == 2 && |ZeroPad(c.day, 2)| == 2;
  }

  /** The rule getTasksForDay and groupTasksByDay depend on: for dates in
      years 1..9999, a stored instant's ISO text starts with a day's key
      exactly when the instant falls on that day. */
  lemma {:induction false} IsoStartsWithDayKey(t: Instant, n: int)
    requires 1 <= YearOf(t) <= 9999
    requires 1 <= CivilFromDays(n).year <= 9999
    ensures StartsWith(IsoString(t), DayKey(n)) <==> Day(t) == n
  {
    DayKeyIsIsoDate(Day(t));
    DayKeyIsIsoDate(n);
    var d := IsoDate(Day(t));
    var s := IsoString(t);
    PrefixOfThree(d, "T", IsoTime(t % MsPerDay));
    if StartsWith(s, DayKey(n)) {
      SamePrefix(s, DayKey(n), d);
      DayKeyInjective(Day(t), n);
    }
  }
}
