/** The automatic Friday compilation of src/pages/Index.tsx: on a Friday,
    when no log is found for the current week and the week has tasks, the
    week's tasks are compiled into a log. */
module FridayCompile {

  import opened Seqs
  import opened Calendar
  import opened DateUtils
  import opened Storage

  /** Which branch the check took; Failed is the catch branch. */
  datatype Notice = NotFriday | AlreadyCompiled | NoTasks | Created(log: WeeklyLog) | Failed

  datatype Outcome = Outcome(store: Store, loading: bool, notice: Notice)

  /** checkForFridayCompilation.  `now` is the clock reading that both
      isTodayFriday and getCurrentWeek take; `lookupId` and `newId` are the
      fresh identifiers getWeeklyLog and createWeeklyLog draw; `saveFails`
      stands for localStorage refusing the write, which the catch reports
      with the store as it was. */
  function CheckForFridayCompilation(s: Store, now: Instant, lookupId: string, newId: string,
                                     compiledAt: Instant, saveFails: bool): (o: Outcome)
    ensures !o.loading
    ensures !IsTodayFriday(now) ==> o.store == s && o.notice == NotFriday
    ensures GetWeeklyLog(s, lookupId).Some? ==> o.store == s
    ensures |GetTasksForWeek(s, GetCurrentWeek(now))| == 0 ==> o.store == s
    ensures o.store.tasks == s.tasks
    ensures o.notice.Created? <==> IsTodayFriday(now) && GetWeeklyLog(s, lookupId).None?
                                   && |GetTasksForWeek(s, GetCurrentWeek(now))| > 0 && !saveFails
    ensures !o.notice.Created? ==> o.store == s
  {
    if !IsTodayFriday(now) then Outcome(s, false, NotFriday)
    else
      var week := GetCurrentWeek(now);
      if GetWeeklyLog(s, lookupId).Some? then Outcome(s, false, AlreadyCompiled)
      else
        var weekTasks := GetTasksForWeek(s, week);
        if |weekTasks| == 0 then Outcome(s, false, NoTasks)
        else if saveFails then Outcome(s, false, Failed)
        else
          var (s', log) := CreateWeeklyLog(s, week, weekTasks, newId, compiledAt);
          Outcome(s', false, Created(log))
  }

  /** When the check compiles, it makes exactly the one createWeeklyLog call
      for the current week with exactly that week's weekday tasks; the new log
      is then found under its id. */
  lemma FridayCreatesCurrentWeek(s: Store, now: Instant, lookupId: string, newId: string,
                                 compiledAt: Instant, saveFails: bool)
    requires CheckForFridayCompilation(s, now, lookupId, newId, compiledAt, saveFails).notice.Created?
    ensures var o := CheckForFridayCompilation(s, now, lookupId, newId, compiledAt, saveFails);
      var week := GetCurrentWeek(now);
      && IsTodayFriday(now)
      && (o.store, o.notice.log) == CreateWeeklyLog(s, week, GetTasksForWeek(s, week), newId, compiledAt)
      && GetWeeklyLog(o.store, newId) == Some(o.notice.log)
      && o.notice.log.weekNumber == week.weekNumber && o.notice.log.startDate == week.startDate
      && |o.notice.log.tasks| > 0
      && (forall t :: t in o.notice.log.tasks <==>
            t in s.tasks && StartOfWeek(t.date) == StartOfWeek(now) && IsWeekday(t.date))
  {
    var week := GetCurrentWeek(now);
    CreateThenGet(s, week, GetTasksForWeek(s, week), newId, compiledAt);
    TasksForWeekOfDate(s, now);
  }

  /** A compiled log covers the Monday-to-Sunday week around today, a Friday. */
  lemma FridayLogCoversToday(s: Store, now: Instant, lookupId: string, newId: string,
                             compiledAt: Instant, saveFails: bool)
    requires CheckForFridayCompilation(s, now, lookupId, newId, compiledAt, saveFails).notice.Created?
    ensures var log := CheckForFridayCompilation(s, now, lookupId, newId, compiledAt, saveFails).notice.log;
      && Day(log.startDate) + 4 == Day(now)
      && Day(log.endDate) == Day(now) + 2
  {
    var w := GetCurrentWeek(now);
    assert GetDay(now) == Friday;
    assert Weekday(Day(w.startDate)) == Monday;
    FridayOffset(Day(w.startDate), Day(now));
  }

  lemma FridayOffset(m: int, n: int)
    requires Weekday(m) == Monday && Weekday(n) == Friday && m <= n < m + 7
    ensures n == m + 4
  {
  }
}
