/** The task and weekly-log store of src/utils/storageUtils.ts.  The two
    localStorage entries become the two sequences of a Store value; every
    operation maps a store to a store.  Dates are kept as instants, and the ISO
    text the source stores is IsoString of them. */
module Storage {

  import opened Seqs
  import opened Text
  import opened Calendar
  import opened DateFormat
  import opened DateUtils

  /** A task; `skills` is read by the report and the log views. */
  datatype Task = Task(id: string, content: string, date: Instant, createdAt: Instant, skills: seq<string>)

  /** A compiled snapshot of one week's tasks. */
  datatype WeeklyLog = WeeklyLog(
    id: string, weekNumber: int, year: int,
    startDate: Instant, endDate: Instant,
    tasks: seq<Task>, compiledAt: Instant)

  datatype Store = Store(tasks: seq<Task>, logs: seq<WeeklyLog>)

  /** What getAllTasks and getAllWeeklyLogs read when nothing is stored. */
  const EmptyStore: Store := Store([], [])

  // ---------------------------------------------------------------- tasks

  /** task.date.startsWith(dayId), on the task's ISO date text. */
  predicate DatedWith(t: Task, dayId: string)
  {
    StartsWith(IsoString(t.date), dayId)
  }

  function OnDayKey(dayId: string): Task -> bool
  {
    (t: Task) => DatedWith(t, dayId)
  }

  /** The tasks whose ISO date text starts with dayId, in storage order. */
  function TasksWithKey(tasks: seq<Task>, dayId: string): (r: seq<Task>)
    ensures IsFilterOf(r, tasks, OnDayKey(dayId))
  {
    Filter(tasks, OnDayKey(dayId))
  }

  /** task.date.split('T')[0], the key the report and the log views group
      a log's tasks by. */
  function DayStr(t: Task): string
  {
    DayPrefix(t.date)
  }

  /** getTasksForDay. */
  function GetTasksForDay(s: Store, date: Instant): seq<Task>
  {
    TasksWithKey(s.tasks, GetDayIdentifier(date))
  }

  /** For dates in years 1..9999 a task is listed for a day exactly when it
      falls on that day. */
  lemma TasksForDayAreThatDay(s: Store, date: Instant, t: Task)
    requires 1 <= YearOf(date) <= 9999 && 1 <= YearOf(t.date) <= 9999
    ensures t in GetTasksForDay(s, date) <==> t in s.tasks && Day(t.date) == Day(date)
  {
    var key := GetDayIdentifier(date);
    OnDayKeyMeans(t, Day(date));
    FilterOfMembers(GetTasksForDay(s, date), s.tasks, OnDayKey(key), t);
  }

  /** A task carries at most one key of a given length. */
  lemma OneKeyOfLength(t: Task, a: string, b: string)
    requires OnDayKey(a)(t) && |a| == |b| && a != b
    ensures !OnDayKey(b)(t)
  {
    PrefixExcludes(IsoString(t.date), a, b);
  }

  /** For years 1..9999, a task carries day n's key exactly when it falls on
      day n. */
  lemma OnDayKeyMeans(t: Task, n: int)
    requires 1 <= YearOf(t.date) <= 9999 && 1 <= CivilFromDays(n).year <= 9999
    ensures OnDayKey(DayKey(n))(t) <==> Day(t.date) == n
  {
    IsoStartsWithDayKey(t.date, n);
  }

  function InWeek(w: WeekData): Task -> bool
  {
    (t: Task) => w.startDate <= t.date <= w.endDate && GetDay(t.date) != Sunday && GetDay(t.date) != Saturday
  }

  /** getTasksForWeek: the stored tasks between the week's bounds (inclusive)
      that fall on neither Sunday nor Saturday, in storage order. */
  function GetTasksForWeek(s: Store, w: WeekData): (r: seq<Task>)
    ensures IsFilterOf(r, s.tasks, InWeek(w))
  {
    Filter(s.tasks, InWeek(w))
  }

  /** The bounds of getWeekForDate(d) hold exactly the instants whose week
      starts on the same Monday as d's. */
  lemma WithinWeekBounds(d: Instant, t: Instant)
    ensures var w := GetWeekForDate(d);
      w.startDate <= t <= w.endDate <==> StartOfWeek(t) == StartOfWeek(d)
  {
    var w := GetWeekForDate(d);
    var m := Day(w.startDate);
    assert w.startDate == Midnight(m);
    var mt := Day(StartOfWeek(t));
    assert StartOfWeek(t) == Midnight(mt);
    if w.startDate <= t <= w.endDate {
      assert m <= Day(t) <= m + 6;
      SameMonday(m, mt);
    }
    if StartOfWeek(t) == StartOfWeek(d) {
      DayOfMidnight(m);
      LastInstantOfDay(m + 6);
    }
  }

  /** Two Mondays less than a week apart are the same day. */
  lemma SameMonday(a: int, b: int)
    requires Weekday(a) == Monday && Weekday(b) == Monday && -7 < a - b < 7
    ensures a == b
  {
  }

  /** getTasksForWeek of d's week is exactly the stored working-day tasks of
      the same Monday-to-Sunday week as d, in storage order. */
  lemma TasksForWeekOfDate(s: Store, d: Instant)
    ensures GetTasksForWeek(s, GetWeekForDate(d))
      == Filter(s.tasks, (t: Task) => StartOfWeek(t.date) == StartOfWeek(d) && IsWeekday(t.date))
  {
    var w := GetWeekForDate(d);
    var p := (t: Task) => StartOfWeek(t.date) == StartOfWeek(d) && IsWeekday(t.date);
    forall t: Task ensures InWeek(w)(t) == p(t) {
      WithinWeekBounds(d, t.date);
    }
    FilterSamePredicate(s.tasks, InWeek(w), p);
  }

  lemma {:induction false} FilterSamePredicate<T>(xs: seq<T>, p: T -> bool, q: T -> bool)
    requires forall x :: p(x) == q(x)
    ensures Filter(xs, p) == Filter(xs, q)
    decreases |xs|
  {
    if |xs| > 0 {
      FilterSamePredicate(xs[1..], p, q);
    }
  }

  /** The id addTask gives a task: "task-" + Date.now() + "-" + a random
      base-36 suffix (the clock and the suffix are parameters). */
  function TaskId(clock: int, suffix: string): string
  {
    "task-" + IntToString(clock) + "-" + suffix
  }

  /** addTask: appends one new task and returns it; nothing else changes. */
  function AddTask(s: Store, content: string, date: Instant, clock: int, suffix: string, createdAt: Instant): (r: (Store, Task))
    ensures var (s', t) := r;
      && |s'.tasks| == |s.tasks| + 1
      && s'.tasks[..|s.tasks|] == s.tasks
      && s'.tasks[|s.tasks|] == t
      && s'.logs == s.logs
    ensures r.1.content == content && r.1.date == date && r.1.createdAt == createdAt
    ensures StartsWith(r.1.id, "task-")
  {
    var t := Task(TaskId(clock, suffix), content, date, createdAt, []);
    (Store(s.tasks + [t], s.logs), t)
  }

  function KeepOtherTasks(id: string): Task -> bool
  {
    (t: Task) => t.id != id
  }

  /** deleteTask: drops every task with that id, keeps the others in order. */
  function DeleteTask(s: Store, id: string): (r: Store)
    ensures r.logs == s.logs
    ensures IsFilterOf(r.tasks, s.tasks, KeepOtherTasks(id))
  {
    Store(Filter(s.tasks, KeepOtherTasks(id)), s.logs)
  }

  /** Deleting an id no task has changes nothing. */
  lemma DeleteAbsentTask(s: Store, id: string)
    requires forall i :: 0 <= i < |s.tasks| ==> s.tasks[i].id != id
    ensures DeleteTask(s, id) == s
  {
    FilterKeepsAll(s.tasks, KeepOtherTasks(id));
  }

  /** Deleting the same id twice is deleting it once. */
  lemma DeleteTaskIdempotent(s: Store, id: string)
    ensures DeleteTask(DeleteTask(s, id), id) == DeleteTask(s, id)
  {
    FilterIdempotent(s.tasks, KeepOtherTasks(id));
  }

  /** Deleting a freshly added task by its id restores the store, as long as
      the id was not already in use. */
  lemma AddThenDeleteTask(s: Store, content: string, date: Instant, clock: int, suffix: string, createdAt: Instant)
    requires forall i :: 0 <= i < |s.tasks| ==> s.tasks[i].id != TaskId(clock, suffix)
    ensures var (s', t) := AddTask(s, content, date, clock, suffix, createdAt);
      DeleteTask(s', t.id) == s
  {
    var (s', t) := AddTask(s, content, date, clock, suffix, createdAt);
    assert s'.tasks == s.tasks + [t];
    FilterAppend(s.tasks, [t], KeepOtherTasks(t.id));
    FilterKeepsAll(s.tasks, KeepOtherTasks(t.id));
  }

  /** A task added for a date shows up last in that day's list. */
  lemma AddTaskListedForDay(s: Store, content: string, date: Instant, clock: int, suffix: string, createdAt: Instant)
    requires 1 <= YearOf(date) <= 9999
    ensures var (s', t) := AddTask(s, content, date, clock, suffix, createdAt);
      GetTasksForDay(s', date) == GetTasksForDay(s, date) + [t]
  {
    var (s', t) := AddTask(s, content, date, clock, suffix, createdAt);
    var key := GetDayIdentifier(date);
    assert s'.tasks == s.tasks + [t];
    assert OnDayKey(key)(t) by {
      IsoStartsWithDayKey(date, Day(date));
    }
    FilterAppend(s.tasks, [t], OnDayKey(key));
    assert Filter([t], OnDayKey(key)) == [t];
  }

  // ---------------------------------------------------------------- weekly logs

  /** getWeeklyLog with the identifier it looks up: the first stored log
      with that id, or null. */
  function GetWeeklyLog(s: Store, weekId: string): (r: Option<WeeklyLog>)
    ensures r.Some? ==> r.value in s.logs && r.value.id == weekId
    ensures r.None? <==> forall i :: 0 <= i < |s.logs| ==> s.logs[i].id != weekId
  {
    var i := FindIndex(s.logs, SameLogId(weekId));
    if i < 0 then None else Some(s.logs[i])
  }

  function SameLogId(id: string): WeeklyLog -> bool
  {
    (l: WeeklyLog) => l.id == id
  }

  /** The record createWeeklyLog builds. */
  function NewLog(w: WeekData, tasks: seq<Task>, weekId: string, compiledAt: Instant): WeeklyLog
  {
    WeeklyLog(weekId, w.weekNumber, w.year, w.startDate, w.endDate, tasks, compiledAt)
  }

  /** createWeeklyLog with the identifier and the clock reading as parameters:
      replaces the first log with that id in place, or appends the new log. */
  function CreateWeeklyLog(s: Store, w: WeekData, tasks: seq<Task>, weekId: string, compiledAt: Instant): (r: (Store, WeeklyLog))
    ensures var log := r.1;
      log.id == weekId && log.weekNumber == w.weekNumber && log.year == w.year
      && log.startDate == w.startDate && log.endDate == w.endDate
      && log.tasks == tasks && log.compiledAt == compiledAt
    ensures r.0.tasks == s.tasks
    ensures GetWeeklyLog(s, weekId).Some? ==>
      var i := FindIndex(s.logs, SameLogId(weekId));
      && |r.0.logs| == |s.logs|
      && r.0.logs[i] == r.1
      && forall j :: 0 <= j < |s.logs| && j != i ==> r.0.logs[j] == s.logs[j]
    ensures GetWeeklyLog(s, weekId).None? ==> r.0.logs == s.logs + [r.1]
  {
    var log := NewLog(w, tasks, weekId, compiledAt);
    var i := FindIndex(s.logs, SameLogId(weekId));
    if i >= 0 then (Store(s.tasks, s.logs[i := log]), log)
    else (Store(s.tasks, s.logs + [log]), log)
  }

  /** Looking up the id just used returns the log just written. */
  lemma CreateThenGet(s: Store, w: WeekData, tasks: seq<Task>, weekId: string, compiledAt: Instant)
    ensures var (s', log) := CreateWeeklyLog(s, w, tasks, weekId, compiledAt);
      GetWeeklyLog(s', weekId) == Some(log)
  {
    var (s', log) := CreateWeeklyLog(s, w, tasks, weekId, compiledAt);
    var i := FindIndex(s.logs, SameLogId(weekId));
    var k := FindIndex(s'.logs, SameLogId(weekId));
    if i >= 0 {
      assert SameLogId(weekId)(s'.logs[i]);
      assert forall j :: 0 <= j < i ==> s'.logs[j] == s.logs[j];
    } else {
      assert SameLogId(weekId)(s'.logs[|s.logs|]);
      assert forall j :: 0 <= j < |s.logs| ==> s'.logs[j] == s.logs[j];
    }
  }

  /** Compiling again with an id already stored never adds a log. */
  lemma CreateTwiceKeepsCount(s: Store, w: WeekData, tasks: seq<Task>, weekId: string, a: Instant, b: Instant)
    ensures var s1 := CreateWeeklyLog(s, w, tasks, weekId, a).0;
      |CreateWeeklyLog(s1, w, tasks, weekId, b).0.logs| == |s1.logs|
  {
    CreateThenGet(s, w, tasks, weekId, a);
  }

  function KeepOtherLogs(id: string): WeeklyLog -> bool
  {
    (l: WeeklyLog) => l.id != id
  }

  /** deleteWeeklyLog: drops every log with that id, keeps the others in order. */
  function DeleteWeeklyLog(s: Store, id: string): (r: Store)
    ensures r.tasks == s.tasks
    ensures IsFilterOf(r.logs, s.logs, KeepOtherLogs(id))
  {
    Store(s.tasks, Filter(s.logs, KeepOtherLogs(id)))
  }

  lemma DeleteWeeklyLogIdempotent(s: Store, id: string)
    ensures DeleteWeeklyLog(DeleteWeeklyLog(s, id), id) == DeleteWeeklyLog(s, id)
  {
    FilterIdempotent(s.logs, KeepOtherLogs(id));
  }

  /** After deleting an id, looking it up finds nothing. */
  lemma DeleteThenGet(s: Store, id: string)
    ensures GetWeeklyLog(DeleteWeeklyLog(s, id), id).None?
  {
  }

  /** clearAllData: both collections read back empty. */
  function ClearAllData(s: Store): (r: Store)
    ensures |r.tasks| == 0 && |r.logs| == 0
  {
    EmptyStore
  }

  /** After clearing, no day has tasks and no id finds a log. */
  lemma ClearedStoreIsEmpty(s: Store, date: Instant, w: WeekData, id: string)
    ensures GetTasksForDay(ClearAllData(s), date) == []
    ensures GetTasksForWeek(ClearAllData(s), w) == []
    ensures GetWeeklyLog(ClearAllData(s), id) == None
  {
  }
}
