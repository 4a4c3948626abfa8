/** The logic of the weekly summary view, src/components/WeeklyLog.tsx:
    loading a week, grouping its tasks by working day, collecting the week's
    skills, and the compile action with its re-entry guard. */
module WeeklyLogView {

  import opened Seqs
  import opened Calendar
  import opened DateFormat
  import opened DateUtils
  import opened Storage
  import opened Grouping

  // ---------------------------------------------------------------- grouping

  /** The "yyyy-MM-dd" key of each listed day, in order. */
  function DayKeys(weekDays: seq<Instant>): (r: seq<string>)
    ensures |r| == |weekDays|
    ensures forall i :: 0 <= i < |weekDays| ==> r[i] == GetDayIdentifier(weekDays[i])
  {
    seq(|weekDays|, i requires 0 <= i < |weekDays| => GetDayIdentifier(weekDays[i]))
  }

  /** One entry per key, holding the tasks whose ISO date starts with it. */
  function TasksPerKey(keys: seq<string>, tasks: seq<Task>): (r: seq<Group<Task>>)
    ensures Keys(r) == keys
    ensures forall i :: 0 <= i < |r| ==> IsFilterOf(r[i].items, tasks, OnDayKey(r[i].key))
  {
    var r := seq(|keys|, i requires 0 <= i < |keys| => Group(keys[i], TasksWithKey(tasks, keys[i])));
    assert Keys(r) == keys;
    r
  }

  /** groupTasksByDay: an object keyed by each day's key in insertion order,
      whose value is the filtered task list (a repeated key overwrites its
      entry with the same list). */
  function GroupTasksByDay(weekDays: seq<Instant>, tasks: seq<Task>): (r: seq<Group<Task>>)
    ensures Keys(r) == Dedup(DayKeys(weekDays))
    ensures forall i :: 0 <= i < |r| ==> IsFilterOf(r[i].items, tasks, OnDayKey(r[i].key))
  {
    TasksPerKey(Dedup(DayKeys(weekDays)), tasks)
  }

  /** Every listed day lies in a year the four-digit keys cover. */
  predicate InKeyYears(weekDays: seq<Instant>)
  {
    forall i :: 0 <= i < |weekDays| ==> 1 <= YearOf(weekDays[i]) <= 9999
  }

  /** Distinct days have distinct keys, so there is one entry per listed day,
      in the listed order. */
  lemma OneGroupPerDay(weekDays: seq<Instant>, tasks: seq<Task>)
    requires InKeyYears(weekDays)
    requires forall i, j :: 0 <= i < j < |weekDays| ==> Day(weekDays[i]) != Day(weekDays[j])
    ensures Keys(GroupTasksByDay(weekDays, tasks)) == DayKeys(weekDays)
    ensures |GroupTasksByDay(weekDays, tasks)| == |weekDays|
  {
    var ks := DayKeys(weekDays);
    forall i, j | 0 <= i < j < |ks| ensures ks[i] != ks[j] {
      if ks[i] == ks[j] {
        DayKeyInjective(Day(weekDays[i]), Day(weekDays[j]));
      }
    }
    DedupOfDistinct(ks);
  }

  /** Group i holds, in storage order, exactly the tasks falling on its day. */
  lemma GroupHoldsItsDay(weekDays: seq<Instant>, tasks: seq<Task>, i: int, t: Task)
    requires InKeyYears(weekDays)
    requires 0 <= i < |weekDays| && 1 <= YearOf(t.date) <= 9999
    ensures var gs := GroupTasksByDay(weekDays, tasks);
      var k := FirstIndex(Keys(gs), GetDayIdentifier(weekDays[i]));
      k < |gs| && gs[k].key == GetDayIdentifier(weekDays[i])
      && (t in gs[k].items <==> t in tasks && Day(t.date) == Day(weekDays[i]))
  {
    DayGroupMembers(GroupTasksByDay(weekDays, tasks), weekDays, tasks, i, t);
  }

  /** GroupHoldsItsDay for any groups with the keys and contents of
      GroupTasksByDay. */
  lemma DayGroupMembers(gs: seq<Group<Task>>, weekDays: seq<Instant>, tasks: seq<Task>, i: int, t: Task)
    requires Keys(gs) == Dedup(DayKeys(weekDays))
    requires forall j :: 0 <= j < |gs| ==> IsFilterOf(gs[j].items, tasks, OnDayKey(gs[j].key))
    requires InKeyYears(weekDays)
    requires 0 <= i < |weekDays| && 1 <= YearOf(t.date) <= 9999
    ensures var k := FirstIndex(Keys(gs), GetDayIdentifier(weekDays[i]));
      k < |gs| && gs[k].key == GetDayIdentifier(weekDays[i])
      && (t in gs[k].items <==> t in tasks && Day(t.date) == Day(weekDays[i]))
  {
    DayKeyIndex(gs, weekDays, i);
    var k := FirstIndex(Keys(gs), GetDayIdentifier(weekDays[i]));
    GroupOfDayKey(gs, tasks, k, Day(weekDays[i]), t);
  }

  /** Each listed day's key has an entry. */
  lemma DayKeyIndex(gs: seq<Group<Task>>, weekDays: seq<Instant>, i: int)
    requires Keys(gs) == Dedup(DayKeys(weekDays))
    requires 0 <= i < |weekDays|
    ensures var k := FirstIndex(Keys(gs), GetDayIdentifier(weekDays[i]));
      k < |gs| && gs[k].key == GetDayIdentifier(weekDays[i])
  {
    KeyListed(weekDays, i);
    KeyIndex(gs, GetDayIdentifier(weekDays[i]));
  }

  /** The entry keyed by day n's key holds exactly the tasks falling on day n. */
  lemma GroupOfDayKey(gs: seq<Group<Task>>, tasks: seq<Task>, k: int, n: int, t: Task)
    requires forall j :: 0 <= j < |gs| ==> IsFilterOf(gs[j].items, tasks, OnDayKey(gs[j].key))
    requires 0 <= k < |gs| && gs[k].key == DayKey(n)
    requires 1 <= YearOf(t.date) <= 9999 && 1 <= CivilFromDays(n).year <= 9999
    ensures t in gs[k].items <==> t in tasks && Day(t.date) == n
  {
    DayKeyMembers(gs[k].items, tasks, n, t);
  }

  /** A filter by day n's key holds exactly the tasks falling on day n. */
  lemma DayKeyMembers(items: seq<Task>, tasks: seq<Task>, n: int, t: Task)
    requires IsFilterOf(items, tasks, OnDayKey(DayKey(n)))
    requires 1 <= YearOf(t.date) <= 9999 && 1 <= CivilFromDays(n).year <= 9999
    ensures t in items <==> t in tasks && Day(t.date) == n
  {
    OnDayKeyMeans(t, n);
    FilterOfMembers(items, tasks, OnDayKey(DayKey(n)), t);
  }

  lemma KeyListed(weekDays: seq<Instant>, i: int)
    requires 0 <= i < |weekDays|
    ensures GetDayIdentifier(weekDays[i]) in Dedup(DayKeys(weekDays))
  {
    assert DayKeys(weekDays)[i] == GetDayIdentifier(weekDays[i]);
  }

  /** A task sits in at most one group. */
  lemma TaskInOneGroup(weekDays: seq<Instant>, tasks: seq<Task>, i: int, j: int, t: Task)
    requires InKeyYears(weekDays)
    requires var gs := GroupTasksByDay(weekDays, tasks); 0 <= i < |gs| && 0 <= j < |gs| && i != j
    requires t in GroupTasksByDay(weekDays, tasks)[i].items
    ensures t !in GroupTasksByDay(weekDays, tasks)[j].items
  {
    OneGroupOf(GroupTasksByDay(weekDays, tasks), weekDays, tasks, i, j, t);
  }

  /** TaskInOneGroup for any groups with the keys and contents of
      GroupTasksByDay. */
  lemma OneGroupOf(gs: seq<Group<Task>>, weekDays: seq<Instant>, tasks: seq<Task>, i: int, j: int, t: Task)
    requires Keys(gs) == Dedup(DayKeys(weekDays))
    requires forall j :: 0 <= j < |gs| ==> IsFilterOf(gs[j].items, tasks, OnDayKey(gs[j].key))
    requires InKeyYears(weekDays)
    requires 0 <= i < |gs| && 0 <= j < |gs| && i != j && t in gs[i].items
    ensures t !in gs[j].items
  {
    var ki, kj := gs[i].key, gs[j].key;
    DistinctKeys(gs, weekDays, i, j);
    FilterOfMembers(gs[i].items, tasks, OnDayKey(ki), t);
    OneKeyOfLength(t, ki, kj);
    FilterOfMembers(gs[j].items, tasks, OnDayKey(kj), t);
  }

  /** Two entries carry different keys of the same length. */
  lemma DistinctKeys(gs: seq<Group<Task>>, weekDays: seq<Instant>, i: int, j: int)
    requires Keys(gs) == Dedup(DayKeys(weekDays))
    requires InKeyYears(weekDays)
    requires 0 <= i < |gs| && 0 <= j < |gs| && i != j
    ensures gs[i].key != gs[j].key && |gs[i].key| == |gs[j].key|
  {
    KeyAt(gs, i);
    KeyAt(gs, j);
    KeyLength(weekDays, gs[i].key);
    KeyLength(weekDays, gs[j].key);
  }

  /** A task whose day is not listed is in no group. */
  lemma UnlistedDayInNoGroup(weekDays: seq<Instant>, tasks: seq<Task>, i: int, t: Task)
    requires InKeyYears(weekDays) && 1 <= YearOf(t.date) <= 9999
    requires forall k :: 0 <= k < |weekDays| ==> Day(weekDays[k]) != Day(t.date)
    requires 0 <= i < |GroupTasksByDay(weekDays, tasks)|
    ensures t !in GroupTasksByDay(weekDays, tasks)[i].items
  {
    var gs := GroupTasksByDay(weekDays, tasks);
    var k := ListedDayOf(gs, weekDays, i);
    GroupOfDayKey(gs, tasks, i, Day(weekDays[k]), t);
  }

  /** Every entry is keyed by some listed day. */
  lemma ListedDayOf(gs: seq<Group<Task>>, weekDays: seq<Instant>, i: int) returns (k: int)
    requires Keys(gs) == Dedup(DayKeys(weekDays))
    requires 0 <= i < |gs|
    ensures 0 <= k < |weekDays| && gs[i].key == GetDayIdentifier(weekDays[k])
  {
    KeyAt(gs, i);
    k := FirstIndex(DayKeys(weekDays), gs[i].key);
  }

  lemma KeyLength(weekDays: seq<Instant>, key: string)
    requires InKeyYears(weekDays)
    requires key in Dedup(DayKeys(weekDays))
    ensures |key| == 10
  {
    var k :| 0 <= k < |weekDays| && DayKeys(weekDays)[k] == key;
    DayKeyIsIsoDate(Day(weekDays[k]));
  }

  // ---------------------------------------------------------------- skills

  function SkillLists(tasks: seq<Task>): (r: seq<seq<string>>)
    ensures |r| == |tasks|
    ensures forall i :: 0 <= i < |tasks| ==> r[i] == tasks[i].skills
  {
    seq(|tasks|, i requires 0 <= i < |tasks| => tasks[i].skills)
  }

  /** The reference meaning of getAllSkills: the skills of all tasks in
      order, each kept at its first occurrence. */
  function AllSkills(tasks: seq<Task>): seq<string>
  {
    Dedup(Flatten(SkillLists(tasks)))
  }

  /** The collected skills hold every skill of every task, nothing else, and
      no skill twice. */
  lemma AllSkillsMeans(tasks: seq<Task>)
    ensures Distinct(AllSkills(tasks))
    ensures forall i, s :: 0 <= i < |tasks| && s in tasks[i].skills ==> s in AllSkills(tasks)
    ensures forall s :: s in AllSkills(tasks) ==> exists i :: 0 <= i < |tasks| && s in tasks[i].skills
  {
    forall s | s in AllSkills(tasks) ensures exists i :: 0 <= i < |tasks| && s in tasks[i].skills {
      FlattenMember(SkillLists(tasks), s);
    }
  }

  /** The collected skills come in the order in which each first occurs in
      the tasks' skill lists, read task by task. */
  lemma AllSkillsFirstOccurrence(tasks: seq<Task>)
    ensures var all, r := Flatten(SkillLists(tasks)), AllSkills(tasks);
      forall i, j :: 0 <= i < j < |r| ==> FirstIndex(all, r[i]) < FirstIndex(all, r[j])
  {
    DedupOrder(Flatten(SkillLists(tasks)));
  }

  /** getAllSkills: every skill of every task, through a Set, so each once
      and in order of first occurrence. */
  method GetAllSkills(tasks: seq<Task>) returns (skills: seq<string>)
    ensures skills == AllSkills(tasks)
  {
    skills := [];
    ghost var seen: seq<string> := [];
    for i := 0 to |tasks|
      invariant seen == Flatten(SkillLists(tasks[..i]))
      invariant skills == Dedup(seen)
    {
      skills := AddNewSkills(skills, seen, tasks[i].skills);
      SkillListsSnoc(tasks, i);
      seen := seen + tasks[i].skills;
    }
    assert tasks[..|tasks|] == tasks;
  }

  /** The inner loop of getAllSkills: add each skill of one task not yet
      collected, in order. */
  method AddNewSkills(skills: seq<string>, ghost seen: seq<string>, list: seq<string>) returns (r: seq<string>)
    requires skills == Dedup(seen)
    ensures r == Dedup(seen + list)
  {
    r := skills;
    assert seen + list[..0] == seen;
    for j := 0 to |list|
      invariant r == Dedup(seen + list[..j])
    {
      assert seen + list[..j + 1] == (seen + list[..j]) + [list[j]];
      DedupSnoc(seen + list[..j], list[j]);
      if list[j] !in r {
        r := r + [list[j]];
      }
    }
    assert list[..|list|] == list;
  }

  lemma SkillListsSnoc(tasks: seq<Task>, i: int)
    requires 0 <= i < |tasks|
    ensures Flatten(SkillLists(tasks[..i + 1])) == Flatten(SkillLists(tasks[..i])) + tasks[i].skills
  {
    assert SkillLists(tasks[..i + 1]) == SkillLists(tasks[..i]) + [tasks[i].skills];
    FlattenAppend(SkillLists(tasks[..i]), [tasks[i].skills]);
    assert Flatten([tasks[i].skills]) == tasks[i].skills;
  }

  // ---------------------------------------------------------------- view state

  /** The component's state: the week shown, its working days, its tasks,
      the compiled log on display, and the two busy flags. */
  datatype WeekView = WeekView(
    week: WeekData, weekDays: seq<Instant>, tasks: seq<Task>,
    compiledLog: Option<WeeklyLog>, compiling: bool, loading: bool)

  /** loadWeekData for the selected date; lookupId is the fresh identifier
      getWeeklyLog looks up. */
  function LoadWeek(s: Store, date: Instant, lookupId: string, compiling: bool): (v: WeekView)
    ensures !v.loading && v.compiling == compiling
    ensures v.compiledLog.Some? ==> v.compiledLog.value in s.logs && v.compiledLog.value.id == lookupId
  {
    var w := GetWeekForDate(date);
    WeekView(w, GetWeekDaysOnly(w.startDate, w.endDate), GetTasksForWeek(s, w), GetWeeklyLog(s, lookupId), compiling, false)
  }

  /** A loaded week lists the Monday to Friday of the selected date's week,
      and exactly the stored weekday tasks of that week. */
  lemma LoadedWeekContents(s: Store, date: Instant, lookupId: string, compiling: bool, t: Task)
    ensures var v := LoadWeek(s, date, lookupId, compiling);
      && v.weekDays == seq(5, i => Midnight(Day(StartOfWeek(date)) + i))
      && (t in v.tasks <==> t in s.tasks && StartOfWeek(t.date) == StartOfWeek(date) && IsWeekday(t.date))
  {
    WeekHasFiveWorkingDays(date);
    TasksForWeekOfDate(s, date);
  }

  /** The disabled condition of the compile button, negated. */
  predicate CompileEnabled(v: WeekView)
  {
    !v.compiling && |v.tasks| > 0 && !v.loading
  }

  /** Once loaded, the compile button is enabled exactly when no compile
      runs and the selected date's week has a stored weekday task. */
  lemma LoadedCompileEnabled(s: Store, date: Instant, lookupId: string, compiling: bool)
    ensures CompileEnabled(LoadWeek(s, date, lookupId, compiling)) <==>
      !compiling && exists t :: t in s.tasks && StartOfWeek(t.date) == StartOfWeek(date) && IsWeekday(t.date)
  {
    var v := LoadWeek(s, date, lookupId, compiling);
    TasksForWeekOfDate(s, date);
    if |v.tasks| > 0 {
      LoadedWeekContents(s, date, lookupId, compiling, v.tasks[0]);
    }
    if t :| t in s.tasks && StartOfWeek(t.date) == StartOfWeek(date) && IsWeekday(t.date) {
      LoadedWeekContents(s, date, lookupId, compiling, t);
    }
  }

  /** compileWeeklyLog: ignored while a compile runs; otherwise store the
      week's tasks as a log and show the record returned.  `saveFails` stands
      for localStorage refusing the write: the catch leaves the store and the
      displayed log as they were, and the finally clears the flag. */
  function Compile(s: Store, v: WeekView, weekId: string, compiledAt: Instant, saveFails: bool): (r: (Store, WeekView))
    ensures v.compiling ==> r == (s, v)
    ensures !v.compiling ==> !r.1.compiling
    ensures r.1.week == v.week && r.1.weekDays == v.weekDays && r.1.tasks == v.tasks && r.1.loading == v.loading
    ensures r.0.tasks == s.tasks
    ensures saveFails ==> r.0 == s && r.1.compiledLog == v.compiledLog
  {
    if v.compiling then (s, v)
    else if saveFails then (s, v.(compiling := false))
    else
      var (s', log) := CreateWeeklyLog(s, v.week, v.tasks, weekId, compiledAt);
      (s', v.(compiledLog := Some(log), compiling := false))
  }

  /** After a successful compile the log on display is exactly the record
      createWeeklyLog returned, found in the store under its id, holding the
      week's tasks. */
  lemma CompiledLogIsStored(s: Store, v: WeekView, weekId: string, compiledAt: Instant)
    requires !v.compiling
    ensures var (s', v') := Compile(s, v, weekId, compiledAt, false);
      && v'.compiledLog == Some(CreateWeeklyLog(s, v.week, v.tasks, weekId, compiledAt).1)
      && GetWeeklyLog(s', weekId) == v'.compiledLog
      && v'.compiledLog.value.tasks == v.tasks
  {
    CreateThenGet(s, v.week, v.tasks, weekId, compiledAt);
  }

  /** An enabled compile never stores an empty task list, and a compile
      started while one runs changes nothing. */
  lemma CompileGuard(s: Store, v: WeekView, weekId: string, compiledAt: Instant, saveFails: bool)
    ensures CompileEnabled(v) && !saveFails ==> |Compile(s, v, weekId, compiledAt, saveFails).1.compiledLog.value.tasks| > 0
    ensures Compile(s, v.(compiling := true), weekId, compiledAt, saveFails) == (s, v.(compiling := true))
  {
  }
}
