/** The logic of the logbook view, src/components/LogBook.tsx: logs shown
    newest first, deletion followed by a reload, the empty state, the
    per-row task cell, and the details dialog's grouping by day. */
module LogBook {

  import opened Seqs
  import opened Text
  import opened Calendar
  import opened DateUtils
  import opened Storage
  import opened Grouping

  // ---------------------------------------------------------------- ordering

  /** Each log compiled no earlier than the next one. */
  predicate NewestFirst(logs: seq<WeeklyLog>)
  {
    forall i, j :: 0 <= i < j < |logs| ==> logs[i].compiledAt >= logs[j].compiledAt
  }

  function CompiledAtIs(k: Instant): WeeklyLog -> bool
  {
    (l: WeeklyLog) => l.compiledAt == k
  }

  /** Place a log after every log compiled no earlier than it. */
  function InsertNewestFirst(sorted: seq<WeeklyLog>, x: WeeklyLog): (r: seq<WeeklyLog>)
    ensures multiset(r) == multiset(sorted) + multiset{x}
  {
    if |sorted| == 0 then [x]
    else if sorted[0].compiledAt < x.compiledAt then [x] + sorted
    else
      assert sorted == [sorted[0]] + sorted[1..];
      [sorted[0]] + InsertNewestFirst(sorted[1..], x)
  }

  /** Inserting into a newest-first list keeps it newest first. */
  lemma {:induction false} InsertKeepsOrder(sorted: seq<WeeklyLog>, x: WeeklyLog)
    requires NewestFirst(sorted)
    ensures NewestFirst(InsertNewestFirst(sorted, x))
    decreases |sorted|
  {
    if |sorted| > 0 && sorted[0].compiledAt >= x.compiledAt {
      InsertKeepsOrder(sorted[1..], x);
      var rest := InsertNewestFirst(sorted[1..], x);
      forall y | y in rest ensures sorted[0].compiledAt >= y.compiledAt {
        assert y in multiset(rest);
      }
    }
  }

  /** The inserted log comes after every log with its timestamp. */
  lemma {:induction false} InsertKeepsTies(sorted: seq<WeeklyLog>, x: WeeklyLog, k: Instant)
    requires NewestFirst(sorted)
    ensures Filter(InsertNewestFirst(sorted, x), CompiledAtIs(k))
      == Filter(sorted, CompiledAtIs(k)) + Filter([x], CompiledAtIs(k))
    decreases |sorted|
  {
    var q := CompiledAtIs(k);
    if |sorted| == 0 {
    } else if sorted[0].compiledAt < x.compiledAt {
      if q(x) {
        NoneCompiledAt(sorted, k);
      }
    } else {
      InsertKeepsTies(sorted[1..], x, k);
      var rest := InsertNewestFirst(sorted[1..], x);
      assert ([sorted[0]] + rest)[1..] == rest;
    }
  }

  lemma NoneCompiledAt(sorted: seq<WeeklyLog>, k: Instant)
    requires NewestFirst(sorted) && |sorted| > 0 && sorted[0].compiledAt < k
    ensures Filter(sorted, CompiledAtIs(k)) == []
  {
  }

  /** loadLogs: Array.prototype.sort with `b.compiledAt - a.compiledAt`, a
      stable sort, so logs with equal timestamps keep their stored order. */
  function SortNewestFirst(logs: seq<WeeklyLog>): (r: seq<WeeklyLog>)
    ensures multiset(r) == multiset(logs)
    ensures NewestFirst(r)
    decreases |logs|
  {
    if |logs| == 0 then []
    else
      var init, last := logs[..|logs| - 1], logs[|logs| - 1];
      assert logs == init + [last];
      InsertKeepsOrder(SortNewestFirst(init), last);
      InsertNewestFirst(SortNewestFirst(init), last)
  }

  /** Stability: the logs sharing a timestamp appear in their stored order. */
  lemma {:induction false} SortIsStable(logs: seq<WeeklyLog>, k: Instant)
    ensures Filter(SortNewestFirst(logs), CompiledAtIs(k)) == Filter(logs, CompiledAtIs(k))
    decreases |logs|
  {
    if |logs| > 0 {
      var init, last := logs[..|logs| - 1], logs[|logs| - 1];
      assert logs == init + [last];
      SortIsStable(init, k);
      InsertKeepsTies(SortNewestFirst(init), last, k);
      FilterAppend(init, [last], CompiledAtIs(k));
    }
  }

  /** The logs the view shows after loading. */
  function LoadLogs(s: Store): (shown: seq<WeeklyLog>)
    ensures multiset(shown) == multiset(s.logs) && NewestFirst(shown)
    ensures |shown| == |s.logs|
    ensures forall l :: l in shown <==> l in s.logs
  {
    var r := SortNewestFirst(s.logs);
    assert |multiset(r)| == |multiset(s.logs)|;
    assert forall l :: l in r <==> l in multiset(r);
    r
  }

  // ---------------------------------------------------------------- deleting

  /** handleDeleteLog: delete from the store, then reload the list. */
  function HandleDeleteLog(s: Store, id: string): (r: (Store, seq<WeeklyLog>))
    ensures r.0 == DeleteWeeklyLog(s, id)
    ensures r.1 == LoadLogs(r.0)
  {
    var s' := DeleteWeeklyLog(s, id);
    (s', LoadLogs(s'))
  }

  /** After deleting, no shown log has the id, and every other stored log is
      still shown, newest first. */
  lemma DeleteLogReloads(s: Store, id: string)
    ensures var (s', shown) := HandleDeleteLog(s, id);
      && (forall l :: l in shown ==> l.id != id && l in s.logs)
      && (forall l :: l in s.logs && l.id != id ==> l in shown)
      && NewestFirst(shown)
  {
    var (s', shown) := HandleDeleteLog(s, id);
    forall l | l in shown ensures l.id != id && l in s.logs {
      var i :| 0 <= i < |s'.logs| && s'.logs[i] == l;
      assert KeepOtherLogs(id)(s'.logs[i]);
      SubsequenceMembers(s'.logs, s.logs);
    }
  }

  // ---------------------------------------------------------------- screen

  datatype TaskCell = TaskList(contents: seq<string>) | NoTasksRecorded
  datatype LogRow = LogRow(title: string, tasks: TaskCell)
  datatype Screen = Loading | EmptyLogbook | LogTable(rows: seq<LogRow>)

  function TaskCellOf(log: WeeklyLog): (c: TaskCell)
    ensures c.NoTasksRecorded? <==> |log.tasks| == 0
    ensures c.TaskList? ==> (|c.contents| == |log.tasks| && forall i :: 0 <= i < |log.tasks| ==> c.contents[i] == log.tasks[i].content)
  {
    if |log.tasks| > 0 then TaskList(seq(|log.tasks|, i requires 0 <= i < |log.tasks| => log.tasks[i].content))
    else NoTasksRecorded
  }

  function RowOf(log: WeeklyLog): LogRow
  {
    LogRow("Week " + IntToString(log.weekNumber) + ": " + FormatWeekRange(log.startDate, log.endDate), TaskCellOf(log))
  }

  /** The rendered view: a spinner while loading, the empty state when there
      are no logs, otherwise one row per log in the order given. */
  function ScreenOf(loading: bool, logs: seq<WeeklyLog>): (sc: Screen)
    ensures sc.Loading? <==> loading
    ensures !loading ==> (sc.EmptyLogbook? <==> |logs| == 0)
    ensures sc.LogTable? ==> |sc.rows| == |logs| && forall i :: 0 <= i < |logs| ==> sc.rows[i] == RowOf(logs[i])
  {
    if loading then Loading
    else if |logs| == 0 then EmptyLogbook
    else LogTable(seq(|logs|, i requires 0 <= i < |logs| => RowOf(logs[i])))
  }

  /** Once loaded, the empty state shows exactly when the store has no logs,
      and each row shows "No tasks recorded" exactly when its log is empty. */
  lemma LoadedScreen(s: Store)
    ensures var sc := ScreenOf(false, LoadLogs(s));
      && (sc.EmptyLogbook? <==> |s.logs| == 0)
      && (sc.LogTable? ==> forall i :: 0 <= i < |sc.rows| ==>
            (sc.rows[i].tasks.NoTasksRecorded? <==> |LoadLogs(s)[i].tasks| == 0))
  {
  }

  // ---------------------------------------------------------------- details

  /** The details dialog: the log's tasks reduced into groups by date prefix. */
  function DetailGroups(log: WeeklyLog): seq<Group<Task>>
  {
    GroupBy(log.tasks, DayStr)
  }

  /** Every task of the snapshot is in the group of its date prefix and in no
      other, and each group keeps the snapshot's order. */
  lemma DetailGroupsPartition(log: WeeklyLog, n: int, j: int)
    requires 0 <= n < |log.tasks|
    ensures var gs := DetailGroups(log);
      var k := FirstIndex(Keys(gs), DayStr(log.tasks[n]));
      && k < |gs| && log.tasks[n] in gs[k].items
      && (0 <= j < |gs| && j != k ==> log.tasks[n] !in gs[j].items)
      && gs[k].items == Filter(log.tasks, HasKey(DayStr, DayStr(log.tasks[n])))
  {
    var gs := DetailGroups(log);
    GroupsCover(log.tasks, DayStr, n);
    GroupByMeans(log.tasks, DayStr);
    var k := FirstIndex(Keys(gs), DayStr(log.tasks[n]));
    assert gs[k].key == DayStr(log.tasks[n]);
    if 0 <= j < |gs| && j != k {
      GroupsDisjoint(log.tasks, DayStr, k, j, log.tasks[n]);
    }
  }
}
