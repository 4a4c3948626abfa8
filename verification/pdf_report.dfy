/** The content of the logbook PDF built by src/utils/pdfGenerator.ts: which
    pages there are, which text lines each carries at which height, and the
    rows of each week's task table.  Drawing (fonts, colours, image encoding,
    table layout) is not modelled; the two date formatters whose output the
    model does not interpret are parameters. */
module PdfReport {

  import opened Seqs
  import opened Text
  import opened Calendar
  import opened DateFormat
  import opened DateUtils
  import opened Storage
  import opened Grouping

  datatype CoverPageData = CoverPageData(
    studentName: string, studentId: string, institution: string, department: string,
    companyName: string, supervisorName: string, startDate: string, endDate: string,
    institutionLogo: Option<string>, companyLogo: Option<string>)

  /** The two formatDate calls whose text the model leaves uninterpreted:
      "MMMM d, yyyy" of a cover date string, and "EEEE, MMMM d, yyyy" of a
      day key. */
  datatype Formatters = Formatters(longDate: string -> string, dayLabel: string -> string)

  datatype TextLine = TextLine(text: string, x: int, y: int)
  datatype Image = Image(data: string, x: int, y: int, width: int, height: int)
  datatype Cover = Cover(images: seq<Image>, title: TextLine, ruleY: int, lines: seq<TextLine>)
  datatype Row = Row(dateCell: string, taskCell: string, skillsCell: string)
  datatype LogBody = NoTasks(note: TextLine) | TaskTable(startY: int, head: seq<string>, rows: seq<Row>)
  datatype Page = CoverPage(cover: Cover) | ContentsPage(lines: seq<TextLine>) | LogPage(header: TextLine, body: LogBody)

  /** jsPDF's default A4 portrait page, in millimetres, and the margin used. */
  const PageWidth: int := 210
  const Margin: int := 20
  const CenterX: int := PageWidth / 2

  // ---------------------------------------------------------------- cover page

  /** JavaScript truthiness of a `string | null` logo. */
  predicate Truthy(logo: Option<string>)
  {
    logo.Some? && |logo.value| > 0
  }

  function LogoImages(c: CoverPageData): (r: seq<Image>)
    ensures |r| == (if Truthy(c.institutionLogo) then 1 else 0) + (if Truthy(c.companyLogo) then 1 else 0)
    ensures Truthy(c.institutionLogo) ==> r[0] == Image(c.institutionLogo.value, Margin, Margin, 70, 30)
    ensures Truthy(c.companyLogo) ==> r[|r| - 1] == Image(c.companyLogo.value, PageWidth - Margin - 70, Margin, 70, 30)
  {
    (if Truthy(c.institutionLogo) then [Image(c.institutionLogo.value, Margin, Margin, 70, 30)] else [])
    + (if Truthy(c.companyLogo) then [Image(c.companyLogo.value, PageWidth - Margin - 70, Margin, 70, 30)] else [])
  }

  /** The labels of the cover's detail lines, top to bottom. */
  const CoverLabels: seq<string> := [
    "Student Name: ", "Student ID: ", "Institution: ", "Department: ",
    "Company: ", "Supervisor: ", "Internship Period: "]

  /** The heights of those lines: startY 120 plus lineHeight 10 times 0, 1, 2,
      3, 5, 6 and 8 (the rule sits at 4). */
  const CoverYs: seq<int> := [120, 130, 140, 150, 170, 180, 200]

  function CoverValues(c: CoverPageData, f: Formatters): seq<string>
  {
    [c.studentName, c.studentId, c.institution, c.department, c.companyName, c.supervisorName,
     f.longDate(c.startDate) + " - " + f.longDate(c.endDate)]
  }

  /** addCoverPage. */
  function CoverOf(c: CoverPageData, f: Formatters): (r: Cover)
    ensures r.images == LogoImages(c)
    ensures r.title == TextLine("INTERNSHIP LOGBOOK", CenterX, 90)
    ensures |r.lines| == 7
    ensures forall i :: 0 <= i < 7 ==> StartsWith(r.lines[i].text, CoverLabels[i]) && r.lines[i].x == CenterX
    ensures forall i, j :: 0 <= i < j < 7 ==> r.lines[i].y < r.lines[j].y
    ensures r.title.y < r.lines[0].y && r.lines[3].y < r.ruleY < r.lines[4].y
  {
    var values := CoverValues(c, f);
    var lines := seq(7, i requires 0 <= i < 7 => TextLine(CoverLabels[i] + values[i], CenterX, CoverYs[i]));
    assert forall i :: 0 <= i < 7 ==> lines[i].text[..|CoverLabels[i]|] == CoverLabels[i];
    Cover(LogoImages(c), TextLine("INTERNSHIP LOGBOOK", CenterX, 90), 160, lines)
  }

  /** Each detail line shows its field's value right after its label. */
  lemma CoverFieldsShown(c: CoverPageData, f: Formatters)
    ensures var lines := CoverOf(c, f).lines;
      && lines[0].text[|CoverLabels[0]|..] == c.studentName
      && lines[1].text[|CoverLabels[1]|..] == c.studentId
      && lines[2].text[|CoverLabels[2]|..] == c.institution
      && lines[3].text[|CoverLabels[3]|..] == c.department
      && lines[4].text[|CoverLabels[4]|..] == c.companyName
      && lines[5].text[|CoverLabels[5]|..] == c.supervisorName
      && lines[6].text[|CoverLabels[6]|..] == f.longDate(c.startDate) + " - " + f.longDate(c.endDate)
  {
  }

  /** A logo is drawn exactly when its value is a non-empty string. */
  lemma LogosDrawnWhenSet(c: CoverPageData)
    ensures (exists i :: 0 <= i < |LogoImages(c)| && LogoImages(c)[i].x == Margin) <==> Truthy(c.institutionLogo)
    ensures (exists i :: 0 <= i < |LogoImages(c)| && LogoImages(c)[i].x == PageWidth - Margin - 70) <==> Truthy(c.companyLogo)
  {
    var r := LogoImages(c);
    if Truthy(c.institutionLogo) {
      assert r[0].x == Margin;
    }
    if Truthy(c.companyLogo) {
      assert r[|r| - 1].x == PageWidth - Margin - 70;
    }
  }

  // ---------------------------------------------------------------- contents

  /** The part of TOC entry i before the week's range. */
  function EntryPrefix(i: nat, weekNumber: int): string
  {
    "   " + Decimal(i + 1) + ". Week " + IntToString(weekNumber) + " ("
  }

  /** The text of TOC entry i for a log. */
  function ContentsEntry(i: nat, log: WeeklyLog): (r: string)
    ensures StartsWith(r, EntryPrefix(i, log.weekNumber))
  {
    var p := EntryPrefix(i, log.weekNumber);
    PrefixOfThree(p, FormatWeekRange(log.startDate, log.endDate), ")");
    p + FormatWeekRange(log.startDate, log.endDate) + ")"
  }

  /** addTableOfContents: a title, two fixed lines, then one numbered line
      per log, 7 units apart. */
  function ContentsLines(logs: seq<WeeklyLog>): (r: seq<TextLine>)
    ensures |r| == 3 + |logs|
    ensures r[0] == TextLine("Table of Contents", Margin, Margin)
    ensures r[1] == TextLine("1. Cover Page", Margin, Margin + 15)
    ensures r[2] == TextLine("2. Weekly Logs:", Margin, Margin + 22)
    ensures forall i :: 0 <= i < |logs| ==>
      r[3 + i] == TextLine(ContentsEntry(i, logs[i]), Margin + 5, Margin + 29 + 7 * i)
  {
    var fixed := [
      TextLine("Table of Contents", Margin, Margin),
      TextLine("1. Cover Page", Margin, Margin + 15),
      TextLine("2. Weekly Logs:", Margin, Margin + 22)];
    var entries := seq(|logs|, i requires 0 <= i < |logs| => TextLine(ContentsEntry(i, logs[i]), Margin + 5, Margin + 29 + 7 * i));
    fixed + entries
  }

  /** The contents lines run strictly down the page. */
  lemma ContentsTopToBottom(logs: seq<WeeklyLog>)
    ensures var r := ContentsLines(logs);
      forall i, j :: 0 <= i < j < |r| ==> r[i].y < r[j].y
  {
    var r := ContentsLines(logs);
    // after the title, the lines sit 7 apart
    forall k | 3 <= k < |r| ensures r[k].y == Margin + 8 + 7 * k {
      assert r[3 + (k - 3)] == r[k];
    }
  }

  /** Every entry after the fixed lines names its log's week, and the number
      in front of it reads back as its position. */
  lemma ContentsNumbering(logs: seq<WeeklyLog>, i: int)
    requires 0 <= i < |logs|
    ensures var text := ContentsLines(logs)[3 + i].text;
      && StartsWith(text, EntryPrefix(i, logs[i].weekNumber))
      && |text| >= 3 && AllDigits(Split(text[3..], '.')[0]) && ParseDigits(Split(text[3..], '.')[0]) == i + 1
  {
    var d := Decimal(i + 1);
    var w, range := IntToString(logs[i].weekNumber), FormatWeekRange(logs[i].startDate, logs[i].endDate);
    EntryShape(d, w, range);
    NumberAfterIndent(d, " Week " + w + " (" + range + ")");
  }

  lemma EntryShape(d: string, w: string, range: string)
    ensures "   " + d + ". Week " + w + " (" + range + ")" == "   " + d + ['.'] + (" Week " + w + " (" + range + ")")
  {
    assert ". Week " == ['.'] + " Week ";
  }

  lemma NumberAfterIndent(d: string, rest: string)
    requires AllDigits(d)
    ensures var text := "   " + d + ['.'] + rest;
      |text| >= 3 && Split(text[3..], '.')[0] == d
  {
    var text := "   " + d + ['.'] + rest;
    assert text[3..] == d + ['.'] + rest;
    assert '.' !in d;
    SplitHead(d, '.', rest);
  }

  // ---------------------------------------------------------------- log pages

  /** task.skills.join(', ') when there are skills, "" otherwise. */
  function SkillsCell(skills: seq<string>): (r: string)
    ensures |skills| > 0 ==> |r| == TotalLength(skills) + 2 * (|skills| - 1)
    ensures |skills| > 0 ==> StartsWith(r, skills[0])
    ensures r == "" <==> |skills| == 0 || (|skills| == 1 && skills[0] == "")
  {
    if |skills| > 0 then Join(skills, ", ") else ""
  }

  /** The rows of one day group: the day's label on its first row only. */
  function GroupRows(g: Group<Task>, dayLabel: string -> string): (r: seq<Row>)
    ensures |r| == |g.items|
    ensures forall j :: 0 <= j < |r| ==>
      r[j].taskCell == g.items[j].content && r[j].skillsCell == SkillsCell(g.items[j].skills)
    ensures |r| > 0 ==> r[0].dateCell == dayLabel(g.key)
    ensures forall j :: 0 < j < |r| ==> r[j].dateCell == ""
  {
    seq(|g.items|, j requires 0 <= j < |g.items| =>
      Row(if j == 0 then dayLabel(g.key) else "", g.items[j].content, SkillsCell(g.items[j].skills)))
  }

  function RowsOf(gs: seq<Group<Task>>, dayLabel: string -> string): (r: seq<Row>)
    ensures |r| == |Flatten(Items(gs))|
  {
    if |gs| == 0 then []
    else
      assert Items(gs) == [gs[0].items] + Items(gs[1..]);
      GroupRows(gs[0], dayLabel) + RowsOf(gs[1..], dayLabel)
  }

  /** The table rows of addLogPage: tasks grouped by their date prefix in
      first-appearance order, each group's rows in task order. */
  function TableRows(tasks: seq<Task>, dayLabel: string -> string): (r: seq<Row>)
    ensures |r| == |tasks|
  {
    var gs := GroupBy(tasks, DayStr);
    GroupByPermutes(tasks, DayStr);
    assert |multiset(Flatten(Items(gs)))| == |multiset(tasks)|;
    RowsOf(gs, dayLabel)
  }

  const TableHead: seq<string> := ["Date", "Task Performed", "Skills Applied / Learnt"]

  /** addLogPage. */
  function LogPageOf(log: WeeklyLog, f: Formatters): (p: Page)
    ensures p.LogPage?
    ensures p.header == TextLine("Week " + IntToString(log.weekNumber) + ": " + FormatWeekRange(log.startDate, log.endDate), Margin, Margin)
    ensures p.body.NoTasks? <==> |log.tasks| == 0
    ensures p.body.NoTasks? ==> p.body.note == TextLine("No tasks recorded for this week", Margin, Margin + 20)
    ensures p.body.TaskTable? ==> p.body.head == TableHead && |p.body.rows| == |log.tasks|
  {
    var header := TextLine("Week " + IntToString(log.weekNumber) + ": " + FormatWeekRange(log.startDate, log.endDate), Margin, Margin);
    if |log.tasks| == 0 then LogPage(header, NoTasks(TextLine("No tasks recorded for this week", Margin, Margin + 20)))
    else LogPage(header, TaskTable(Margin + 10, TableHead, TableRows(log.tasks, f.dayLabel)))
  }

  function Contents(tasks: seq<Task>): (r: seq<string>)
    ensures |r| == |tasks|
    ensures forall i :: 0 <= i < |tasks| ==> r[i] == tasks[i].content
  {
    seq(|tasks|, i requires 0 <= i < |tasks| => tasks[i].content)
  }

  function TaskColumn(rows: seq<Row>): (r: seq<string>)
    ensures |r| == |rows|
    ensures forall i :: 0 <= i < |rows| ==> r[i] == rows[i].taskCell
  {
    seq(|rows|, i requires 0 <= i < |rows| => rows[i].taskCell)
  }

  lemma {:induction false} RowsOfTaskColumn(gs: seq<Group<Task>>, dayLabel: string -> string)
    ensures TaskColumn(RowsOf(gs, dayLabel)) == Contents(Flatten(Items(gs)))
    decreases |gs|
  {
    if |gs| > 0 {
      RowsOfTaskColumn(gs[1..], dayLabel);
      var a, b := GroupRows(gs[0], dayLabel), RowsOf(gs[1..], dayLabel);
      var x, y := gs[0].items, Flatten(Items(gs[1..]));
      FlattenItemsCons(gs);
      assert RowsOf(gs, dayLabel) == a + b;
      TaskColumnAppend(a, b);
      ContentsAppend(x, y);
      GroupRowsTaskColumn(gs[0], dayLabel);
    }
  }

  lemma FlattenItemsCons(gs: seq<Group<Task>>)
    requires |gs| > 0
    ensures Flatten(Items(gs)) == gs[0].items + Flatten(Items(gs[1..]))
  {
    assert Items(gs) == [gs[0].items] + Items(gs[1..]);
  }

  lemma TaskColumnAppend(a: seq<Row>, b: seq<Row>)
    ensures TaskColumn(a + b) == TaskColumn(a) + TaskColumn(b)
  {
    assert TaskColumn(a + b) == TaskColumn(a) + TaskColumn(b);
  }

  lemma ContentsAppend(a: seq<Task>, b: seq<Task>)
    ensures Contents(a + b) == Contents(a) + Contents(b)
  {
    assert Contents(a + b) == Contents(a) + Contents(b);
  }

  lemma GroupRowsTaskColumn(g: Group<Task>, dayLabel: string -> string)
    ensures TaskColumn(GroupRows(g, dayLabel)) == Contents(g.items)
  {
    assert TaskColumn(GroupRows(g, dayLabel)) == Contents(g.items);
  }

  /** The task column lists the contents of the tasks grouped by day: each
      day's tasks in their original order, the days in first-appearance
      order, every task exactly once. */
  lemma TableTaskColumn(tasks: seq<Task>, dayLabel: string -> string)
    ensures var gs := GroupBy(tasks, DayStr);
      && TaskColumn(TableRows(tasks, dayLabel)) == Contents(Flatten(Items(gs)))
      && multiset(Flatten(Items(gs))) == multiset(tasks)
      && GroupsOf(gs, tasks, DayStr)
  {
    RowsOfTaskColumn(GroupBy(tasks, DayStr), dayLabel);
    GroupByPermutes(tasks, DayStr);
    GroupByMeans(tasks, DayStr);
  }

  lemma RowsOfCons(gs: seq<Group<Task>>, dayLabel: string -> string)
    requires |gs| > 0
    ensures RowsOf(gs, dayLabel) == GroupRows(gs[0], dayLabel) + RowsOf(gs[1..], dayLabel)
  {
  }

  lemma {:induction false} RowsOfAppend(a: seq<Group<Task>>, b: seq<Group<Task>>, dayLabel: string -> string)
    ensures RowsOf(a + b, dayLabel) == RowsOf(a, dayLabel) + RowsOf(b, dayLabel)
    decreases |a|
  {
    if |a| > 0 {
      assert (a + b)[0] == a[0] && (a + b)[1..] == a[1..] + b;
      RowsOfAppend(a[1..], b, dayLabel);
      RowsOfCons(a + b, dayLabel);
      RowsOfCons(a, dayLabel);
      ConcatAssoc(GroupRows(a[0], dayLabel), RowsOf(a[1..], dayLabel), RowsOf(b, dayLabel));
    } else {
      assert a + b == b;
    }
  }

  /** The rows of group i sit together in the table, right after the rows
      of the groups before it. */
  lemma RowsOfBlocks(gs: seq<Group<Task>>, dayLabel: string -> string, i: int)
    requires 0 <= i < |gs|
    ensures var off := |RowsOf(gs[..i], dayLabel)|;
      var rows := RowsOf(gs, dayLabel);
      off + |gs[i].items| <= |rows| && rows[off..off + |gs[i].items|] == GroupRows(gs[i], dayLabel)
  {
    assert gs == gs[..i] + gs[i..];
    RowsOfAppend(gs[..i], gs[i..], dayLabel);
    var g := GroupRows(gs[i], dayLabel);
    assert RowsOf(gs[i..], dayLabel) == g + RowsOf(gs[i..][1..], dayLabel);
    PrefixOfConcat(RowsOf(gs[..i], dayLabel), RowsOf(gs[i..], dayLabel));
    PrefixOfConcat(g, RowsOf(gs[i..][1..], dayLabel));
  }

  // ---------------------------------------------------------------- document

  /** generateLogbookPDF: the cover, the contents, then one page per log in
      input order. */
  function LogbookPages(logs: seq<WeeklyLog>, c: CoverPageData, f: Formatters): (r: seq<Page>)
    ensures |r| == |logs| + 2
    ensures r[0] == CoverPage(CoverOf(c, f))
    ensures r[1] == ContentsPage(ContentsLines(logs))
    ensures forall i :: 0 <= i < |logs| ==> r[i + 2] == LogPageOf(logs[i], f)
  {
    var r := [CoverPage(CoverOf(c, f)), ContentsPage(ContentsLines(logs))] + LogPages(logs, f);
    assert forall i :: 0 <= i < |logs| ==> r[i + 2] == LogPages(logs, f)[i];
    r
  }

  /** One page per log, in the order given. */
  function LogPages(logs: seq<WeeklyLog>, f: Formatters): (r: seq<Page>)
    ensures |r| == |logs|
    ensures forall i :: 0 <= i < |logs| ==> r[i] == LogPageOf(logs[i], f)
  {
    seq(|logs|, i requires 0 <= i < |logs| => LogPageOf(logs[i], f))
  }

  /** Contents entry i and log page i + 2 name the same week and range. */
  lemma ContentsMatchPages(logs: seq<WeeklyLog>, c: CoverPageData, f: Formatters, i: int)
    requires 0 <= i < |logs|
    ensures var pages := LogbookPages(logs, c, f);
      var range := FormatWeekRange(logs[i].startDate, logs[i].endDate);
      && pages[i + 2].LogPage?
      && pages[i + 2].header.text == "Week " + IntToString(logs[i].weekNumber) + ": " + range
      && pages[1].lines[3 + i].text == "   " + Decimal(i + 1) + ". Week " + IntToString(logs[i].weekNumber) + " (" + range + ")"
  {
  }
}
