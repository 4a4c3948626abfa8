# Task Keeper weekly log — a Dafny model

Task Keeper is a browser app for interns. They record daily tasks, the app
compiles each Monday-to-Sunday week's weekday tasks into a weekly log, and the
logs are exported as a logbook PDF with a cover page and a table of contents.
This project models the logic underneath that app and proves properties of it:

- **calendar engine** (`DateUtils`, over `Calendar` and `DateFormat`). Week
  bounds, the week-of-year number, working-day lists, `yyyy-MM-dd` day keys and
  how they parse back, week membership, and the week-range label.
- **store** (`Storage`). The two localStorage lists (tasks and weekly logs),
  modelled as one immutable `Store` value. Every operation maps a store to a
  store.
- **report shaping** (`PdfReport`, over `Grouping`). Which pages the logbook
  PDF has, the text lines on each page, and the rows of each week's task table.
- **component logic.**
  - `WeeklyLogView`: the weekly summary — grouping by day, the week's skills
    and the compile action.
  - `LogBook`: the logbook list — newest first, deletion, and the per-day
    details.
  - `FridayCompile`: the automatic Friday compilation on the home page.
  - `CoverPageForm`: the cover-page form.

### How the model represents the program

- A date is an `Instant`: an integer count of milliseconds since 1970-01-01
  00:00, in one time zone.
  - Day numbers are `Day(t) = t / 86400000`.
  - Weekdays are `(day + 4) % 7`, where 0 is Sunday as in JavaScript's
    `getDay`.
  - Civil dates come from a proleptic Gregorian conversion that round-trips
    (`Calendar.CivilRoundTrip`).
- A task or log stores its dates as `toISOString` text. The model keeps the
  instant and derives the text from it with `DateFormat.IsoString`, so
  `startsWith` and `split('T')` work on that text.
- `Grouping.GroupBy` models the `reduce`-into-an-object followed by
  `Object.entries` that the PDF table and the log dialogs use. Keys come out in
  first-insertion order, since `yyyy-MM-dd` keys are never integer-like.
- The clock, `Math.random`, and `uuidv4` become parameters. So do the date
  formatters whose words the model does not interpret: "MMMM d, yyyy" and
  "EEEE, MMMM d, yyyy" are `PdfReport.Formatters`.

## Model

Source cells are paths under the repository root.

| member | source | states |
|---|---|---|
| DateUtils.StartOfWeek | src/utils/dateUtils.ts:48 | The week start is a midnight on a Monday, and the date's day is 0..6 days after it. |
| DateUtils.EndOfWeek | src/utils/dateUtils.ts:49 | The week end is the last millisecond of the Sunday six days after the week start. |
| DateUtils.GetWeekForDate | src/utils/dateUtils.ts:47-60 | The start is a Monday midnight and the end is the following Sunday's last millisecond. The date lies between them, the week number is in 1..54, and the year is the date's year. |
| DateUtils.GetCurrentWeek | src/utils/dateUtils.ts:31-45 | Built field by field from one clock reading, the current week equals getWeekForDate of that reading, and today's day lies within it. |
| DateUtils.SourceWeekNumber | src/utils/dateUtils.ts:47-71 | For years outside 0..99, the week number the source stores is the model's week number plus one exactly at an instant after midnight on a Saturday. |
| DateUtils.InOwnWeek | src/utils/dateUtils.ts:100-108 | Every date is in the week getWeekForDate returns for it. |
| DateUtils.IsDateInWeekMeans | src/utils/dateUtils.ts:100-108 | isDateInWeek holds exactly when the date's day is between the start's day and the end's day, both ends included. |
| DateUtils.EachDayOfInterval | src/utils/dateUtils.ts:63 | The interval lists one midnight per day from start to end: ascending when start <= end, descending otherwise (date-fns v3; the program only passes start <= end). |
| DateUtils.WorkingDaysSound | src/utils/dateUtils.ts:62-65 | Every listed working day is a midnight within the interval falling Monday..Friday. The list is ascending for a forward interval. |
| DateUtils.WorkingDaysComplete | src/utils/dateUtils.ts:62-65 | Every Monday..Friday day within the interval is listed. |
| DateUtils.WeekHasFiveWorkingDays | src/utils/dateUtils.ts:62-65 | For a week from getWeekForDate, the working days are exactly its Monday to Friday, in order. |
| DateUtils.WeekdayIffListed | src/utils/dateUtils.ts:110-112 | A date is a weekday exactly when its midnight is among its week's working days. |
| DateUtils.GetWeekNumber | src/utils/dateUtils.ts:67-71 | The corrected week-of-year, computed from the date's whole day, lies in 1..54. |
| DateUtils.WeekNumberJanuaryFirst | src/utils/dateUtils.ts:67-71 | January 1 of every year is in week 1. |
| DateUtils.WeekNumberStep | src/utils/dateUtils.ts:67-71 | Within a year, the next day's week number is the same or one more. It is one more exactly when the next day is a Sunday. |
| DateUtils.ConstructedNewYear | src/utils/dateUtils.ts:68 | Outside years 0..99, `new Date(year, 0, 1)` is the first day of that year. |
| DateUtils.AsWrittenInDays | src/utils/dateUtils.ts:67-71 | For years outside 0..99, the formula as written gives ceil(x/7) at midnight and floor(x/7)+1 at any other instant. Here x counts whole days since January 1 plus January 1's weekday plus 1. |
| DateUtils.AsWrittenAtMidnight | src/utils/dateUtils.ts:67-71 | At midnight in years outside 0..99, the formula as written agrees with the corrected week number. |
| DateUtils.AsWrittenOffMidnight | src/utils/dateUtils.ts:67-71 | Away from midnight in years outside 0..99, the formula as written exceeds the corrected number by one on Saturdays and agrees on every other day. |
| DateUtils.AsWrittenNewYearSaturday | src/utils/dateUtils.ts:67-71 | In any year outside 0..99 whose January 1 is a Saturday, the formula as written gives week 1 at that midnight and week 2 at every later instant of the same day. |
| DateUtils.AsWrittenSaturdayNoon | src/utils/dateUtils.ts:67-71 | The formula as written gives week 1 at midnight of Saturday 2022-01-01 and week 2 at noon of the same day. |
| DateUtils.WeekStringIdentifierInjective | src/utils/dateUtils.ts:83-85 | Different non-negative (year, weekNumber) pairs give different "week-year-number" strings. |
| DateUtils.GetDateFromDayIdentifier | src/utils/dateUtils.ts:95-98 | The result is a valid date exactly when three things hold: the key splits at '-' into at least three parts, the first three are digit strings (empty reads as 0), and the date they name lies within the Date range of ±8.64e15 ms. Otherwise the result is an invalid date. A valid result is a local midnight. |
| DateUtils.TimeRangeEdgeKeys | src/utils/dateUtils.ts:95-98 | "275760-09-13" parses to the last valid time value, 8.64e15 ms. "275760-09-14" is an invalid date. |
| DateUtils.LargeFieldOutOfRange | src/utils/dateUtils.ts:95-98 | A year, month or day field of 2^53 or more always names a date outside the Date range. |
| DateUtils.DayIdentifierRoundTrip | src/utils/dateUtils.ts:87-98 | For years from 100 on, parsing a valid date's yyyy-MM-dd key gives midnight of the date's day. When that midnight is outside the Date range, the parse gives an invalid date. |
| DateUtils.DayKeyParseRoundTrip | src/utils/dateUtils.ts:87-98 | A canonical key (valid date, years 100..9999) parses to a date whose key is that same text. |
| DateUtils.TwoDigitYearKeyShifts | src/utils/dateUtils.ts:95-98 | The key "0050-01-01" parses to January 1, 1950, because the Date constructor maps years 0..99 to 1900..1999. |
| DateUtils.RangeLabel | src/utils/dateUtils.ts:20-29 | The label starts with the start's "MMM d" and ends with ", " and the end date's year. A '-' directly after the start day (the compact form) appears exactly when the two months are equal. |
| DateUtils.RangeLabelEnd | src/utils/dateUtils.ts:20-29 | The label ends with the end day and year. In the two-month form, " - " and the end month's abbreviation come before them. Its length is that of the compact or the two-month form. Together with RangeLabel's contract, this fixes every character. |
| DateFormat.DayKeyInjective | src/utils/dateUtils.ts:87-89 | Two days with the same yyyy-MM-dd key, in years from 1 on, are the same day. |
| DateFormat.IsoStartsWithDayKey | src/utils/storageUtils.ts:32-36 | A stored instant's ISO text starts with a day's key exactly when the instant falls on that day (years 1..9999). |
| Storage.TasksWithKey | src/utils/storageUtils.ts:32-36 | The result is the subsequence of the tasks whose ISO date starts with the key, in storage order, with none missing. |
| Storage.TasksForDayAreThatDay | src/utils/storageUtils.ts:32-36 | getTasksForDay lists a task exactly when the task is stored and dated on that day. |
| Storage.GetTasksForWeek | src/utils/storageUtils.ts:39-52 | The result is the subsequence of stored tasks with start <= date <= end that fall on neither Saturday nor Sunday. |
| Storage.WithinWeekBounds | src/utils/storageUtils.ts:39-52 | An instant is within a week's bounds exactly when it has the same Monday start as the week's date. |
| Storage.TasksForWeekOfDate | src/utils/storageUtils.ts:39-52 | The tasks of a date's week are exactly the stored weekday tasks with that date's Monday, in storage order. |
| Storage.AddTask | src/utils/storageUtils.ts:55-68 | Exactly one task is appended, with the given content and dates and an id starting "task-". Earlier tasks, their order and the logs are unchanged. |
| Storage.AddTaskListedForDay | src/utils/storageUtils.ts:55-68 | After adding, the new task is last in its day's list, and the day's earlier tasks are unchanged. |
| Storage.DeleteTask | src/utils/storageUtils.ts:71-75 | The result keeps, in order, exactly the tasks whose id differs. The logs are unchanged. |
| Storage.DeleteAbsentTask | src/utils/storageUtils.ts:71-75 | Deleting an id no task has leaves the store unchanged. |
| Storage.DeleteTaskIdempotent | src/utils/storageUtils.ts:71-75 | Deleting the same id twice is deleting it once. |
| Storage.AddThenDeleteTask | src/utils/storageUtils.ts:55-75 | Deleting a just-added task, whose id was fresh, restores the store. |
| Storage.GetWeeklyLog | src/utils/storageUtils.ts:84-88 | A found log is stored and has the looked-up id. Nothing is found exactly when no stored log has that id. |
| Storage.CreateWeeklyLog | src/utils/storageUtils.ts:91-120 | The log copies the week's number, year, start and end, and holds the given tasks and id. A stored log with the id is replaced at its index, and the count stays the same; otherwise the log is appended. Tasks are unchanged. |
| Storage.CreateThenGet | src/utils/storageUtils.ts:91-120 | After creating, looking up the same id finds the new log. |
| Storage.CreateTwiceKeepsCount | src/utils/storageUtils.ts:104-117 | Creating again with the same id does not add a log. |
| Storage.DeleteWeeklyLog | src/utils/storageUtils.ts:123-127 | The result keeps, in order, exactly the logs whose id differs. Tasks are unchanged. |
| Storage.DeleteWeeklyLogIdempotent | src/utils/storageUtils.ts:123-127 | Deleting a log id twice is deleting it once. |
| Storage.DeleteThenGet | src/utils/storageUtils.ts:123-127 | After deleting an id, no log with that id is found. |
| Storage.ClearAllData | src/utils/storageUtils.ts:129-133 | Both lists are empty after clearing. |
| Storage.ClearedStoreIsEmpty | src/utils/storageUtils.ts:129-133 | After clearing, no day or week has tasks and no log is found. |
| Grouping.GroupByMeans | src/utils/pdfGenerator.ts:175-187 | The groups' keys are the distinct keys in first-appearance order. Each group is exactly the elements with its key, in list order. |
| Grouping.GroupsDisjoint | src/utils/pdfGenerator.ts:175-182 | No element is in two groups. |
| Grouping.GroupsCover | src/utils/pdfGenerator.ts:175-182 | Every element is in the group of its key. |
| Grouping.GroupByPermutes | src/utils/pdfGenerator.ts:175-187 | Concatenating the groups gives a permutation of the list. |
| PdfReport.LogbookPages | src/utils/pdfGenerator.ts:20-41 | The document is the cover page, then the contents page, then one log page per log, in input order. |
| PdfReport.LogoImages | src/utils/pdfGenerator.ts:57-83 | The institution logo is drawn at the left margin and the company logo at the right margin, each only when its value is a non-empty string. |
| PdfReport.LogosDrawnWhenSet | src/utils/pdfGenerator.ts:57-83 | A logo appears in its position exactly when its value is a non-empty string. |
| PdfReport.CoverOf | src/utils/pdfGenerator.ts:85-117 | The title is above seven centred lines, with strictly increasing heights. Their labels run Student Name, Student ID, Institution, Department, Company, Supervisor, Internship Period. The rule lies between Department and Company. |
| PdfReport.CoverFieldsShown | src/utils/pdfGenerator.ts:96-117 | Each cover line shows its field's value right after its label. |
| PdfReport.ContentsLines | src/utils/pdfGenerator.ts:129-153 | The contents page has a title and two fixed lines at fixed heights, then one line per log, 7 units apart, each showing that log's entry. |
| PdfReport.ContentsTopToBottom | src/utils/pdfGenerator.ts:129-153 | The contents lines have strictly increasing heights, so they never overlap. |
| PdfReport.ContentsNumbering | src/utils/pdfGenerator.ts:146-152 | Entry i names its log's week number, and the number in front of it reads back as i + 1. |
| PdfReport.ContentsMatchPages | src/utils/pdfGenerator.ts:146-162 | Contents entry i and log page i + 2 name the same week number and the same range label. |
| PdfReport.LogPageOf | src/utils/pdfGenerator.ts:155-209 | A log with no tasks gets the "No tasks recorded for this week" line and no table. Otherwise the table has the three column heads and one row per task. |
| PdfReport.TableRows | src/utils/pdfGenerator.ts:174-203 | The table has exactly as many rows as the log has tasks. |
| PdfReport.TableTaskColumn | src/utils/pdfGenerator.ts:174-203 | The task column lists the tasks' contents, grouped by date prefix, with days in first-appearance order and each day's tasks in log order. Every task appears exactly once. |
| PdfReport.RowsOfBlocks | src/utils/pdfGenerator.ts:187-203 | Each day group's rows are contiguous, right after the rows of the earlier groups. |
| PdfReport.GroupRows | src/utils/pdfGenerator.ts:187-202 | A day group's rows carry the date label on the first row only, and the task content and skills cell on every row. |
| PdfReport.SkillsCell | src/utils/pdfGenerator.ts:197-199 | The skills cell is empty exactly when there are no skills or a single empty one. Otherwise it starts with the first skill and has the length of the skills joined by ", ". |
| WeeklyLogView.GroupTasksByDay | src/components/WeeklyLog.tsx:110-121 | One entry per distinct day key, in insertion order. Each holds the tasks whose date starts with its key, in order. |
| WeeklyLogView.OneGroupPerDay | src/components/WeeklyLog.tsx:113-114 | For distinct days there is exactly one entry per listed day, keyed by its yyyy-MM-dd text, in list order. |
| WeeklyLogView.GroupHoldsItsDay | src/components/WeeklyLog.tsx:115-117 | A day's entry holds a task exactly when the task is stored and falls on that day. |
| WeeklyLogView.TaskInOneGroup | src/components/WeeklyLog.tsx:113-118 | No task is in two entries. |
| WeeklyLogView.UnlistedDayInNoGroup | src/components/WeeklyLog.tsx:113-118 | A task dated on a day that is not listed is in no entry. |
| WeeklyLogView.GetAllSkills | src/components/WeeklyLog.tsx:123-133 | The loop collects the skills of all tasks, keeping each at its first occurrence (the reference AllSkills). |
| WeeklyLogView.AddNewSkills | src/components/WeeklyLog.tsx:127-129 | Adding one task's skills to the collected set gives the first-occurrence list of everything seen so far, followed by that task's skills. |
| WeeklyLogView.AllSkillsMeans | src/components/WeeklyLog.tsx:123-133 | The collected skills contain every skill of every task and nothing else, with no duplicates. |
| WeeklyLogView.AllSkillsFirstOccurrence | src/components/WeeklyLog.tsx:124-132 | Skills are listed in the order of their first occurrence in the tasks' skill lists, read task by task. |
| WeeklyLogView.LoadWeek | src/components/WeeklyLog.tsx:53-78 | Loading clears the loading flag. A displayed compiled log is a stored log with the looked-up id. |
| WeeklyLogView.LoadedWeekContents | src/components/WeeklyLog.tsx:53-66 | A loaded week shows the Monday to Friday of the selected date's week, and exactly the stored weekday tasks of that week. |
| WeeklyLogView.LoadedCompileEnabled | src/components/WeeklyLog.tsx:168-171 | After loading, the compile button is enabled exactly when no compile runs and the week has a stored weekday task. |
| WeeklyLogView.Compile | src/components/WeeklyLog.tsx:80-108 | A compile started while one runs changes nothing. Otherwise the flag ends false, and a failed save leaves the store and the displayed log as they were. |
| WeeklyLogView.CompiledLogIsStored | src/components/WeeklyLog.tsx:85-86 | After a successful compile, the displayed log is exactly the record createWeeklyLog returned, and it is found in the store under its id. |
| WeeklyLogView.CompileGuard | src/components/WeeklyLog.tsx:80-83 | An enabled compile never stores an empty task list. A compile started while one runs returns the same store and view. |
| LogBook.SortNewestFirst | src/components/LogBook.tsx:54-58 | The sorted logs are a permutation of the stored logs, ordered by compiledAt, most recent first. |
| LogBook.SortIsStable | src/components/LogBook.tsx:56-58 | Logs with equal compiledAt keep their stored relative order. |
| LogBook.LoadLogs | src/components/LogBook.tsx:52-61 | The shown logs are a newest-first permutation of the stored logs. |
| LogBook.DeleteLogReloads | src/components/LogBook.tsx:63-65 | After deleting and reloading, no shown log has the id, every other stored log is shown, and the list is newest first. |
| LogBook.ScreenOf | src/components/LogBook.tsx:81-97 | The loading view shows while loading. Otherwise the empty state shows exactly when there are no logs, else one row per log in order. |
| LogBook.TaskCellOf | src/components/LogBook.tsx:116-126 | A row shows "No tasks recorded" exactly when its log has no tasks. Otherwise it lists every task's content in order. |
| LogBook.LoadedScreen | src/components/LogBook.tsx:81-126 | Once loaded, the empty state shows exactly when the store has no logs. Each row's "No tasks recorded" matches its log being empty. |
| LogBook.DetailGroupsPartition | src/components/LogBook.tsx:172-194 | In the details dialog, every task is in the group of its date prefix and in no other. Each group is the log's tasks with that prefix, in order. |
| FridayCompile.CheckForFridayCompilation | src/pages/Index.tsx:19-50 | Loading ends false on every path. The store is unchanged when it is not Friday, when a log is found, or when the week has no tasks. A log is created exactly when none of those holds and the save succeeds. |
| FridayCompile.FridayCreatesCurrentWeek | src/pages/Index.tsx:21-29 | When a log is created, it comes from one createWeeklyLog call for the current week with exactly that week's weekday tasks. It is then found under its id. |
| FridayCompile.FridayLogCoversToday | src/pages/Index.tsx:21-29 | A created log starts four days before today, a Friday, and ends two days after it. |
| CoverPageForm.Validate | src/components/CoverPageForm.tsx:20-29 | There are no errors exactly when every field has at least two characters. Each error names a short field with that field's message, and every short field is reported. |
| CoverPageForm.ValidMeans | src/components/CoverPageForm.tsx:20-29 | The form is valid exactly when each of the eight fields has length >= 2. |
| CoverPageForm.DefaultsFail | src/components/CoverPageForm.tsx:45-57 | The empty default values fail, with one error per field, in schema order. |
| CoverPageForm.RemoveInstitutionLogo | src/components/CoverPageForm.tsx:160 | Removing resets the institution logo to null and changes nothing else. |
| CoverPageForm.RemoveCompanyLogo | src/components/CoverPageForm.tsx:232 | Removing resets the company logo to null and changes nothing else. |
| CoverPageForm.Submit | src/components/CoverPageForm.tsx:74-80 | A payload exists exactly when the values validate. It is the eight values plus the two current logos, unchanged. |
| CoverPageForm.SubmittedCover | src/components/CoverPageForm.tsx:42-80 | Both logos start null, and the opening form does not submit. A submitted form's cover page shows each value after its label, and draws no logo once both are removed. |

## Left out

- Time zones and daylight saving. The model has one zone, so the UTC text of `toISOString` and the local `yyyy-MM-dd` keys agree. In the program they can disagree near midnight.
- Years outside 1..9999. The day-key and ISO-text properties hold only for years 1..9999, where both texts have four-digit years.
- Storage.TasksForDayAreThatDay: stated for dates in years 1..9999 only, for the reason above.
- WeeklyLogView.GroupHoldsItsDay: stated for days in years 1..9999 only, for the reason above.
- WeeklyLogView.TaskInOneGroup: stated for days in years 1..9999 only, for the reason above.
- WeeklyLogView.UnlistedDayInNoGroup: stated for days in years 1..9999 only, for the reason above.
- WeeklyLogView.OneGroupPerDay: stated for distinct days in years 1..9999, for the reason above.
- DateUtils.DayIdentifierRoundTrip: stated for years from 100 on. The Date constructor reads years 0..99 as 1900..1999, which DateUtils.TwoDigitYearKeyShifts exhibits.
- DateUtils.GetWeekForDate: its week number is the corrected `DateUtils.GetWeekNumber`, not `getWeekNumber` as written. The source stores one more at any instant after midnight on a Saturday. `DateUtils.SourceWeekNumber` states the exact difference.
- DateUtils.GetCurrentWeek: carries the same corrected week number as `DateUtils.GetWeekForDate`, for the same reason.
- DateUtils.AsWrittenInDays: stated for years outside 0..99. There `new Date(year, 0, 1)` means 1900..1999, so the as-written number for such a year counts from a January 1 in another century.
- DateUtils.AsWrittenAtMidnight: stated for years outside 0..99, for the reason above.
- DateUtils.AsWrittenOffMidnight: stated for years outside 0..99, for the reason above.
- DateUtils.AsWrittenNewYearSaturday: stated for years outside 0..99, for the reason above.
- DateUtils.SourceWeekNumber: stated for years outside 0..99, for the reason above.
- DateUtils.GetDateFromDayIdentifier: a field is read as a plain digit string. JavaScript's `Number()` also accepts surrounding blanks, a sign, exponents, fractions and "0x" hex ("+1", " 1", "1e1", "1.5"), which the model treats as invalid. `Number()` also rounds a field of 2^53 or more to a double. The model keeps such a field exact, but `DateUtils.LargeFieldOutOfRange` shows that any such field, rounded or not, already makes an invalid date.
- DateUtils.EachDayOfInterval: the descending list for start > end is date-fns v3 behaviour. Version 2 throws a RangeError. No source file fixes the version, and the program only calls it with start <= end.
- FridayCompile.CheckForFridayCompilation: one clock reading feeds both the Friday test and the current week. `Index.tsx` reads the clock twice (`isTodayFriday()`, then `getCurrentWeek()`), so a run across midnight could see two different days.
- PdfReport.SkillsCell: states emptiness, the first skill and the length of the joined text, not every character.
- localStorage, JSON parse/stringify, and reading stored text back with `new Date`. The store is a value, and dates are kept as instants.
- A storage write that throws. This appears only as the `saveFails` parameter of `WeeklyLogView.Compile` and `FridayCompile.CheckForFridayCompilation`. A failing read in `loadWeekData` is not modelled.
- Randomness and the clock. Task ids take the clock reading and the random suffix as parameters. `getWeekIdentifier` returns a fresh uuid, so every log lookup and upsert takes its id as a parameter. `compiledAt` and "now" are parameters too.
- The words of date-fns formats: month and weekday names in "MMMM d, yyyy" and "EEEE, MMMM d, yyyy". They are the uninterpreted `PdfReport.Formatters`. `"MMM"`, `"d"`, `"yyyy"` and `"yyyy-MM-dd"` are modelled.
- PDF drawing: fonts, colours, image encoding, and autoTable's pagination and column widths.
- The "Page N" footer, which depends on autoTable's layout.
- The "Generated on" line, which reads the clock.
- The React rendering, toasts, dialogs, routing and effects, including the "Add Skills" dialog, which holds no logic.
- The FileReader logo upload, which is browser I/O. Setting and removing logos is modelled.
- CoverPageForm.Validate: zod counts string length in UTF-16 code units, while the model counts Unicode scalar values. A character outside the Basic Multilingual Plane counts as 1 here and 2 there.
- The `Task` record declares no `skills` field, although the readers use `task.skills`. The model gives every task a possibly empty sequence of skills, which `addTask` leaves empty.
- "One log per week" is not claimed. The lookup id is fresh on every call, so the program does not guarantee it.

## Findings

| source | as written | input that shows it | evidently intended | confidence | as-written member | corrected member |
|---|---|---|---|---|---|---|
| src/utils/dateUtils.ts:67-71 | `getWeekNumber` takes `Math.ceil` of a fractional day count: milliseconds since January 1 divided by 86400000. Any instant after midnight on a Saturday is numbered one week too high. | Saturday 2022-01-01 (day 18993): week 1 at 00:00 but week 2 at 12:00 | The week number of the calendar day, the same for every instant of that day (January 1 in week 1, +1 on each Sunday) | high for the arithmetic; not executed | DateUtils.AsWrittenSaturdayNoon | DateUtils.GetWeekNumber |

The rest of the model uses the corrected `DateUtils.GetWeekNumber`. The
formula as written is `DateUtils.GetWeekNumberAsWritten`.
`DateUtils.AsWrittenOffMidnight` shows that it differs from the corrected
number exactly on Saturdays away from midnight.
