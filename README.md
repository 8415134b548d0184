# Smart Study Planner — a verified model of the planner engine

The Smart Study Planner is a single-page browser application. Its one script,
`script.js`, keeps a list of study tasks and a small settings record in memory
and in `localStorage`. It offers:

- a filtered, searched and sorted task list;
- pending and completed counters;
- a month calendar that marks the days with tasks and lists the tasks of a selected day;
- progress statistics: weekly and monthly completion rates, a per-subject
  breakdown, and a seven-day chart of completed study minutes;
- reminders for tasks that fall due within a configurable number of hours;
- export, import and clearing of all data.

This project models that engine in Dafny:

- `wrappers.dfy` (module `Wrappers`): the `Option` type.
- `text.dfy` (module `Text`): `toLowerCase` (ASCII), `includes`, decimal
  rendering and `padStart(2, '0')`, with parse-back functions. The day key is
  built from these.
- `dates.dfy` (module `Dates`): the ECMAScript date arithmetic the script relies on.
  - Dates are counted in local time, with no time zone.
  - `MakeDay` and `DayFromYear` follow the ECMAScript definitions.
  - `WeekDay` gives the weekday.
  - `DaysInMonth` is the Gregorian month length.
  - `DayNumber` orders calendar dates, and `Instant` gives milliseconds.
  - `DayKey` is `formatDateForComparison`; `ParseDayKey` reads a key back.
- `tasks.dfy` (module `Tasks`): the task record, the priority rank, and
  `Array.prototype.filter` / `findIndex` over tasks.
- `sorting.dfy` (module `Sorting`): stable sorting by a lexicographic key. This
  is what `Array.prototype.sort` does with the script's comparators. The module
  proves the result sorted, a permutation, stable, and the only such arrangement.
- `store.dfy` (module `Store`): the class `Planner`. Its fields are the
  module-level `tasks` list and `settings` record, and its methods are the
  operations that change them in place.
- `query.dfy` (module `Query`): `renderTasks`' filter and sort, and `showTasksForDate`.
- `calendar.dfy` (module `Calendar`):
  - `renderCalendar`'s grid loops and cell flags;
  - the calendar's view state (`currentDate`, `selectedDate`);
  - month navigation.
- `progress.dfy` (module `Progress`): `updateProgress`, `updateSubjectBreakdown`
  and `updateTimeChart`.
- `reminders.dfy` (module `Reminders`): `checkForDueTasks`.

Modelling choices:

- **Dates and times.** A due date is a `DateTime`: a calendar date plus
  milliseconds into the day. `createdAt` and "now" are instants in milliseconds.
- **Inputs from outside.** The clock, ids (`Date.now()`) and the user's
  confirmation are parameters.
- **Ids.** The script does not guarantee unique ids. So uniqueness is not an
  invariant here. Four methods prove that they keep ids unique when they were
  unique before: `AddTask` (given an id no stored task has), `ToggleCompletion`,
  `UpdateTask` and `DeleteTask`. `Import` installs the payload's tasks with
  their ids unchecked, duplicates included.
- **Rounding.** `Math.round` of a ratio is computed exactly in integers.

## Model

| member | source | states |
|---|---|---|
| Text.Lower | script.js:134 | lower-casing keeps the length, leaves no upper-case letter, maps `A`–`Z` to `a`–`z` and leaves every other character unchanged |
| Text.Contains | script.js:145-147 | `includes` is true exactly when the needle occurs at some position of the text |
| Text.ContainsEmpty | script.js:145-147 | the empty search text occurs in every name, so an empty search hides nothing |
| Text.NatToString | script.js:703 | `String(n)` is a non-empty string of digits, one digit exactly below 10, two digits for 10–99, and has no leading zero |
| Text.ParseNatToString | script.js:703 | reading back the decimal rendering of a natural number gives the number |
| Text.IntToStringRoundTrip | script.js:703 | reading back the rendering of any integer year, sign included, gives the integer |
| Text.PaddedRoundTrip | script.js:703 | `padStart(2, '0')` of a number below 100 has two characters and reads back as the number |
| Dates.DaysInMonth | script.js:318 | a month has 28 to 31 days; 29 exactly for February of a leap year, 28 exactly for February of a common year |
| Dates.DaysBeforeNextMonth | script.js:318 | the days before month m+1 are the days before month m plus the length of month m |
| Dates.YearStep | script.js:317-318 | the day number of 1 January advances by the year length (365 or 366) from one year to the next |
| Dates.DayFromYearAgrees | script.js:317-318 | the year-by-year count of days equals ECMAScript's closed-form DayFromYear with floor division |
| Dates.FormulaStep | script.js:317-318 | the closed-form DayFromYear advances by the year length from one year to the next |
| Dates.DayFromYearMonotone | script.js:317-318 | every later year starts after the earlier year has ended |
| Dates.DayZeroOfNextMonth | script.js:318 | `new Date(y, m + 1, 0)` is the last day of month m, a valid date whose day of the month is the month length and whose `DayNumber` is `MakeDay(y, m + 1, 0)` |
| Dates.WeekDay | script.js:317 | `getDay()` lies in 0..6 |
| Dates.DayNumberOrder | script.js:335-336 | for valid dates, the day number is smaller exactly when the date is earlier, and equal exactly when the dates are equal |
| Dates.PrevDay | script.js:558 | the previous day is a valid date one day number earlier, crossing month and year ends |
| Dates.MakeDay | script.js:317-318 | what `new Date(y, m, d)`, `setDate` and `setMonth` compute, with months and days carrying over; its properties are stated by `DayNumberOfValid`, `DayZeroOfNextMonth`, `DaysBack`, `MonthBack` and `Calendar.SetMonth` |
| Dates.DaysBack | script.js:558 | `setDate(getDate() - n)` lands on a valid date exactly n days earlier |
| Dates.MonthBack | script.js:479 | `setMonth(getMonth() - 1)` moves back by the length of the previous month, overflow included |
| Dates.InstantOrder | script.js:159-160 | for valid date-times, `new Date(a) - new Date(b)` is negative, zero or positive exactly as a is before, equal to, or after b |
| Dates.DayKey | script.js:702-704 | `formatDateForComparison`: year, two-digit month (1-based) and two-digit day joined by `-`; `DayKeyRoundTrip` and `SameDayKey` state its contract |
| Dates.DayKeyRoundTrip | script.js:702-704 | the `formatDateForComparison` string of a valid date parses back to that date |
| Dates.SameDayKey | script.js:702-704 | two valid dates have the same comparison string exactly when they are the same calendar day |
| Tasks.Rank | script.js:162-163 | the `priorityOrder` table: ranks 0..2, 0 exactly for high, 2 exactly for low |
| Tasks.Filter | script.js:140 | the result is no longer than the input; every kept element satisfies the predicate; an element is kept exactly when it is in the input and satisfies the predicate |
| Tasks.FilterOccurrences | script.js:140 | a kept element is kept as often as it occurs in the input; a rejected one not at all |
| Tasks.FilterAppend | script.js:140 | filtering keeps the input order: filtering a concatenation concatenates the filtered parts |
| Tasks.CountsPartition | script.js:293-296 | the pending count plus the completed count is the number of tasks |
| Tasks.IndexOf | script.js:213 | `findIndex` by id returns -1 exactly when no task has the id, otherwise the first position holding it |
| Store.ApplyImport | script.js:632-643 | the store is replaced by the payload exactly when it carries both tasks and settings, and otherwise kept |
| Store.ExportImportRoundTrip | script.js:597-603 | importing an exported document restores exactly the exported tasks and settings, whatever the store held |
| Store.NewTask | script.js:108-118 | the new record carries the given id and form fields, is not completed, and is stamped with the creation time |
| Store.WithFields | script.js:254-259 | the edit overwrites exactly the six editable fields and keeps id, completion and creation time |
| Store.Toggled | script.js:215 | toggling negates `completed` and keeps every other field |
| Store.RemoveAt | script.js:281 | `splice(i, 1)` keeps the elements before i, shifts the later ones down by one, and removes exactly one copy of the element at i |
| Store.Planner.constructor | script.js:29-33 | start-up uses the stored task list and settings, or an empty list and notifications on with a 24-hour look-ahead |
| Store.Planner.AddTask | script.js:108-120 | the new task is appended at the end; nothing else changes; ids stay unique when the new id is fresh |
| Store.Planner.ToggleCompletion | script.js:212-216 | the first task with the id is replaced by its toggled copy; every other position and the settings are unchanged; an unknown id changes nothing |
| Store.Planner.UpdateTask | script.js:254-259 | the first task with the id gets the form's editable fields; every other task is unchanged; an unknown id changes nothing |
| Store.Planner.DeleteTask | script.js:276-283 | after confirmation, the first task with the id is removed and the others keep their order; otherwise nothing changes; with unique ids the id is then gone |
| Store.Planner.SaveSettings | script.js:588-591 | both settings are replaced and the tasks are untouched |
| Store.Planner.Export | script.js:597-601 | the exported document is the current tasks and settings |
| Store.Planner.Import | script.js:632-643 | the import succeeds exactly when both members are present; the new store is the one `ApplyImport` gives |
| Store.Planner.ClearData | script.js:655-661 | after confirmation there are no tasks and the default settings; otherwise nothing changes |
| Store.ToggleCounts | script.js:212-215 | toggling one task moves exactly one task between the pending and the completed count |
| Query.CompareForList | script.js:153-164 | the list comparator: completed state, then due instant, then priority rank; `CompareForListAgrees` states its order |
| Query.CompareForListAgrees | script.js:153-164 | the list comparator is negative, zero or positive exactly as the (completed, due instant, rank) key is smaller, equal or larger |
| Query.TaskList | script.js:131-164 | `renderTasks`' filter, then a stable sort by the list comparator; `TaskListSelects`, `TaskListOrdered`, `TaskListStable` and `TaskListUnique` state its contract |
| Query.TaskListSelects | script.js:140-150 | a task is listed exactly when it is stored and passes the priority, status and lower-cased search filters; the list is a permutation of the filtered tasks |
| Query.TaskListOrdered | script.js:153-164 | pending tasks precede completed ones; within one state due instants do not decrease; at one due instant, priority rank does not decrease |
| Query.TaskListStable | script.js:153 | tasks that compare equal stay in store order |
| Query.TaskListUnique | script.js:153-164 | any sorted arrangement of the filtered tasks that keeps ties in store order is exactly the list shown |
| Query.TaskListUnfiltered | script.js:140-150 | with filters at "all" and an empty search, every stored task is listed |
| Query.CompareForDayAgrees | script.js:393-396 | the day-view comparator orders by priority rank only |
| Query.TasksForDate | script.js:378-398 | `showTasksForDate`: the tasks due that day, stably sorted by priority rank; `TasksForDateSelects` and `TasksForDateStable` state its contract |
| Query.TasksForDateStable | script.js:393-396 | tasks of equal priority keep their store order in the day's list |
| Query.TasksForDateSelects | script.js:384-398 | a task is shown for a valid day exactly when it is due that calendar day; the day's list is a permutation of those tasks with rank non-decreasing |
| Calendar.FirstWeekday | script.js:317 | the number of leading blanks lies in 0..6 |
| Calendar.Grid | script.js:317-350 | the two loops produce exactly the given number of blanks followed by the cells of days 1..n in day order |
| Calendar.HasTasksOn | script.js:336 | `tasks.some(...)` over the comparison keys; `HasTasksOnIff` states what it means |
| Calendar.DayCell | script.js:330-350 | a day's cell with its has-tasks, today and selected flags; `MonthGrid` places it in the grid |
| Calendar.MonthGrid | script.js:317-350 | the grid has first-weekday blanks followed by one cell for each day 1..month length; each day cell carries the has-tasks, today and selected flags of that day |
| Calendar.GridColumnIsWeekday | script.js:317-329 | in the seven-column grid, day d sits in the column of its own weekday |
| Calendar.HasTasksOnIff | script.js:335-336 | a day is marked as having tasks exactly when some stored task is due on that calendar day |
| Calendar.NextMonthContinues | script.js:317-329 | the next month's first day falls in the grid column after this month's last day |
| Calendar.SetMonth | script.js:79-86 | `setMonth(getMonth() + delta)` gives a valid date whose day number is ECMAScript's MakeDay of the shifted month |
| Calendar.SetMonthTarget | script.js:79-86 | `setMonth` reaches the intended month exactly when the current day of the month exists in it |
| Calendar.PreviousMonthFrom31October | script.js:79-82 | in every year, from 31 October the previous-month button lands on 1 October |
| Calendar.NextMonthFrom31January | script.js:84-87 | in every year, from 31 January the next-month button lands on 2 March (leap year) or 3 March |
| Calendar.MonthStart | script.js:79-86 | the corrected navigation lands on day 1 of the month exactly delta months away |
| Calendar.CalendarView.constructor | script.js:302-303 | the calendar opens on today's (valid) date with nothing selected |
| Calendar.CalendarView.Render | script.js:305-375 | the grid of the shown month is drawn and the view stays valid; the first render selects today and lists today's tasks; later renders keep the selection |
| Calendar.CalendarView.SelectDay | script.js:358-365 | clicking a day selects that date of the shown month and lists its tasks |
| Calendar.CalendarView.PreviousMonth | script.js:79-82 | the calendar shows the first day of the month before, one month index lower, and stays valid |
| Calendar.CalendarView.NextMonth | script.js:84-87 | the calendar shows the first day of the month after, one month index higher, and stays valid |
| Progress.RoundPercent | script.js:470-472 | the result is the integer nearest to 100c/n, halves rounded up; it lies in 0..100 when c ≤ n |
| Progress.RoundPercentUnique | script.js:470-472 | only one integer is nearest to 100c/n, so the integer formula is `Math.round`'s value |
| Progress.CompletionRate | script.js:467-472 | the rate is 0 for an empty window, otherwise the rounded share of completed tasks among those created since the bound; always in 0..100 |
| Progress.CompletionRateExtremes | script.js:467-486 | a window with every task completed gives 100; one with none completed gives 0 |
| Progress.WeekAgo | script.js:464-465 | the weekly window's start, `setDate(getDate() - 7)` on now; `WeekAgoIsSevenDays` states its value |
| Progress.MonthAgo | script.js:478-479 | the monthly window's start, `setMonth(getMonth() - 1)` on now; `MonthAgoIsPreviousMonthLength` states its value |
| Progress.WeekAgoIsSevenDays | script.js:464-465 | the weekly window starts exactly seven days before now |
| Progress.MonthAgoIsPreviousMonthLength | script.js:478-479 | the monthly window starts as many days before now as the previous month has |
| Progress.WeekWithinMonth | script.js:464-481 | every task in the weekly window is also in the monthly window |
| Progress.Subjects | script.js:504 | `tasks.map(task => task.subject)`: one subject per task, in task order |
| Progress.FirstIndex | script.js:504 | the position of the first occurrence of a value |
| Progress.Distinct | script.js:504 | `[...new Set(...)]` holds exactly the values of the input, each once |
| Progress.DistinctFirstOccurrence | script.js:504 | the distinct values come out in the order of their first occurrence |
| Progress.StatOf | script.js:508-510 | a subject's line counts its tasks (at least one) and its completed tasks (no more than the total); its rounded percentage lies in 0..100 |
| Progress.SubjectBreakdown | script.js:504-510 | one line per distinct subject, in first-occurrence order |
| Progress.SubjectBreakdownSubjects | script.js:504-546 | the lines name exactly the subjects of the tasks, each once; "No subjects" shows exactly when there are no tasks |
| Progress.BreakdownCoversAll | script.js:507-508 | every task is counted under exactly one line: the line totals add up to the number of tasks |
| Progress.CompletedMinutesOn | script.js:563-570 | the minutes of the completed tasks due on a day; `CompletedOnIff` states which tasks it sums |
| Progress.CompletedOnIff | script.js:565-568 | a day's bar counts exactly the completed tasks due on that calendar day |
| Progress.BarHeight | script.js:574 | the bar is 20 pixels for an empty day, and otherwise the minutes capped at 200 |
| Progress.LastSevenDays | script.js:555-560 | the loop yields seven valid dates, the k-th one 6 − k days before today |
| Progress.TimeChart | script.js:555-570 | seven days ending today, each with the minutes of completed work due that day |
| Progress.TimeChartDays | script.js:555-560 | the seven chart days are consecutive, in calendar order, and the last is today |
| Reminders.RoundHours | script.js:684-687 | `Math.round(diff / 3600000)` is the nearest whole number of hours, halves up |
| Reminders.CheckForDueTasks | script.js:673-689 | one reminder per reported task, in store order, naming it and the rounded hours left; none when notifications are off |
| Reminders.DueSoon | script.js:673-686 | the tasks `checkForDueTasks` reports, in store order; `DueSoonIff` states which |
| Reminders.DueSoonIff | script.js:674-686 | a task is reported exactly when notifications are on and it is stored, pending, and due after now but at most the look-ahead hours later |
| Reminders.ReminderHoursBounded | script.js:684-687 | the announced hours lie between 0 and the look-ahead |
| Reminders.HoursWithin | script.js:686-687 | a time difference inside the look-ahead window rounds to 0..look-ahead hours |
| Sorting.InsertSorted | script.js:153-164 | inserting into a sorted list keeps it sorted and adds exactly the new element |
| Sorting.SortByKey | script.js:153-164 | the result is sorted by the key and is a permutation of the input |
| Sorting.InsertWithKey | script.js:153 | insertion puts the new element after the elements that share its key, and leaves the other keys' elements alone |
| Sorting.SortStable | script.js:153 | for every key, the elements holding it keep their input order |
| Sorting.SortedUnique | script.js:153-164 | two sorted lists with the same per-key subsequences are equal |

## Findings

| source | as written | input that shows it | evidently intended | confidence | as-written member | corrected member |
|---|---|---|---|---|---|---|
| script.js:79-86 | the month buttons call `currentDate.setMonth(getMonth() ± 1)` on a date that keeps its day of the month; when the target month is shorter, the date runs on into the following month | today 31 October 2024, previous-month button: the calendar lands on 1 October and still shows October. Today 31 January 2024, next-month button: it lands on 2 March and skips February | the button shows the month before or after the current one | high (not executed) | Calendar.SetMonth, Calendar.PreviousMonthFrom31October, Calendar.NextMonthFrom31January | Calendar.MonthStart, Calendar.CalendarView.PreviousMonth, Calendar.CalendarView.NextMonth |

`Calendar.SetMonthTarget` states the general condition: the as-written navigation reaches the intended month exactly when the current day exists in it. The view state (`CalendarView`) navigates with the corrected `MonthStart`.

## Left out

- Rendering, styling, event wiring, `setTimeout` highlighting and the Notification API. The model returns what would be drawn or announced: grid cells, list order, rates, bar heights and reminder texts. It does not model the DOM.
- `localStorage` persistence and JSON (de)serialisation. The stored values enter as `Option`s and the parsed import file as a `Payload`. A member that is present but falsy (`0`, `""`, `null`) counts as missing, as JavaScript's `&&` guard treats it.
- Date parsing and time zones. A due date is a `DateTime` in local time. The source parses date-only strings as UTC midnight and date-time strings as local time; this is not modelled.
- Two-digit years. `new Date(y, m, d)` maps years 0–99 to 1900–1999; this is not modelled.
- Invalid dates. An unparseable date is `NaN` in JavaScript, and the model requires valid dates where the same-day key is compared.
- Due-date strings. The list comparator first compares the `dueDate` strings and only then their instants. Two different strings naming the same instant compare equal there and skip the priority rank. The model's `DateTime` has one value per instant, so this case does not arise.
- `parseInt` of `estimatedTime` and of the look-ahead setting. Non-numeric text yields `NaN`, which would make a day's sum `NaN` and disable reminders. The model takes these as integers.
- The submit-listener swapping in `editTask`. Listeners added by earlier edits are not removed, so several tasks can be updated by one submit; this is not modelled. `Store.Planner.UpdateTask` models one run of the update handler for the task being edited.
- Store.Planner.UpdateTask: looks the task up by id when the form is submitted. The source holds the object found when editing began, so an edit of a task deleted in the meantime changes a detached object. The model treats that case as an unknown id.
- Reminders.DueWithin: compares `diff ≤ hours·3600000` in exact integers. The source divides in floating point first; the two agree except for rounding at the window's end.
- Progress.RoundPercent: exact rational rounding. The source rounds the floating-point value of `c / n * 100`, which can differ when that value lands within rounding error of a half.
- Text.Lower: lower-cases ASCII letters only. JavaScript's `toLowerCase` also maps other Unicode letters.
- Calendar labels and locale formatting (`toLocaleDateString`, month names, weekday abbreviations).
- `init`, `loadSettings` and the repeated re-rendering after each change. Besides re-rendering, `init` calls `setupEventListeners` (script.js:36-44), which attaches handlers every time it runs. Named handlers such as `addTask` are registered only once by the DOM, but the anonymous handlers of the month buttons and the tabs (script.js:57-87) stack. `importData` and `clearData` call `init` (script.js:639, 666), so after k imports or clears each month button carries k + 1 handlers, and one press moves the calendar k + 1 months (clear the data once, then press next month: the calendar moves two months). The model assumes one handler per button: `Calendar.SetMonth`, `Calendar.CalendarView.PreviousMonth` and `Calendar.CalendarView.NextMonth` describe one handler run.
