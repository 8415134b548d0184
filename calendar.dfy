/**
 * The month calendar (renderCalendar): leading blank cells up to the weekday of
 * the 1st, then one cell per day of the month with its has-tasks, today and
 * selected flags; the calendar's view state (the date whose month is shown and
 * the selected day) and the month navigation.
 */
module Calendar {
  import opened Wrappers
  import opened Dates
  import opened Tasks
  import Query

  datatype Cell = Blank | Day(day: int, hasTasks: bool, isToday: bool, isSelected: bool)

  /** `new Date(year, month, 1).getDay()`. */
  function FirstWeekday(year: int, month: int): (w: int)
    ensures 0 <= w < 7
  {
    WeekDay(MakeDay(year, month, 1))
  }

  /** `tasks.some(...)`: some task's due date has the same comparison key as `date`. */
  predicate HasTasksOn(tasks: seq<Task>, date: CivilDate) {
    exists i | 0 <= i < |tasks| :: Query.DueOn(tasks[i], date)
  }

  /** The cell renderCalendar builds for day `day` of the shown month. */
  function DayCell(tasks: seq<Task>, year: int, month: int, day: int, today: CivilDate,
                   selected: Option<CivilDate>): Cell
  {
    Day(day,
        HasTasksOn(tasks, CivilDate(year, month, day)),
        today.year == year && today.month == month && today.day == day,
        selected.Some? && selected.value.year == year && selected.value.month == month &&
        selected.value.day == day)
  }

  /** renderCalendar's two loops: `blanks` empty cells, then `cell(day)` for
      the days 1 to `days`. */
  method Grid(blanks: int, days: int, cell: int -> Cell) returns (cells: seq<Cell>)
    requires 0 <= blanks && 0 <= days
    ensures |cells| == blanks + days
    ensures forall i :: 0 <= i < blanks ==> cells[i] == Blank
    ensures forall d :: 1 <= d <= days ==> cells[blanks + d - 1] == cell(d)
  {
    cells := [];
    var i := 0;
    while i < blanks
      invariant 0 <= i <= blanks
      invariant |cells| == i
      invariant forall k :: 0 <= k < i ==> cells[k] == Blank
    {
      cells := cells + [Blank];
      i := i + 1;
    }
    var day := 1;
    while day <= days
      invariant 1 <= day <= days + 1
      invariant |cells| == blanks + day - 1
      invariant forall k :: 0 <= k < blanks ==> cells[k] == Blank
      invariant forall d :: 1 <= d < day ==> cells[blanks + d - 1] == cell(d)
    {
      cells := cells + [cell(day)];
      day := day + 1;
    }
  }

  /** The grid renderCalendar draws for a month: `FirstWeekday` blanks, then one
      cell per day of the month. */
  predicate IsMonthGrid(cells: seq<Cell>, tasks: seq<Task>, year: int, month: int, today: CivilDate,
                        selected: Option<CivilDate>)
  {
    0 <= month < 12 &&
    |cells| == FirstWeekday(year, month) + DaysInMonth(year, month) &&
    (forall i :: 0 <= i < FirstWeekday(year, month) ==> cells[i] == Blank) &&
    forall d :: 1 <= d <= DaysInMonth(year, month) ==>
      cells[FirstWeekday(year, month) + d - 1] == DayCell(tasks, year, month, d, today, selected)
  }

  /** renderCalendar's grid for a month: `firstDay` blanks, then the day cells. */
  method MonthGrid(tasks: seq<Task>, year: int, month: int, today: CivilDate,
                   selected: Option<CivilDate>) returns (cells: seq<Cell>)
    requires 0 <= month < 12
    ensures IsMonthGrid(cells, tasks, year, month, today, selected)
  {
    var firstDay := FirstWeekday(year, month);
    // new Date(year, month + 1, 0).getDate(), see DayZeroOfNextMonth
    var daysInMonth := DaysInMonth(year, month);
    var cell := d => DayCell(tasks, year, month, d, today, selected);
    cells := Grid(firstDay, daysInMonth, cell);
    forall d | 1 <= d <= daysInMonth
      ensures cells[firstDay + d - 1] == DayCell(tasks, year, month, d, today, selected)
    {
      assert cells[firstDay + d - 1] == cell(d);
    }
  }

  /** In the seven-column grid every day sits in the column of its weekday. */
  lemma GridColumnIsWeekday(year: int, month: int, d: int)
    requires 0 <= month < 12 && 1 <= d <= DaysInMonth(year, month)
    ensures (FirstWeekday(year, month) + d - 1) % 7 == WeekDay(DayNumber(CivilDate(year, month, d)))
  {
    var first := MakeDay(year, month, 1);
    var n := DayNumber(CivilDate(year, month, d));
    assert n == first + (d - 1) by {
      DayNumberOfValid(CivilDate(year, month, d));
      DayNumberOfValid(CivilDate(year, month, 1));
    }
    WeekDayShift(first, d - 1);
  }

  lemma WeekDayShift(n: int, k: int)
    ensures (WeekDay(n) + k) % 7 == WeekDay(n + k)
  {
    var q := (n + 4) / 7;
    assert n + 4 == 7 * q + WeekDay(n);
    assert WeekDay(n) + k == (n + k + 4) - 7 * q;
  }

  /** A day is flagged as having tasks exactly when some task is due that day. */
  lemma HasTasksOnIff(tasks: seq<Task>, date: CivilDate)
    requires date.Valid()
    requires forall t :: t in tasks ==> t.dueDate.Valid()
    ensures HasTasksOn(tasks, date) <==> exists t :: t in tasks && t.dueDate.date == date
  {
    if HasTasksOn(tasks, date) {
      var i :| 0 <= i < |tasks| && Query.DueOn(tasks[i], date);
      SameDayKey(tasks[i].dueDate.date, date);
    }
    if exists t :: t in tasks && t.dueDate.date == date {
      var t :| t in tasks && t.dueDate.date == date;
      var i :| 0 <= i < |tasks| && tasks[i] == t;
      assert Query.DueOn(tasks[i], date);
    }
  }

  /** Consecutive months tile the seven columns: the next month's 1st falls in
      the column after this month's last day. */
  lemma NextMonthContinues(year: int, month: int)
    requires 0 <= month < 12
    ensures FirstWeekday(year, month + 1) == (FirstWeekday(year, month) + DaysInMonth(year, month)) % 7
  {
    var first := MakeDay(year, month, 1);
    assert MakeDay(year, month + 1, 1) == first + DaysInMonth(year, month) by {
      DayZeroOfNextMonth(year, month);
      DayNumberOfValid(CivilDate(year, month, DaysInMonth(year, month)));
      DayNumberOfValid(CivilDate(year, month, 1));
    }
    WeekDayShift(first, DaysInMonth(year, month));
  }

  // ---------------------------------------------------------------------------
  // Month navigation.

  /** The position of a date's month, counted in months from January of year 0. */
  function MonthIndex(c: CivilDate): int {
    12 * c.year + c.month
  }

  /** `setMonth(getMonth() + delta)` on a date: the same date of the target month,
      running on into the month after it when the target month is shorter. */
  function SetMonth(c: CivilDate, delta: int): (r: CivilDate)
    requires c.Valid()
    ensures r.Valid()
    ensures DayNumber(r) == MakeDay(c.year, c.month + delta, c.day)
  {
    var ty := c.year + (c.month + delta) / 12;
    var tm := (c.month + delta) % 12;
    if c.day <= DaysInMonth(ty, tm) then
      DayNumberOfValid(CivilDate(ty, tm, c.day));
      CivilDate(ty, tm, c.day)
    else
      Overflow(ty, tm, c.day);
      CivilDate(ty + (tm + 1) / 12, (tm + 1) % 12, c.day - DaysInMonth(ty, tm))
  }

  /** A day past the end of month `m` is the matching day of the month after. */
  lemma Overflow(y: int, m: int, day: int)
    requires 0 <= m < 12 && DaysInMonth(y, m) < day <= 31
    ensures var r := CivilDate(y + (m + 1) / 12, (m + 1) % 12, day - DaysInMonth(y, m));
            r.Valid() && DayNumber(r) == DayFromYear(y) + DaysBeforeMonth(y, m) + day - 1
  {
    var r := CivilDate(y + (m + 1) / 12, (m + 1) % 12, day - DaysInMonth(y, m));
    DaysBeforeNextMonth(y, m);
    // December has 31 days, so the overflow stays within the year
    assert r == CivilDate(y, m + 1, day - DaysInMonth(y, m));
    DayNumberOfValid(r);
  }

  /** setMonth reaches the intended month exactly when the date exists there. */
  lemma SetMonthTarget(c: CivilDate, delta: int)
    requires c.Valid()
    ensures var ty := c.year + (c.month + delta) / 12;
            var tm := (c.month + delta) % 12;
            MonthIndex(SetMonth(c, delta)) == MonthIndex(c) + delta <==> c.day <= DaysInMonth(ty, tm)
  {
  }

  /** On 31 October the previous-month button leaves the calendar on October. */
  lemma PreviousMonthFrom31October(year: int)
    ensures SetMonth(CivilDate(year, 9, 31), -1) == CivilDate(year, 9, 1)
  {
    assert (9 - 1) / 12 == 0 && (9 - 1) % 12 == 8;
    assert DaysInMonth(year, 8) == 30;
  }

  /** On 31 January the next-month button skips February: it lands on 2 March
      in a leap year and on 3 March otherwise. */
  lemma NextMonthFrom31January(year: int)
    ensures SetMonth(CivilDate(year, 0, 31), 1) ==
            CivilDate(year, 2, if IsLeapYear(year) then 2 else 3)
  {
    assert (0 + 1) / 12 == 0 && (0 + 1) % 12 == 1;
    assert DaysInMonth(year, 1) == if IsLeapYear(year) then 29 else 28;
  }

  /** Navigation as intended: the first day of the month `delta` months away. */
  function MonthStart(c: CivilDate, delta: int): (r: CivilDate)
    ensures r.Valid() && r.day == 1
    ensures MonthIndex(r) == MonthIndex(c) + delta
  {
    CivilDate(c.year + (c.month + delta) / 12, (c.month + delta) % 12, 1)
  }

  /** The calendar's view state: `shown` is the date whose month is displayed,
      `selected` the day whose tasks are listed, if any. */
  class CalendarView {
    var shown: CivilDate
    var selected: Option<CivilDate>

    /** The shown date is a real calendar date. */
    predicate Valid()
      reads this
    {
      shown.Valid()
    }

    constructor (today: CivilDate)
      requires today.Valid()
      ensures Valid()
      ensures shown == today && selected == None
    {
      shown := today;
      selected := None;
    }

    /** renderCalendar: the grid of the shown month; on the first render the
        selection defaults to today and today's tasks are listed. */
    method Render(tasks: seq<Task>, today: CivilDate) returns (cells: seq<Cell>, dayTasks: Option<seq<Task>>)
      requires Valid()
      modifies this`selected
      ensures Valid()
      ensures IsMonthGrid(cells, tasks, shown.year, shown.month, today, old(selected))
      ensures old(selected).None? ==> selected == Some(today) && dayTasks == Some(Query.TasksForDate(tasks, today))
      ensures old(selected).Some? ==> selected == old(selected) && dayTasks == None
    {
      cells := MonthGrid(tasks, shown.year, shown.month, today, selected);
      dayTasks := None;
      if selected.None? {
        selected := Some(today);
        dayTasks := Some(Query.TasksForDate(tasks, today));
      }
    }

    /** A click on day `day` of the shown month selects it and lists its tasks. */
    method SelectDay(tasks: seq<Task>, day: int) returns (dayTasks: seq<Task>)
      modifies this`selected
      ensures selected == Some(CivilDate(shown.year, shown.month, day))
      ensures dayTasks == Query.TasksForDate(tasks, CivilDate(shown.year, shown.month, day))
    {
      selected := Some(CivilDate(shown.year, shown.month, day));
      dayTasks := Query.TasksForDate(tasks, CivilDate(shown.year, shown.month, day));
    }

    /** The previous-month button. */
    method PreviousMonth()
      modifies this`shown
      ensures Valid()
      ensures shown == MonthStart(old(shown), -1)
      ensures MonthIndex(shown) == MonthIndex(old(shown)) - 1
    {
      shown := MonthStart(shown, -1);
    }

    /** The next-month button. */
    method NextMonth()
      modifies this`shown
      ensures Valid()
      ensures shown == MonthStart(old(shown), 1)
      ensures MonthIndex(shown) == MonthIndex(old(shown)) + 1
    {
      shown := MonthStart(shown, 1);
    }
  }
}
