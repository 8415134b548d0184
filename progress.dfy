/**
 * The progress view (updateProgress, updateSubjectBreakdown, updateTimeChart):
 * completion percentages over the tasks created in the last week and month,
 * per-subject completion in first-occurrence order of the subjects, and the
 * minutes of completed work due on each of the last seven days.
 */
module Progress {
  import opened Dates
  import opened Tasks
  import Query

  // ---------------------------------------------------------------------------
  // Percentages.

  /** Math.round(c / n * 100) in exact arithmetic: the integer nearest to
      100c/n, halves rounded up. */
  function RoundPercent(c: nat, n: nat): (p: int)
    requires n > 0
    ensures 2 * n * p - n <= 200 * c < 2 * n * p + n
    ensures c <= n ==> 0 <= p <= 100
  {
    var p := (200 * c + n) / (2 * n);
    RoundPercentBounds(c, n, p);
    p
  }

  lemma RoundPercentBounds(c: nat, n: nat, p: int)
    requires n > 0 && p == (200 * c + n) / (2 * n)
    ensures 2 * n * p - n <= 200 * c < 2 * n * p + n
    ensures c <= n ==> 0 <= p <= 100
  {
    var m := 2 * n;
    var r := (200 * c + n) % m;
    assert 200 * c + n == m * p + r && 0 <= r < m;
    assert 2 * n * p == m * p;
    if c <= n {
      if p > 100 {
        MulLeft(m, 101, p);
        assert false;
      } else if p < 0 {
        MulLeft(m, p, -1);
        assert false;
      }
    }
  }

  lemma MulLeft(n: int, a: int, b: int)
    requires n >= 0 && a <= b
    ensures n * a <= n * b
  {
    assert n * b - n * a == n * (b - a);
  }

  /** The integer nearest to 100c/n is unique, so RoundPercent is Math.round's value. */
  lemma RoundPercentUnique(c: nat, n: nat, q: int)
    requires n > 0
    requires 2 * n * q - n <= 200 * c < 2 * n * q + n
    ensures q == RoundPercent(c, n)
  {
    var p := RoundPercent(c, n);
    if q < p {
      MulLeft(2 * n, q, p - 1);
      assert false;
    } else if q > p {
      MulLeft(2 * n, p, q - 1);
      assert false;
    }
  }

  function CreatedSince(since: int): Task -> bool {
    (t: Task) => t.createdAt >= since
  }

  /** The completion rate of the tasks created at or after `since`: 0 for an
      empty window, otherwise the rounded percentage of those completed. */
  function CompletionRate(tasks: seq<Task>, since: int): (p: int)
    ensures 0 <= p <= 100
    ensures var w := Filter(tasks, CreatedSince(since));
            var c := |Filter(w, IsCompleted)|;
            (w == [] ==> p == 0) &&
            (w != [] ==> 2 * |w| * p - |w| <= 200 * c < 2 * |w| * p + |w|)
  {
    var w := Filter(tasks, CreatedSince(since));
    if |w| > 0 then RoundPercent(|Filter(w, IsCompleted)|, |w|) else 0
  }

  /** All completed gives 100, none completed gives 0. */
  lemma CompletionRateExtremes(tasks: seq<Task>, since: int)
    ensures var w := Filter(tasks, CreatedSince(since));
            (w != [] && Filter(w, IsCompleted) == w ==> CompletionRate(tasks, since) == 100) &&
            (Filter(w, IsCompleted) == [] ==> CompletionRate(tasks, since) == 0)
  {
    var w := Filter(tasks, CreatedSince(since));
    if w != [] && Filter(w, IsCompleted) == w {
      RoundPercentUnique(|w|, |w|, 100);
    }
    if w != [] && Filter(w, IsCompleted) == [] {
      RoundPercentUnique(0, |w|, 0);
    }
  }

  /** `oneWeekAgo`: now with setDate(getDate() - 7), the time of day kept. */
  function WeekAgo(now: DateTime): int {
    MakeDay(now.date.year, now.date.month, now.date.day - 7) * MS_PER_DAY + now.msOfDay
  }

  /** `oneMonthAgo`: now with setMonth(getMonth() - 1), the time of day kept. */
  function MonthAgo(now: DateTime): int {
    MakeDay(now.date.year, now.date.month - 1, now.date.day) * MS_PER_DAY + now.msOfDay
  }

  /** The weekly window starts exactly seven days before now. */
  lemma WeekAgoIsSevenDays(now: DateTime)
    requires now.Valid()
    ensures WeekAgo(now) == Instant(now) - 7 * MS_PER_DAY
  {
    var _ := DaysBack(now.date, 7);
  }

  /** The monthly window starts as many days before now as the previous month
      has; where that month is shorter than today's date, setMonth runs on into
      the current month and the window is correspondingly shorter. */
  lemma MonthAgoIsPreviousMonthLength(now: DateTime)
    requires now.Valid()
    ensures var py := if now.date.month == 0 then now.date.year - 1 else now.date.year;
            var pm := if now.date.month == 0 then 11 else now.date.month - 1;
            MonthAgo(now) == Instant(now) - DaysInMonth(py, pm) * MS_PER_DAY
  {
    MonthBack(now.date);
  }

  /** Every task counted in the weekly rate is also counted in the monthly one. */
  lemma WeekWithinMonth(tasks: seq<Task>, now: DateTime)
    requires now.Valid()
    ensures forall t :: t in Filter(tasks, CreatedSince(WeekAgo(now))) ==>
                        t in Filter(tasks, CreatedSince(MonthAgo(now)))
  {
    WeekAgoIsSevenDays(now);
    MonthAgoIsPreviousMonthLength(now);
  }

  // ---------------------------------------------------------------------------
  // Subjects.

  /** `tasks.map(task => task.subject)`. */
  function Subjects(tasks: seq<Task>): (r: seq<string>)
    ensures |r| == |tasks| && forall i :: 0 <= i < |tasks| ==> r[i] == tasks[i].subject
  {
    seq(|tasks|, i requires 0 <= i < |tasks| => tasks[i].subject)
  }

  /** The position of the first occurrence of `x` in `s`. */
  function FirstIndex<T(==,!new)>(s: seq<T>, x: T): (i: nat)
    requires x in s
    ensures i < |s| && s[i] == x && x !in s[..i]
  {
    if s[0] == x then 0
    else
      var i := FirstIndex(s[1..], x);
      assert s[..i + 1] == [s[0]] + s[1..][..i];
      i + 1
  }

  lemma {:induction false} FirstIndexPrefix<T(!new)>(s: seq<T>, y: T, x: T)
    requires x in s
    ensures FirstIndex(s + [y], x) == FirstIndex(s, x)
  {
    if s[0] != x {
      assert (s + [y])[1..] == s[1..] + [y];
      FirstIndexPrefix(s[1..], y, x);
    }
  }

  /** `[...new Set(s)]`: each value once, in the order of its first occurrence. */
  function Distinct<T(==,!new)>(s: seq<T>): (r: seq<T>)
    ensures forall x :: x in r <==> x in s
    ensures forall i, j :: 0 <= i < j < |r| ==> r[i] != r[j]
  {
    if s == [] then []
    else
      var r := Distinct(s[..|s| - 1]);
      assert s == s[..|s| - 1] + [s[|s| - 1]];
      if s[|s| - 1] in r then r else r + [s[|s| - 1]]
  }

  /** The values come out in the order in which each first occurs in `s`. */
  lemma {:induction false} DistinctFirstOccurrence<T(!new)>(s: seq<T>)
    ensures forall i, j :: 0 <= i < j < |Distinct(s)| ==>
              FirstIndex(s, Distinct(s)[i]) < FirstIndex(s, Distinct(s)[j])
  {
    if s != [] {
      var init, last := s[..|s| - 1], s[|s| - 1];
      var r := Distinct(init);
      var d := Distinct(s);
      assert s == init + [last];
      DistinctFirstOccurrence(init);
      forall i, j | 0 <= i < j < |d|
        ensures FirstIndex(s, d[i]) < FirstIndex(s, d[j])
      {
        assert d[i] == r[i] && r[i] in r;
        FirstIndexPrefix(init, last, r[i]);
        if j < |r| {
          assert d[j] == r[j] && r[j] in r;
          FirstIndexPrefix(init, last, r[j]);
          assert FirstIndex(init, r[i]) < FirstIndex(init, r[j]);
          assert FirstIndex(s, r[i]) == FirstIndex(init, r[i]);
          assert FirstIndex(s, r[j]) == FirstIndex(init, r[j]);
        } else {
          assert d == r + [last] && d[j] == last && last !in init;
          var k := FirstIndex(s, last);
          assert forall m :: 0 <= m < |init| ==> s[m] == init[m];
          assert k == |s| - 1;
          assert FirstIndex(s, r[i]) == FirstIndex(init, r[i]) < |init|;
        }
      }
    }
  }

  function HasSubject(subject: string): Task -> bool {
    (t: Task) => t.subject == subject
  }

  /** One line of the subject breakdown. */
  datatype SubjectStat = SubjectStat(subject: string, completed: nat, total: nat, percent: int)

  /** The statistics of one subject that some task has. */
  function StatOf(tasks: seq<Task>, subject: string): (e: SubjectStat)
    requires subject in Subjects(tasks)
    ensures e.subject == subject
    ensures e.total == |Filter(tasks, HasSubject(subject))| >= 1
    ensures e.completed == |Filter(Filter(tasks, HasSubject(subject)), IsCompleted)| <= e.total
    ensures 0 <= e.percent <= 100
    ensures 2 * e.total * e.percent - e.total <= 200 * e.completed < 2 * e.total * e.percent + e.total
  {
    var i :| 0 <= i < |tasks| && Subjects(tasks)[i] == subject;
    assert tasks[i] in Filter(tasks, HasSubject(subject));
    var mine := Filter(tasks, HasSubject(subject));
    var done := Filter(mine, IsCompleted);
    SubjectStat(subject, |done|, |mine|, RoundPercent(|done|, |mine|))
  }

  /** updateSubjectBreakdown: one line per distinct subject, in first-occurrence order. */
  function SubjectBreakdown(tasks: seq<Task>): (r: seq<SubjectStat>)
    ensures |r| == |Distinct(Subjects(tasks))|
    ensures forall i :: 0 <= i < |r| ==> r[i] == StatOf(tasks, Distinct(Subjects(tasks))[i])
  {
    var d := Distinct(Subjects(tasks));
    seq(|d|, i requires 0 <= i < |d| => StatOf(tasks, d[i]))
  }

  /** The subjects listed are exactly the subjects of the tasks, each once, and
      the "No subjects" message shows exactly when there are no tasks. */
  lemma SubjectBreakdownSubjects(tasks: seq<Task>)
    ensures var r := SubjectBreakdown(tasks);
            (forall i :: 0 <= i < |r| ==> r[i].subject in Subjects(tasks)) &&
            (forall t :: t in tasks ==> exists i :: 0 <= i < |r| && r[i].subject == t.subject) &&
            (forall i, j :: 0 <= i < j < |r| ==> r[i].subject != r[j].subject) &&
            (r == [] <==> tasks == [])
  {
    BreakdownLinesAreSubjects(tasks);
    BreakdownCoversSubjects(tasks);
    BreakdownLinesDistinct(tasks);
    if tasks != [] {
      assert Subjects(tasks)[0] in Distinct(Subjects(tasks));
    }
  }

  lemma BreakdownLinesAreSubjects(tasks: seq<Task>)
    ensures forall i :: 0 <= i < |SubjectBreakdown(tasks)| ==>
              SubjectBreakdown(tasks)[i].subject in Subjects(tasks)
  {
    var r := SubjectBreakdown(tasks);
    var d := Distinct(Subjects(tasks));
    forall i | 0 <= i < |r|
      ensures r[i].subject in Subjects(tasks)
    {
      assert r[i].subject == d[i] && d[i] in d;
    }
  }

  lemma BreakdownCoversSubjects(tasks: seq<Task>)
    ensures forall t :: t in tasks ==>
              exists i :: 0 <= i < |SubjectBreakdown(tasks)| && SubjectBreakdown(tasks)[i].subject == t.subject
  {
    var r := SubjectBreakdown(tasks);
    var d := Distinct(Subjects(tasks));
    forall t | t in tasks
      ensures exists i :: 0 <= i < |r| && r[i].subject == t.subject
    {
      assert t.subject in d by {
        var k :| 0 <= k < |tasks| && tasks[k] == t;
        assert Subjects(tasks)[k] == t.subject;
      }
      var i :| 0 <= i < |d| && d[i] == t.subject;
      assert r[i].subject == t.subject;
    }
  }

  lemma BreakdownLinesDistinct(tasks: seq<Task>)
    ensures forall i, j :: 0 <= i < j < |SubjectBreakdown(tasks)| ==>
              SubjectBreakdown(tasks)[i].subject != SubjectBreakdown(tasks)[j].subject
  {
    var r := SubjectBreakdown(tasks);
    var d := Distinct(Subjects(tasks));
    forall i, j | 0 <= i < j < |r|
      ensures r[i].subject != r[j].subject
    {
      assert r[i].subject == d[i] && r[j].subject == d[j];
    }
  }

  /** The total minutes of `ts` (the reduce over estimatedTime). */
  function SumMinutes(ts: seq<Task>): nat {
    if ts == [] then 0 else ts[0].estimatedTime + SumMinutes(ts[1..])
  }

  /** The number of tasks of `tasks` with subject in `subjects`, counted subject by subject. */
  function TotalOver(tasks: seq<Task>, subjects: seq<string>): nat {
    if subjects == [] then 0
    else |Filter(tasks, HasSubject(subjects[0]))| + TotalOver(tasks, subjects[1..])
  }

  lemma {:induction false} TotalOverAppend(tasks: seq<Task>, a: seq<string>, b: seq<string>)
    ensures TotalOver(tasks, a + b) == TotalOver(tasks, a) + TotalOver(tasks, b)
  {
    if a != [] {
      assert (a + b)[1..] == a[1..] + b;
      TotalOverAppend(tasks, a[1..], b);
    } else {
      assert a + b == b;
    }
  }

  lemma {:induction false} TotalOverSplit(init: seq<Task>, t: Task, subjects: seq<string>)
    requires forall i, j :: 0 <= i < j < |subjects| ==> subjects[i] != subjects[j]
    ensures TotalOver(init + [t], subjects) ==
            TotalOver(init, subjects) + (if t.subject in subjects then 1 else 0)
  {
    if subjects != [] {
      var s0, rest := subjects[0], subjects[1..];
      assert |Filter(init + [t], HasSubject(s0))| ==
             |Filter(init, HasSubject(s0))| + (if t.subject == s0 then 1 else 0) by {
        FilterAppend(init, [t], HasSubject(s0));
        assert Filter([t], HasSubject(s0)) == if t.subject == s0 then [t] else [] by {
          assert [t][1..] == [];
        }
      }
      assert forall i, j :: 0 <= i < j < |rest| ==> rest[i] != rest[j] by {
        assert forall j :: 0 <= j < |rest| ==> rest[j] == subjects[j + 1];
      }
      TotalOverSplit(init, t, rest);
      assert t.subject in subjects <==> t.subject == s0 || t.subject in rest;
      if t.subject == s0 {
        assert s0 !in rest by {
          assert forall j :: 0 <= j < |rest| ==> rest[j] == subjects[j + 1];
        }
      }
    }
  }

  lemma DistinctSnoc<T(!new)>(s: seq<T>, x: T)
    ensures Distinct(s + [x]) == if x in Distinct(s) then Distinct(s) else Distinct(s) + [x]
  {
    assert (s + [x])[..|s|] == s;
  }

  lemma SubjectsSnoc(init: seq<Task>, t: Task)
    ensures Subjects(init + [t]) == Subjects(init) + [t.subject]
  {
  }

  /** No task of `init` has a subject that is not among its subjects. */
  lemma NoTaskWithNewSubject(init: seq<Task>, subject: string)
    requires subject !in Subjects(init)
    ensures Filter(init, HasSubject(subject)) == []
  {
    forall u | u in init
      ensures !HasSubject(subject)(u)
    {
      var k :| 0 <= k < |init| && init[k] == u;
      assert Subjects(init)[k] == u.subject;
    }
  }

  /** Every task is counted under exactly one line of the breakdown: the line
      totals add up to the number of tasks. */
  lemma {:induction false} BreakdownCoversAll(tasks: seq<Task>)
    ensures TotalOver(tasks, Distinct(Subjects(tasks))) == |tasks|
  {
    if tasks != [] {
      var init, t := tasks[..|tasks| - 1], tasks[|tasks| - 1];
      assert tasks == init + [t];
      var d := Distinct(Subjects(init));
      var all := Distinct(Subjects(tasks));
      assert all == if t.subject in d then d else d + [t.subject] by {
        SubjectsSnoc(init, t);
        DistinctSnoc(Subjects(init), t.subject);
      }
      assert TotalOver(tasks, all) == TotalOver(init, all) + 1 by {
        assert t.subject in all;
        TotalOverSplit(init, t, all);
      }
      assert TotalOver(init, all) == |init| by {
        BreakdownCoversAll(init);
        if t.subject !in d {
          TotalOverAppend(init, d, [t.subject]);
          NoTaskWithNewSubject(init, t.subject);
          assert TotalOver(init, [t.subject]) == 0;
        }
      }
    }
  }

  // ---------------------------------------------------------------------------
  // The seven-day time chart.

  /** A completed task whose due date formats to the same day key as `day`. */
  function CompletedOn(day: CivilDate): Task -> bool {
    (t: Task) => t.completed && Query.DueOn(t, day)
  }

  /** The minutes charted for `day`. */
  function CompletedMinutesOn(tasks: seq<Task>, day: CivilDate): nat {
    SumMinutes(Filter(tasks, CompletedOn(day)))
  }

  /** For well-formed dates the day's bar sums exactly the completed tasks due that day. */
  lemma CompletedOnIff(tasks: seq<Task>, day: CivilDate)
    requires day.Valid()
    requires forall t :: t in tasks ==> t.dueDate.Valid()
    ensures forall t :: t in Filter(tasks, CompletedOn(day)) <==>
                        t in tasks && t.completed && t.dueDate.date == day
  {
    forall t | t in tasks {
      SameDayKey(t.dueDate.date, day);
    }
  }

  /** The bar height in pixels: the minutes capped at 200, or 20 for an empty day. */
  function BarHeight(totalTime: nat): (h: nat)
    ensures 1 <= h <= 200
    ensures totalTime == 0 ==> h == 20
    ensures totalTime > 0 ==> h == if totalTime < 200 then totalTime else 200
  {
    if totalTime > 0 then (if totalTime < 200 then totalTime else 200) else 20
  }

  /** `days` are the seven days ending on `today`, oldest first. */
  predicate ChartDays(today: CivilDate, days: seq<CivilDate>) {
    |days| == 7 &&
    forall k :: 0 <= k < 7 ==> days[k].Valid() && DayNumber(days[k]) == DayNumber(today) - (6 - k)
  }

  /** updateTimeChart's first loop: the last seven days ending today, oldest first. */
  method LastSevenDays(today: CivilDate) returns (days: seq<CivilDate>)
    requires today.Valid()
    ensures ChartDays(today, days)
  {
    days := [];
    var i := 6;
    while i >= 0
      invariant -1 <= i <= 6
      invariant |days| == 6 - i
      invariant forall k :: 0 <= k < |days| ==>
                  days[k].Valid() && DayNumber(days[k]) == DayNumber(today) - (6 - k)
    {
      var day := DaysBack(today, i);
      days := days + [day];
      i := i - 1;
    }
  }

  /** updateTimeChart: the minutes of completed work due on each of the last
      seven days ending today, oldest first. */
  method TimeChart(tasks: seq<Task>, today: CivilDate) returns (days: seq<CivilDate>, minutes: seq<nat>)
    requires today.Valid()
    ensures ChartDays(today, days) && |minutes| == 7
    ensures forall k :: 0 <= k < 7 ==> minutes[k] == CompletedMinutesOn(tasks, days[k])
  {
    days := LastSevenDays(today);
    minutes := seq(7, k requires 0 <= k < 7 => CompletedMinutesOn(tasks, days[k]));
  }

  /** The seven chart days are consecutive and the last one is today. */
  lemma TimeChartDays(today: CivilDate, days: seq<CivilDate>)
    requires today.Valid()
    requires ChartDays(today, days)
    ensures days[6] == today
    ensures forall k :: 0 <= k < 6 ==> Before(days[k], days[k + 1])
  {
    DayNumberOrder(days[6], today);
    forall k | 0 <= k < 6
      ensures Before(days[k], days[k + 1])
    {
      DayNumberOrder(days[k], days[k + 1]);
    }
  }
}
