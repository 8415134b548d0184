/**
 * The two task views: the filtered, searched and sorted task list (renderTasks)
 * and the tasks due on one calendar day, by priority (showTasksForDate).
 */
module Query {
  import opened Dates
  import opened Tasks
  import opened Sorting
  import Text

  datatype PriorityFilter = AnyPriority | OnlyPriority(priority: Priority)

  datatype StatusFilter = AnyStatus | PendingOnly | CompletedOnly

  predicate MatchesPriority(t: Task, f: PriorityFilter) {
    f.AnyPriority? || t.priority == f.priority
  }

  predicate MatchesStatus(t: Task, f: StatusFilter) {
    f.AnyStatus? || (f.PendingOnly? && !t.completed) || (f.CompletedOnly? && t.completed)
  }

  /** `query` is the search text already lower-cased; notes are searched only when non-empty. */
  predicate MatchesSearch(t: Task, query: string) {
    Text.Contains(Text.Lower(t.name), query) ||
    Text.Contains(Text.Lower(t.subject), query) ||
    (|t.notes| > 0 && Text.Contains(Text.Lower(t.notes), query))
  }

  predicate Matches(t: Task, pf: PriorityFilter, sf: StatusFilter, query: string) {
    MatchesPriority(t, pf) && MatchesStatus(t, sf) && MatchesSearch(t, query)
  }

  function ListFilter(pf: PriorityFilter, sf: StatusFilter, query: string): Task -> bool {
    t => Matches(t, pf, sf, query)
  }

  /** The comparator renderTasks sorts with: pending first, then earlier due date,
      then higher priority. */
  function CompareForList(a: Task, b: Task): int {
    if a.completed != b.completed then (if a.completed then 1 else -1)
    else if a.dueDate != b.dueDate then Instant(a.dueDate) - Instant(b.dueDate)
    else Rank(a.priority) - Rank(b.priority)
  }

  /** The same order as a lexicographic key. */
  function ListKey(t: Task): Key {
    Key(if t.completed then 1 else 0, Instant(t.dueDate), Rank(t.priority))
  }

  /** For well-formed due dates the comparator's sign is the key order. */
  lemma CompareForListAgrees(a: Task, b: Task)
    requires a.dueDate.Valid() && b.dueDate.Valid()
    ensures CompareForList(a, b) < 0 <==> KeyLt(ListKey(a), ListKey(b))
    ensures CompareForList(a, b) == 0 <==> ListKey(a) == ListKey(b)
    ensures CompareForList(a, b) > 0 <==> KeyLt(ListKey(b), ListKey(a))
  {
    InstantOrder(a.dueDate, b.dueDate);
  }

  /** renderTasks: the matching tasks, sorted stably by the list comparator. */
  function TaskList(tasks: seq<Task>, pf: PriorityFilter, sf: StatusFilter, search: string): seq<Task> {
    SortByKey(Filter(tasks, ListFilter(pf, sf, Text.Lower(search))), ListKey)
  }

  /** A task is listed exactly when it is stored and passes all three filters;
      it is listed as often as it is stored. */
  lemma TaskListSelects(tasks: seq<Task>, pf: PriorityFilter, sf: StatusFilter, search: string)
    ensures var r := TaskList(tasks, pf, sf, search);
            multiset(r) == multiset(Filter(tasks, ListFilter(pf, sf, Text.Lower(search)))) &&
            forall t :: t in r <==> t in tasks && Matches(t, pf, sf, Text.Lower(search))
  {
    var f := Filter(tasks, ListFilter(pf, sf, Text.Lower(search)));
    var r := TaskList(tasks, pf, sf, search);
    forall t
      ensures t in r <==> t in tasks && Matches(t, pf, sf, Text.Lower(search))
    {
      assert t in r <==> t in multiset(r);
      assert t in f <==> t in multiset(f);
    }
  }

  /** The list order: pending before completed; within one state by due instant;
      at one due instant by priority rank. */
  lemma TaskListOrdered(tasks: seq<Task>, pf: PriorityFilter, sf: StatusFilter, search: string)
    ensures var r := TaskList(tasks, pf, sf, search);
            forall i, j :: 0 <= i < j < |r| ==>
              (r[i].completed ==> r[j].completed) &&
              (r[i].completed == r[j].completed ==> Instant(r[i].dueDate) <= Instant(r[j].dueDate)) &&
              (r[i].completed == r[j].completed && Instant(r[i].dueDate) == Instant(r[j].dueDate) ==>
                 Rank(r[i].priority) <= Rank(r[j].priority))
  {
    var r := TaskList(tasks, pf, sf, search);
    forall i, j | 0 <= i < j < |r|
      ensures (r[i].completed ==> r[j].completed) &&
              (r[i].completed == r[j].completed ==> Instant(r[i].dueDate) <= Instant(r[j].dueDate)) &&
              (r[i].completed == r[j].completed && Instant(r[i].dueDate) == Instant(r[j].dueDate) ==>
                 Rank(r[i].priority) <= Rank(r[j].priority))
    {
      assert !KeyLt(ListKey(r[j]), ListKey(r[i]));
    }
  }

  /** Array.prototype.sort is stable: tasks that compare equal stay in store order. */
  lemma TaskListStable(tasks: seq<Task>, pf: PriorityFilter, sf: StatusFilter, search: string, k: Key)
    ensures WithKey(TaskList(tasks, pf, sf, search), ListKey, k) ==
            WithKey(Filter(tasks, ListFilter(pf, sf, Text.Lower(search))), ListKey, k)
  {
    SortStable(Filter(tasks, ListFilter(pf, sf, Text.Lower(search))), ListKey, k);
  }

  /** Any arrangement of the matching tasks that is sorted by the comparator and
      keeps tied tasks in store order is the list the view shows. */
  lemma TaskListUnique(tasks: seq<Task>, pf: PriorityFilter, sf: StatusFilter, search: string, out: seq<Task>)
    requires SortedBy(out, ListKey)
    requires forall k :: WithKey(out, ListKey, k) ==
                         WithKey(Filter(tasks, ListFilter(pf, sf, Text.Lower(search))), ListKey, k)
    ensures out == TaskList(tasks, pf, sf, search)
  {
    forall k
      ensures WithKey(out, ListKey, k) == WithKey(TaskList(tasks, pf, sf, search), ListKey, k)
    {
      TaskListStable(tasks, pf, sf, search, k);
    }
    SortedUnique(out, TaskList(tasks, pf, sf, search), ListKey);
  }

  /** With no filter and an empty search every stored task is listed. */
  lemma TaskListUnfiltered(tasks: seq<Task>)
    ensures multiset(TaskList(tasks, AnyPriority, AnyStatus, "")) == multiset(tasks)
  {
    var p := ListFilter(AnyPriority, AnyStatus, Text.Lower(""));
    forall t | t in tasks
      ensures p(t)
    {
      Text.ContainsEmpty(Text.Lower(t.name));
    }
    assert Filter(tasks, p) == tasks by {
      FilterKeepsAll(tasks, p);
    }
  }

  lemma {:induction false} FilterKeepsAll(s: seq<Task>, p: Task -> bool)
    requires forall t :: t in s ==> p(t)
    ensures Filter(s, p) == s
  {
    if s != [] {
      FilterKeepsAll(s[1..], p);
      assert s == [s[0]] + s[1..];
    }
  }

  // ---------------------------------------------------------------------------
  // The day view.

  /** formatDateForComparison of the due date equals that of `date`. */
  predicate DueOn(t: Task, date: CivilDate) {
    DayKey(t.dueDate.date) == DayKey(date)
  }

  function DayFilter(date: CivilDate): Task -> bool {
    t => DueOn(t, date)
  }

  /** The comparator showTasksForDate sorts with: priority rank only. */
  function CompareForDay(a: Task, b: Task): int {
    Rank(a.priority) - Rank(b.priority)
  }

  function DayKeyOrder(t: Task): Key {
    Key(0, 0, Rank(t.priority))
  }

  lemma CompareForDayAgrees(a: Task, b: Task)
    ensures CompareForDay(a, b) < 0 <==> KeyLt(DayKeyOrder(a), DayKeyOrder(b))
    ensures CompareForDay(a, b) == 0 <==> DayKeyOrder(a) == DayKeyOrder(b)
  {
  }

  /** showTasksForDate: the tasks due on `date`, sorted stably by priority. */
  function TasksForDate(tasks: seq<Task>, date: CivilDate): seq<Task> {
    SortByKey(Filter(tasks, DayFilter(date)), DayKeyOrder)
  }

  /** The sort is stable: tasks of equal priority keep their store order. */
  lemma TasksForDateStable(tasks: seq<Task>, date: CivilDate, k: Key)
    ensures WithKey(TasksForDate(tasks, date), DayKeyOrder, k) ==
            WithKey(Filter(tasks, DayFilter(date)), DayKeyOrder, k)
  {
    SortStable(Filter(tasks, DayFilter(date)), DayKeyOrder, k);
  }

  /** A task is shown for a day exactly when it is stored and due that day,
      high priority first. */
  lemma TasksForDateSelects(tasks: seq<Task>, date: CivilDate)
    requires date.Valid()
    requires forall t :: t in tasks ==> t.dueDate.Valid()
    ensures var r := TasksForDate(tasks, date);
            multiset(r) == multiset(Filter(tasks, DayFilter(date))) &&
            (forall t :: t in r <==> t in tasks && t.dueDate.date == date) &&
            (forall i, j :: 0 <= i < j < |r| ==> Rank(r[i].priority) <= Rank(r[j].priority))
  {
    var f := Filter(tasks, DayFilter(date));
    var r := TasksForDate(tasks, date);
    forall t
      ensures t in r <==> t in tasks && t.dueDate.date == date
    {
      assert t in r <==> t in multiset(r);
      assert t in f <==> t in multiset(f);
      if t in tasks {
        SameDayKey(t.dueDate.date, date);
      }
    }
    forall i, j | 0 <= i < j < |r|
      ensures Rank(r[i].priority) <= Rank(r[j].priority)
    {
      assert !KeyLt(DayKeyOrder(r[j]), DayKeyOrder(r[i]));
    }
  }
}
