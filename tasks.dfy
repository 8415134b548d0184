/**
 * The task record the planner stores, and the order-preserving selections
 * (Array.prototype.filter, findIndex) every other component builds on.
 */
module Tasks {
  import opened Dates

  datatype Priority = High | Medium | Low

  /** The priorityOrder table of both comparators: high 0, medium 1, low 2. */
  function Rank(p: Priority): (r: int)
    ensures 0 <= r <= 2
    ensures r == 0 <==> p == High
    ensures r == 2 <==> p == Low
  {
    match p
    case High => 0
    case Medium => 1
    case Low => 2
  }

  /** What the task form supplies, both when a task is added and when it is edited. */
  datatype TaskFields = TaskFields(
    name: string,
    subject: string,
    dueDate: DateTime,
    priority: Priority,
    estimatedTime: nat,
    notes: string)

  /** One stored task; `createdAt` is the creation instant in local milliseconds. */
  datatype Task = Task(
    id: string,
    name: string,
    subject: string,
    dueDate: DateTime,
    priority: Priority,
    estimatedTime: nat,
    notes: string,
    completed: bool,
    createdAt: int)
  {
    /** The editable part of the record. */
    function Fields(): TaskFields {
      TaskFields(name, subject, dueDate, priority, estimatedTime, notes)
    }
  }

  predicate IsPending(t: Task) {
    !t.completed
  }

  predicate IsCompleted(t: Task) {
    t.completed
  }

  /** Array.prototype.filter: the elements satisfying `p`, in their original order. */
  function Filter<T(!new)>(s: seq<T>, p: T -> bool): (r: seq<T>)
    ensures |r| <= |s|
    ensures forall i :: 0 <= i < |r| ==> p(r[i])
    ensures forall x :: x in r <==> x in s && p(x)
  {
    if s == [] then []
    else
      var rest := Filter(s[1..], p);
      assert s == [s[0]] + s[1..];
      if p(s[0]) then [s[0]] + rest else rest
  }

  /** A kept element is kept as often as it occurs in the input. */
  lemma {:induction false} FilterOccurrences<T(!new)>(s: seq<T>, p: T -> bool, x: T)
    ensures multiset(Filter(s, p))[x] == if p(x) then multiset(s)[x] else 0
  {
    if s != [] {
      FilterOccurrences(s[1..], p, x);
      assert s == [s[0]] + s[1..];
    }
  }

  /** Filtering a concatenation filters each part, keeping the parts in order. */
  lemma {:induction false} FilterAppend<T(!new)>(s: seq<T>, t: seq<T>, p: T -> bool)
    ensures Filter(s + t, p) == Filter(s, p) + Filter(t, p)
  {
    if s == [] {
      assert s + t == t;
    } else {
      assert (s + t)[1..] == s[1..] + t;
      FilterAppend(s[1..], t, p);
    }
  }

  /** updateTaskCounts: the pending and the completed tasks split the list. */
  lemma {:induction false} CountsPartition(tasks: seq<Task>)
    ensures |Filter(tasks, IsPending)| + |Filter(tasks, IsCompleted)| == |tasks|
  {
    if tasks != [] {
      CountsPartition(tasks[1..]);
    }
  }

  /** Array.prototype.findIndex on the id: the first position holding `id`, or -1. */
  function IndexOf(tasks: seq<Task>, id: string): (i: int)
    ensures -1 <= i < |tasks|
    ensures i == -1 <==> forall j :: 0 <= j < |tasks| ==> tasks[j].id != id
    ensures i >= 0 ==> tasks[i].id == id && forall j :: 0 <= j < i ==> tasks[j].id != id
  {
    if tasks == [] then -1
    else if tasks[0].id == id then 0
    else
      var i := IndexOf(tasks[1..], id);
      if i == -1 then -1 else i + 1
  }

  /** No two stored tasks share an id. */
  predicate UniqueIds(tasks: seq<Task>) {
    forall i, j :: 0 <= i < j < |tasks| ==> tasks[i].id != tasks[j].id
  }
}
