/**
 * The task store: the module-level `tasks` array and `settings` object of the
 * planner, with the operations that change them in place (add, toggle, edit,
 * delete, save settings, import, clear). Writing the store to localStorage after
 * each change is not modelled.
 */
module Store {
  import opened Wrappers
  import opened Tasks

  datatype Settings = Settings(enableNotifications: bool, notificationTime: int)

  /** The settings used when none are stored, and after clearing all data. */
  const DEFAULT_SETTINGS := Settings(true, 24)

  /** The parsed content of an import file; either member may be missing. */
  datatype Payload = Payload(tasks: Option<seq<Task>>, settings: Option<Settings>)

  /** What exporting writes: the whole task list and the settings. */
  function Snapshot(tasks: seq<Task>, settings: Settings): Payload {
    Payload(Some(tasks), Some(settings))
  }

  /** The store after importing `p` into (`tasks`, `settings`): replaced only when
      the payload carries both members, otherwise left as it was. */
  function ApplyImport(p: Payload, tasks: seq<Task>, settings: Settings): (r: (seq<Task>, Settings))
    ensures p.tasks.Some? && p.settings.Some? ==> r == (p.tasks.value, p.settings.value)
    ensures p.tasks.None? || p.settings.None? ==> r == (tasks, settings)
  {
    if p.tasks.Some? && p.settings.Some? then (p.tasks.value, p.settings.value)
    else (tasks, settings)
  }

  /** Importing an export restores exactly the exported store, whatever was there. */
  lemma ExportImportRoundTrip(tasks: seq<Task>, settings: Settings, current: seq<Task>, currentSettings: Settings)
    ensures ApplyImport(Snapshot(tasks, settings), current, currentSettings) == (tasks, settings)
  {
  }

  /** The record addTask builds from the form. */
  function NewTask(id: string, f: TaskFields, now: int): (t: Task)
    ensures t.id == id && t.Fields() == f
    ensures !t.completed && t.createdAt == now
  {
    Task(id, f.name, f.subject, f.dueDate, f.priority, f.estimatedTime, f.notes, false, now)
  }

  /** The record after the edit handler overwrote its editable fields. */
  function WithFields(t: Task, f: TaskFields): (u: Task)
    ensures u.Fields() == f
    ensures u.id == t.id && u.completed == t.completed && u.createdAt == t.createdAt
  {
    t.(name := f.name, subject := f.subject, dueDate := f.dueDate, priority := f.priority,
       estimatedTime := f.estimatedTime, notes := f.notes)
  }

  /** The record after toggleTaskCompletion flipped it. */
  function Toggled(t: Task): (u: Task)
    ensures u.completed == !t.completed
    ensures u.Fields() == t.Fields() && u.id == t.id && u.createdAt == t.createdAt
  {
    t.(completed := !t.completed)
  }

  /** The list without position `i`: what splice(i, 1) leaves. */
  function RemoveAt(s: seq<Task>, i: nat): (r: seq<Task>)
    requires i < |s|
    ensures |r| == |s| - 1
    ensures forall j :: 0 <= j < i ==> r[j] == s[j]
    ensures forall j :: i <= j < |r| ==> r[j] == s[j + 1]
    ensures multiset(r) + multiset{s[i]} == multiset(s)
  {
    assert s == s[..i] + [s[i]] + s[i + 1..];
    s[..i] + s[i + 1..]
  }

  class Planner {
    var tasks: seq<Task>
    var settings: Settings

    /** Start-up: the stored task list and settings, or `[]` and the defaults. */
    constructor (storedTasks: Option<seq<Task>>, storedSettings: Option<Settings>)
      ensures tasks == if storedTasks.Some? then storedTasks.value else []
      ensures settings == if storedSettings.Some? then storedSettings.value else DEFAULT_SETTINGS
    {
      tasks := if storedTasks.Some? then storedTasks.value else [];
      settings := if storedSettings.Some? then storedSettings.value else DEFAULT_SETTINGS;
    }

    /** addTask: appends a new, not yet completed task created at `now`. */
    method AddTask(id: string, f: TaskFields, now: int) returns (t: Task)
      modifies this
      ensures t.id == id && t.Fields() == f && !t.completed && t.createdAt == now
      ensures tasks == old(tasks) + [t]
      ensures settings == old(settings)
      ensures UniqueIds(old(tasks)) && (forall u :: u in old(tasks) ==> u.id != id) ==> UniqueIds(tasks)
    {
      t := NewTask(id, f, now);
      tasks := tasks + [t];
    }

    /** toggleTaskCompletion: flips `completed` of the first task with `id`;
        an unknown id changes nothing. Returns the task as it now is. */
    method ToggleCompletion(id: string) returns (r: Option<Task>)
      modifies this
      ensures var i := IndexOf(old(tasks), id);
              if i == -1 then tasks == old(tasks) && r == None
              else tasks == old(tasks)[i := Toggled(old(tasks)[i])] && r == Some(tasks[i])
      ensures settings == old(settings)
      ensures UniqueIds(old(tasks)) ==> UniqueIds(tasks)
    {
      var i := IndexOf(tasks, id);
      if i == -1 {
        r := None;
      } else {
        tasks := tasks[i := Toggled(tasks[i])];
        r := Some(tasks[i]);
      }
    }

    /** The edit form's update handler: overwrites the editable fields of the
        first task with `id`, keeping its id, completion state and creation time;
        an unknown id changes nothing. */
    method UpdateTask(id: string, f: TaskFields) returns (r: Option<Task>)
      modifies this
      ensures var i := IndexOf(old(tasks), id);
              if i == -1 then tasks == old(tasks) && r == None
              else tasks == old(tasks)[i := WithFields(old(tasks)[i], f)] && r == Some(tasks[i])
      ensures settings == old(settings)
      ensures UniqueIds(old(tasks)) ==> UniqueIds(tasks)
    {
      var i := IndexOf(tasks, id);
      if i == -1 {
        r := None;
      } else {
        tasks := tasks[i := WithFields(tasks[i], f)];
        r := Some(tasks[i]);
      }
    }

    /** deleteTask: once the user confirms, removes the first task with `id` and
        returns it; an unknown id or a declined confirmation changes nothing. */
    method DeleteTask(id: string, confirmed: bool) returns (r: Option<Task>)
      modifies this
      ensures var i := IndexOf(old(tasks), id);
              if !confirmed || i == -1 then tasks == old(tasks) && r == None
              else tasks == RemoveAt(old(tasks), i) && r == Some(old(tasks)[i])
      ensures settings == old(settings)
      ensures UniqueIds(old(tasks)) ==> UniqueIds(tasks)
      ensures UniqueIds(old(tasks)) && r.Some? ==> forall t :: t in tasks ==> t.id != id
    {
      r := None;
      if confirmed {
        var i := IndexOf(tasks, id);
        if i != -1 {
          r := Some(tasks[i]);
          tasks := RemoveAt(tasks, i);
        }
      }
    }

    /** saveSettings: replaces both settings. */
    method SaveSettings(enable: bool, hours: int)
      modifies this
      ensures settings == Settings(enable, hours)
      ensures tasks == old(tasks)
    {
      settings := Settings(enable, hours);
    }

    /** exportData: the document written out. */
    method Export() returns (p: Payload)
      ensures p == Snapshot(tasks, settings)
    {
      p := Snapshot(tasks, settings);
    }

    /** importData: replaces tasks and settings together, or rejects the payload
        and leaves both as they were. */
    method Import(p: Payload) returns (ok: bool)
      modifies this
      ensures ok <==> p.tasks.Some? && p.settings.Some?
      ensures (tasks, settings) == ApplyImport(p, old(tasks), old(settings))
    {
      ok := p.tasks.Some? && p.settings.Some?;
      if ok {
        tasks := p.tasks.value;
        settings := p.settings.value;
      }
    }

    /** clearData: once confirmed, empties the list and restores the default settings. */
    method ClearData(confirmed: bool)
      modifies this
      ensures confirmed ==> tasks == [] && settings == DEFAULT_SETTINGS
      ensures !confirmed ==> tasks == old(tasks) && settings == old(settings)
    {
      if confirmed {
        tasks := [];
        settings := DEFAULT_SETTINGS;
      }
    }
  }

  /** Toggling one task moves it between the pending and the completed count. */
  lemma ToggleCounts(s: seq<Task>, i: nat)
    requires i < |s|
    ensures |Filter(s[i := Toggled(s[i])], IsCompleted)| ==
            |Filter(s, IsCompleted)| + (if s[i].completed then -1 else 1)
    ensures |Filter(s[i := Toggled(s[i])], IsPending)| ==
            |Filter(s, IsPending)| + (if s[i].completed then 1 else -1)
  {
    var t := s[i := Toggled(s[i])];
    assert s == s[..i] + [s[i]] + s[i + 1..];
    assert t == s[..i] + [t[i]] + s[i + 1..];
    FilterAppend(s[..i] + [s[i]], s[i + 1..], IsCompleted);
    FilterAppend(s[..i], [s[i]], IsCompleted);
    FilterAppend(s[..i] + [t[i]], s[i + 1..], IsCompleted);
    FilterAppend(s[..i], [t[i]], IsCompleted);
    FilterAppend(s[..i] + [s[i]], s[i + 1..], IsPending);
    FilterAppend(s[..i], [s[i]], IsPending);
    FilterAppend(s[..i] + [t[i]], s[i + 1..], IsPending);
    FilterAppend(s[..i], [t[i]], IsPending);
  }
}
