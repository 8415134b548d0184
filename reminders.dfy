/**
 * The due-soon scan (checkForDueTasks): with notifications enabled, every
 * pending task due after now and at most `notificationTime` hours from now
 * produces one reminder naming it and the hours left, rounded.
 */
module Reminders {
  import opened Dates
  import opened Tasks
  import opened Store

  /** The notification text's two variable parts. */
  datatype Reminder = Reminder(name: string, hours: int)

  /** Math.round(diff / 3600000): the nearest whole number of hours, halves up. */
  function RoundHours(diff: int): (h: int)
    ensures 2 * MS_PER_HOUR * h - MS_PER_HOUR <= 2 * diff < 2 * MS_PER_HOUR * h + MS_PER_HOUR
  {
    (2 * diff + MS_PER_HOUR) / (2 * MS_PER_HOUR)
  }

  /** Pending and due in the window (now, now + hours]. */
  predicate DueWithin(t: Task, now: int, hours: int) {
    !t.completed && 0 < Instant(t.dueDate) - now <= hours * MS_PER_HOUR
  }

  function DueSoonFilter(now: int, hours: int): Task -> bool {
    (t: Task) => DueWithin(t, now, hours)
  }

  /** The tasks checkForDueTasks reports, in store order; none when disabled. */
  function DueSoon(tasks: seq<Task>, now: int, settings: Settings): seq<Task> {
    if settings.enableNotifications then Filter(tasks, DueSoonFilter(now, settings.notificationTime))
    else []
  }

  function ReminderFor(t: Task, now: int): Reminder {
    Reminder(t.name, RoundHours(Instant(t.dueDate) - now))
  }

  /** checkForDueTasks: one reminder per reported task, in store order. */
  function CheckForDueTasks(tasks: seq<Task>, now: int, settings: Settings): (r: seq<Reminder>)
    ensures |r| == |DueSoon(tasks, now, settings)|
    ensures !settings.enableNotifications ==> r == []
    ensures forall i :: 0 <= i < |r| ==> r[i] == ReminderFor(DueSoon(tasks, now, settings)[i], now)
  {
    var due := DueSoon(tasks, now, settings);
    seq(|due|, i requires 0 <= i < |due| => ReminderFor(due[i], now))
  }

  /** A task is reported exactly when notifications are on and it is stored,
      pending, and due within the look-ahead window. */
  lemma DueSoonIff(tasks: seq<Task>, now: int, settings: Settings, t: Task)
    ensures t in DueSoon(tasks, now, settings) <==>
            settings.enableNotifications && t in tasks && !t.completed &&
            now < Instant(t.dueDate) <= now + settings.notificationTime * MS_PER_HOUR
  {
  }

  /** The hours a reminder announces lie between 0 and the look-ahead. */
  lemma ReminderHoursBounded(tasks: seq<Task>, now: int, settings: Settings)
    ensures forall i :: 0 <= i < |CheckForDueTasks(tasks, now, settings)| ==>
              0 <= CheckForDueTasks(tasks, now, settings)[i].hours <= settings.notificationTime
  {
    var due := DueSoon(tasks, now, settings);
    forall i | 0 <= i < |due|
      ensures 0 <= ReminderFor(due[i], now).hours <= settings.notificationTime
    {
      assert DueWithin(due[i], now, settings.notificationTime);
      HoursWithin(Instant(due[i].dueDate) - now, settings.notificationTime);
    }
  }

  lemma HoursWithin(diff: int, hours: int)
    requires 0 < diff <= hours * MS_PER_HOUR
    ensures 0 <= RoundHours(diff) <= hours
  {
  }
}
