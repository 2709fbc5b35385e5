/**
 * The reminder evaluator: on each tick, every habit task that is watched and overdue
 * gets its `lastNotifiedAt` stamped with the tick's time. Time is the parameter `now`;
 * the host's notification permission is the boolean `granted`; showing the notification
 * itself is not part of the model.
 */
module Reminders {
  import opened Wrappers
  import opened Types
  import Logs

  const MINUTE_MS: int := 60 * 1000
  const HOUR_MS: int := 60 * 60 * 1000
  const DAY_MS: int := 24 * 60 * 60 * 1000
  const WEEK_MS: int := 7 * 24 * 60 * 60 * 1000
  const MONTH_MS: int := 30 * 24 * 60 * 60 * 1000
  const YEAR_MS: int := 365 * 24 * 60 * 60 * 1000

  /** Milliseconds per unit; a month is 30 days and a year 365. */
  function UnitMs(u: FrequencyUnit): (ms: int)
    ensures ms > 0 && ms % MINUTE_MS == 0
  {
    match u
    case Minute => MINUTE_MS
    case Hour => HOUR_MS
    case Day => DAY_MS
    case Week => WEEK_MS
    case Month => MONTH_MS
    case Year => YEAR_MS
  }

  /** Each unit is a whole number of the smaller ones, and the table increases. */
  lemma UnitTable()
    ensures UnitMs(Minute) == 60000
    ensures UnitMs(Hour) == 60 * UnitMs(Minute)
    ensures UnitMs(Day) == 24 * UnitMs(Hour)
    ensures UnitMs(Week) == 7 * UnitMs(Day)
    ensures UnitMs(Month) == 30 * UnitMs(Day)
    ensures UnitMs(Year) == 365 * UnitMs(Day)
    ensures UnitMs(Minute) < UnitMs(Hour) < UnitMs(Day) < UnitMs(Week) < UnitMs(Month) < UnitMs(Year)
  {
  }

  /** `frequency?.value || 1`: a missing or zero value reads as 1; any other value is kept. */
  function EffectiveValue(f: Option<Frequency>): (v: int)
    ensures v != 0
    ensures f.Some? && f.value.value != 0 ==> v == f.value.value
    ensures f.None? || f.value.value == 0 ==> v == 1
  {
    match f
    case None => 1
    case Some(fr) => if fr.value == 0 then 1 else fr.value
  }

  /** `frequency?.unit || 'day'`. */
  function EffectiveUnit(f: Option<Frequency>): (u: FrequencyUnit)
    ensures f.Some? ==> u == f.value.unit
    ensures f.None? ==> u == Day
  {
    match f
    case None => Day
    case Some(fr) => fr.unit
  }

  /** The reminder period of a task in milliseconds. */
  function FreqMs(f: Option<Frequency>): (ms: int)
    ensures ms == EffectiveValue(f) * UnitMs(EffectiveUnit(f))
    ensures ms != 0 && (ms > 0 <==> EffectiveValue(f) > 0)
    ensures f.None? ==> ms == DAY_MS
  {
    EffectiveValue(f) * UnitMs(EffectiveUnit(f))
  }

  /**
   * Time since the last reminder; `None` stands for an infinite gap. A stored 0 is
   * falsy and therefore counts as "never notified".
   */
  function SinceNotified(task: Task, now: int): (gap: Option<int>)
    ensures gap.None? <==> task.lastNotifiedAt.None? || task.lastNotifiedAt.value == 0
    ensures gap.Some? ==> gap.value == now - task.lastNotifiedAt.value
  {
    match task.lastNotifiedAt
    case None => None
    case Some(at) => if at == 0 then None else Some(now - at)
  }

  /** The tasks the evaluator looks at: habits with reminders on that are not paused. */
  predicate Watched(task: Task) {
    task.taskType == Habit && task.notificationEnabled && !task.isCompleted
  }

  /** Both clocks have run a full period: since the last activity and since the last reminder. */
  predicate Due(task: Task, logs: seq<TaskLog>, now: int) {
    var freq := FreqMs(task.frequency);
    var gap := SinceNotified(task, now);
    now - Logs.LastActivity(task, logs) >= freq && (gap.None? || gap.value >= freq)
  }

  predicate Fires(task: Task, logs: seq<TaskLog>, now: int) {
    Watched(task) && Due(task, logs, now)
  }

  /** A task after it has fired at `now`. */
  function Notified(task: Task, now: int): Task {
    task.(lastNotifiedAt := Some(now))
  }

  /** The check of one task: only `lastNotifiedAt` can change, and only by firing. */
  function CheckTask(task: Task, logs: seq<TaskLog>, now: int): (r: Task)
    ensures r == task.(lastNotifiedAt := r.lastNotifiedAt)
    ensures Fires(task, logs, now) ==> r.lastNotifiedAt == Some(now)
    ensures !Fires(task, logs, now) ==> r == task
  {
    if Fires(task, logs, now) then Notified(task, now) else task
  }

  /**
   * The firing condition spelled out over the task's own fields: a habit with reminders
   * on, not paused, whose last activity and last reminder (a missing or zero stamp being
   * an infinite gap) both lie at least one period in the past.
   */
  lemma FireCondition(task: Task, logs: seq<TaskLog>, now: int)
    ensures Fires(task, logs, now) <==>
      && task.taskType == Habit && task.notificationEnabled && !task.isCompleted
      && now - Logs.LastActivity(task, logs) >= FreqMs(task.frequency)
      && (|| task.lastNotifiedAt.None?
          || task.lastNotifiedAt.value == 0
          || now - task.lastNotifiedAt.value >= FreqMs(task.frequency))
  {
  }

  /** `currentTasks.map(...)`: every task checked against the same logs and time. */
  function CheckAll(tasks: seq<Task>, logs: seq<TaskLog>, now: int): (r: seq<Task>)
    ensures |r| == |tasks|
    ensures forall i :: 0 <= i < |tasks| ==> r[i] == CheckTask(tasks[i], logs, now)
  {
    seq(|tasks|, i requires 0 <= i < |tasks| => CheckTask(tasks[i], logs, now))
  }

  /**
   * One tick of the reminder check. With the global switch off or without permission the
   * list is returned as is; otherwise each firing task has `lastNotifiedAt` set to `now`
   * and nothing else changes. When nothing fires the original list is returned.
   */
  function CheckReminders(now: int, globalOn: bool, granted: bool, tasks: seq<Task>, logs: seq<TaskLog>): (r: seq<Task>)
    ensures |r| == |tasks|
    ensures !globalOn || !granted ==> r == tasks
    ensures (forall i :: 0 <= i < |tasks| ==> !Fires(tasks[i], logs, now)) ==> r == tasks
    ensures forall i :: 0 <= i < |tasks| ==> r[i] == tasks[i].(lastNotifiedAt := r[i].lastNotifiedAt)
    ensures forall i :: 0 <= i < |tasks| && !Watched(tasks[i]) ==> r[i] == tasks[i]
    ensures forall i :: 0 <= i < |tasks| ==>
              (if globalOn && granted && Fires(tasks[i], logs, now)
               then r[i].lastNotifiedAt == Some(now)
               else r[i] == tasks[i])
  {
    if !globalOn || !granted then tasks
    else
      var next := CheckAll(tasks, logs, now);
      var hasUpdates := exists i :: 0 <= i < |tasks| && Fires(tasks[i], logs, now);
      if hasUpdates then next
      else
        assert next == tasks;
        tasks
  }

  /** Stamping `lastNotifiedAt` does not move the task's last activity. */
  lemma NotifiedKeepsActivity(task: Task, logs: seq<TaskLog>, now: int)
    ensures Logs.LastActivity(Notified(task, now), logs) == Logs.LastActivity(task, logs)
  {
    assert Notified(task, now).id == task.id;
  }

  /**
   * No repeat: once a task has fired at a non-zero `now`, it does not fire again before a
   * full period has passed since that reminder.
   */
  lemma NoRepeatWithinPeriod(task: Task, logs: seq<TaskLog>, now: int, later: int)
    requires Fires(task, logs, now) && now != 0
    requires later < now + FreqMs(task.frequency)
    ensures !Fires(Notified(task, now), logs, later)
    ensures CheckTask(Notified(task, now), logs, later) == Notified(task, now)
  {
    NotifiedKeepsActivity(task, logs, now);
  }

  /** The same at the level of whole ticks: a second tick within the period changes nothing it fired. */
  lemma TickNoRepeat(now: int, later: int, tasks: seq<Task>, logs: seq<TaskLog>, i: int)
    requires now != 0 && 0 <= i < |tasks|
    requires Fires(tasks[i], logs, now)
    requires later < now + FreqMs(tasks[i].frequency)
    ensures CheckReminders(later, true, true, CheckReminders(now, true, true, tasks, logs), logs)[i]
            == CheckReminders(now, true, true, tasks, logs)[i]
  {
    var first := CheckReminders(now, true, true, tasks, logs);
    assert first[i] == Notified(tasks[i], now);
    NoRepeatWithinPeriod(tasks[i], logs, now, later);
  }

  /** A reminder fired at time 0 is stored as a falsy 0 and does not hold the next one back. */
  lemma FireAtZeroIsForgotten(task: Task, later: int)
    ensures SinceNotified(Notified(task, 0), later) == None
  {
  }

  /** Once due, a task stays due as time goes on (until activity or a reminder resets a clock). */
  lemma DueIsMonotonic(task: Task, logs: seq<TaskLog>, now: int, later: int)
    requires Due(task, logs, now) && now <= later
    ensures Due(task, logs, later)
  {
  }

  /** A time at which the task is certainly due. */
  function DueBy(task: Task, logs: seq<TaskLog>): (t: int)
    ensures Due(task, logs, t)
  {
    var freq := FreqMs(task.frequency);
    var period := if freq >= 0 then freq else -freq;
    var last := Logs.LastActivity(task, logs);
    var base := match task.lastNotifiedAt
      case Some(at) => if at > last then at else last
      case None => last;
    base + period
  }

  /**
   * A negative frequency value, which the task form's `parseInt(...) || 1` lets through,
   * gives a negative period: the task is then due at every tick that is not earlier than
   * its last activity and its last reminder.
   */
  lemma NegativeFrequencyAlwaysDue(task: Task, logs: seq<TaskLog>, now: int)
    requires task.frequency.Some? && task.frequency.value.value < 0
    requires now >= Logs.LastActivity(task, logs)
    requires task.lastNotifiedAt.None? || now >= task.lastNotifiedAt.value
    ensures Due(task, logs, now)
  {
  }

  /**
   * A daily habit created at `t0` with no logs fires at `t0 + 25h`, and a tick ten
   * seconds later leaves it alone.
   */
  lemma DailyHabitScenario(task: Task, logs: seq<TaskLog>, t0: int)
    requires t0 >= 0
    requires task.taskType == Habit && task.frequency == Some(Frequency(1, Day))
    requires task.createdAt == t0 && task.notificationEnabled && !task.isCompleted
    requires task.lastNotifiedAt.None?
    requires forall l :: l in logs ==> l.taskId != task.id
    ensures CheckReminders(t0 + 25 * HOUR_MS, true, true, [task], logs) == [Notified(task, t0 + 25 * HOUR_MS)]
    ensures CheckReminders(t0 + 25 * HOUR_MS + 10000, true, true, [Notified(task, t0 + 25 * HOUR_MS)], logs)
            == [Notified(task, t0 + 25 * HOUR_MS)]
  {
    var now := t0 + 25 * HOUR_MS;
    assert Fires(task, logs, now);
    var first := CheckReminders(now, true, true, [task], logs);
    assert first[0] == Notified(task, now);
    NoRepeatWithinPeriod(task, logs, now, now + 10000);
    var second := CheckReminders(now + 10000, true, true, first, logs);
    assert second[0] == first[0];
  }
}
