/** The records of the tracker: tasks, their activity logs, and the palettes a task draws from. */
module Types {
  import opened Wrappers

  /** The six reminder units; no other unit string can reach the model. */
  datatype FrequencyUnit = Minute | Hour | Day | Week | Month | Year

  /** `value` is whatever number the form produced, so zero and negatives are possible. */
  datatype Frequency = Frequency(value: int, unit: FrequencyUnit)

  datatype TaskType = Single | Habit

  /**
   * A task. Ids are strings and are compared as strings. `description`, `frequency` and
   * `lastNotifiedAt` are optional fields; timestamps are epoch milliseconds.
   */
  datatype Task = Task(
    id: string,
    title: string,
    description: Option<string>,
    taskType: TaskType,
    frequency: Option<Frequency>,
    needsTracking: bool,
    isCompleted: bool,
    createdAt: int,
    color: string,
    icon: string,
    notificationEnabled: bool,
    lastNotifiedAt: Option<int>)

  /** An activity log. It names its task only through `taskId`; nothing ties the two structurally. */
  datatype TaskLog = TaskLog(
    id: string,
    taskId: string,
    timestamp: int,
    count: int,
    durationSeconds: int,
    note: Option<string>)

  /** A log as the capture dialog hands it over, before the dashboard gives it an id. */
  datatype LogDraft = LogDraft(
    taskId: string,
    timestamp: int,
    count: int,
    durationSeconds: int,
    note: Option<string>)

  /** The task fields the task form submits; the dashboard supplies the rest. */
  datatype TaskDraft = TaskDraft(
    title: string,
    description: string,
    taskType: TaskType,
    needsTracking: bool,
    frequency: Frequency,
    color: string,
    icon: string)

  const ICONS: seq<string> := [
    "\U{1F4DD}", "\U{1F3CB}\U{FE0F}", "\U{1F48A}", "\U{1F4A7}", "\U{1F4DA}", "\U{1F9D8}",
    "\U{1F9F9}", "\U{1F4BB}", "\U{1F3A8}", "\U{1F373}", "\U{1F3C3}", "\U{1F4A4}"
  ]

  const COLORS: seq<string> := [
    "bg-red-500", "bg-orange-500", "bg-amber-500", "bg-green-500", "bg-emerald-500",
    "bg-teal-500", "bg-cyan-500", "bg-blue-500", "bg-indigo-500", "bg-violet-500",
    "bg-purple-500", "bg-fuchsia-500", "bg-pink-500", "bg-rose-500"
  ]

  /** The icon a new task starts with. */
  function DefaultIcon(): (icon: string)
    ensures icon in ICONS && icon == ICONS[0]
  {
    ICONS[0]
  }

  /** The colour a new task starts with. */
  function DefaultColor(): (color: string)
    ensures color in COLORS && color == COLORS[0]
  {
    COLORS[0]
  }

  /** The string spelling of a unit, as the unit selector's option values write it. */
  function UnitName(u: FrequencyUnit): string {
    match u
    case Minute => "minute"
    case Hour => "hour"
    case Day => "day"
    case Week => "week"
    case Month => "month"
    case Year => "year"
  }

  /** Reads a unit back from its spelling; any other string names no unit. */
  function ParseUnit(s: string): (r: Option<FrequencyUnit>)
    ensures r.Some? ==> UnitName(r.value) == s
  {
    if s == "minute" then Some(Minute)
    else if s == "hour" then Some(Hour)
    else if s == "day" then Some(Day)
    else if s == "week" then Some(Week)
    else if s == "month" then Some(Month)
    else if s == "year" then Some(Year)
    else None
  }

  lemma ParseUnitName(u: FrequencyUnit)
    ensures ParseUnit(UnitName(u)) == Some(u)
  {
  }

  /** No two tasks share an id. */
  predicate UniqueIds(tasks: seq<Task>) {
    forall i, j :: 0 <= i < j < |tasks| ==> tasks[i].id != tasks[j].id
  }

  /** The ids of a task list. */
  function TaskIds(tasks: seq<Task>): (ids: set<string>)
    ensures forall t :: t in tasks ==> t.id in ids
    ensures forall id :: id in ids ==> exists t :: t in tasks && t.id == id
  {
    set t | t in tasks :: t.id
  }

  /** A duration broken into hours, minutes and seconds. */
  datatype Hms = Hms(h: nat, m: nat, s: nat)

  /**
   * `h = floor(t / 3600)`, `m = floor((t % 3600) / 60)`, `s = t % 60`, the split every
   * duration display uses; on non-negative input JavaScript's operators agree with Dafny's.
   */
  function SplitSeconds(total: nat): (r: Hms)
    ensures r.h * 3600 + r.m * 60 + r.s == total
    ensures r.m < 60 && r.s < 60
  {
    var rem := total % 3600;
    // `t % 60` and `(t % 3600) % 60` agree, since 3600 is a multiple of 60
    Hms(total / 3600, rem / 60, rem % 60)
  }

  /** The split is the only one with minutes and seconds below 60. */
  lemma SplitSecondsUnique(total: nat, x: Hms)
    requires x.h * 3600 + x.m * 60 + x.s == total && x.m < 60 && x.s < 60
    ensures x == SplitSeconds(total)
  {
    var r := SplitSeconds(total);
    assert x.m * 60 + x.s < 3600;
  }
}
