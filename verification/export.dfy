/**
 * The plain-text export of the selected tasks, modelled as its structure: per task a
 * section with its logs newest first, and per log the metrics printed for it. Date
 * rendering and the text layout around these parts are not modelled.
 */
module Export {
  import opened Wrappers
  import opened Types
  import Seqs
  import Logs
  import DetailView

  /** One printed metric: a duration in hours, minutes and seconds, or a count. */
  datatype Metric = Duration(hms: Hms) | Count(n: int)

  /** One log entry: its time, its metrics and its note when the note is non-empty. */
  datatype LogLine = LogLine(timestamp: int, metrics: seq<Metric>, note: Option<string>)

  /** One task: its title and type, its description (None prints the placeholder), its logs. */
  datatype Section = Section(title: string, taskType: TaskType, description: Option<string>, lines: seq<LogLine>)

  /** The count is printed when positive, or when count and duration are both zero. */
  predicate PrintsCount(l: TaskLog) {
    l.count > 0 || (l.count == 0 && l.durationSeconds == 0)
  }

  /** The metrics segment of one log: the duration first if positive, then the count if printed. */
  function Metrics(l: TaskLog): (ms: seq<Metric>)
    ensures |ms| <= 2
    ensures (|ms| > 0 && ms[0].Duration?) <==> l.durationSeconds > 0
    ensures l.durationSeconds > 0 ==> ms[0] == Duration(SplitSeconds(l.durationSeconds))
    ensures Count(l.count) in ms <==> PrintsCount(l)
    ensures forall m :: m in ms && m.Count? ==> m == Count(l.count)
    ensures forall m :: m in ms && m.Duration? ==> l.durationSeconds > 0 && m == Duration(SplitSeconds(l.durationSeconds))
    ensures |ms| == (if l.durationSeconds > 0 then 1 else 0) + (if PrintsCount(l) then 1 else 0)
    ensures PrintsCount(l) ==> ms[|ms| - 1] == Count(l.count)
  {
    var duration := if l.durationSeconds > 0 then [Duration(SplitSeconds(l.durationSeconds))] else [];
    var count := if PrintsCount(l) then [Count(l.count)] else [];
    duration + count
  }

  /** For a log with non-negative fields the metrics segment is never empty. */
  lemma MetricsNeverEmpty(l: TaskLog)
    requires l.count >= 0 && l.durationSeconds >= 0
    ensures |Metrics(l)| >= 1
  {
  }

  /**
   * For a non-negative count the export prints exactly the metrics the detail view shows,
   * in the same order: the duration when the view shows one, then the count when it does.
   */
  lemma AgreesWithDetailView(l: TaskLog)
    requires l.count >= 0
    ensures (|Metrics(l)| > 0 && Metrics(l)[0].Duration?) <==> DetailView.ShowsDuration(l)
    ensures Count(l.count) in Metrics(l) <==> DetailView.ShowsCount(l)
    ensures Metrics(l) ==
      (if DetailView.ShowsDuration(l) then [Duration(SplitSeconds(l.durationSeconds))] else [])
      + (if DetailView.ShowsCount(l) then [Count(l.count)] else [])
  {
    assert PrintsCount(l) == DetailView.ShowsCount(l);
  }

  /** The line of one log; an empty note is falsy and is left out. */
  function Line(l: TaskLog): (line: LogLine)
    ensures line.timestamp == l.timestamp && line.metrics == Metrics(l)
    ensures line.note.Some? <==> l.note.Some? && l.note.value != []
    ensures line.note.Some? ==> line.note == l.note
  {
    LogLine(l.timestamp, Metrics(l), if l.note.Some? && l.note.value != [] then l.note else None)
  }

  function Lines(logs: seq<TaskLog>): (lines: seq<LogLine>)
    ensures |lines| == |logs|
    ensures forall i :: 0 <= i < |logs| ==> lines[i] == Line(logs[i])
  {
    seq(|logs|, i requires 0 <= i < |logs| => Line(logs[i]))
  }

  /**
   * The section of one task: its own logs, newest first, one line each; an absent or
   * empty description prints the placeholder.
   */
  function TaskSection(t: Task, logs: seq<TaskLog>): (sec: Section)
    ensures sec.title == t.title && sec.taskType == t.taskType
    ensures sec.description.Some? <==> t.description.Some? && t.description.value != []
    ensures sec.description.Some? ==> sec.description == t.description
    ensures sec.lines == Lines(Logs.SortNewestFirst(Logs.LogsFor(logs, t.id)))
    ensures forall i, j :: 0 <= i < j < |sec.lines| ==> sec.lines[i].timestamp >= sec.lines[j].timestamp
  {
    var own := Logs.SortNewestFirst(Logs.LogsFor(logs, t.id));
    var description := if t.description.Some? && t.description.value != [] then t.description else None;
    Section(t.title, t.taskType, description, Lines(own))
  }

  /** The predicate "this task is among the selected ids". */
  function InSelection(ids: set<string>): Task -> bool {
    (t: Task) => t.id in ids
  }

  function Sections(tasks: seq<Task>, logs: seq<TaskLog>): (secs: seq<Section>)
    ensures |secs| == |tasks|
    ensures forall i :: 0 <= i < |tasks| ==> secs[i] == TaskSection(tasks[i], logs)
    ensures forall t :: t in tasks ==> TaskSection(t, logs) in secs
    ensures forall sec :: sec in secs ==> exists t :: t in tasks && sec == TaskSection(t, logs)
  {
    var secs := seq(|tasks|, i requires 0 <= i < |tasks| => TaskSection(tasks[i], logs));
    EverySectionPresent(tasks, logs, secs);
    EverySectionFromATask(tasks, logs, secs);
    secs
  }

  lemma EverySectionPresent(tasks: seq<Task>, logs: seq<TaskLog>, secs: seq<Section>)
    requires |secs| == |tasks| && forall i :: 0 <= i < |tasks| ==> secs[i] == TaskSection(tasks[i], logs)
    ensures forall t :: t in tasks ==> TaskSection(t, logs) in secs
  {
    forall t | t in tasks ensures TaskSection(t, logs) in secs {
      var i :| 0 <= i < |tasks| && tasks[i] == t;
      assert secs[i] == TaskSection(t, logs);
    }
  }

  lemma EverySectionFromATask(tasks: seq<Task>, logs: seq<TaskLog>, secs: seq<Section>)
    requires |secs| == |tasks| && forall i :: 0 <= i < |tasks| ==> secs[i] == TaskSection(tasks[i], logs)
    ensures forall sec :: sec in secs ==> exists t :: t in tasks && sec == TaskSection(t, logs)
  {
    forall sec | sec in secs ensures exists t :: t in tasks && sec == TaskSection(t, logs) {
      var i :| 0 <= i < |secs| && secs[i] == sec;
      assert tasks[i] in tasks;
    }
  }

  /**
   * The report for a selection: nothing when the selection is empty, otherwise one section
   * per selected task, in the task list's order.
   */
  function Report(tasks: seq<Task>, logs: seq<TaskLog>, selected: seq<string>): (r: Option<seq<Section>>)
    ensures r.None? <==> |selected| == 0
    ensures r.Some? ==> r.value == Sections(Seqs.Filter(InSelection(set id | id in selected), tasks), logs)
    ensures r.Some? ==> forall sec :: sec in r.value ==> exists t :: t in tasks && t.id in selected && sec == TaskSection(t, logs)
    ensures r.Some? ==> forall t :: t in tasks && t.id in selected ==> TaskSection(t, logs) in r.value
  {
    if |selected| == 0 then None
    else
      var chosen := Seqs.Filter(InSelection(set id | id in selected), tasks);
      var secs := Sections(chosen, logs);
      Some(secs)
  }
}
