/**
 * The dashboard: the task and log collections together with the transient UI state
 * (selection mode and selected ids, the task whose capture dialog, detail view or edit
 * form is open). Every handler is a function from the old state to the new one; fresh
 * ids and the current time are parameters.
 */
module App {
  import opened Wrappers
  import opened Types
  import opened Seqs
  import Logs
  import Text
  import TaskForm
  import ActionModal
  import DetailView
  import Export

  datatype Dashboard = Dashboard(
    tasks: seq<Task>,
    logs: seq<TaskLog>,
    selectionMode: bool,
    selected: seq<string>,
    activeTask: Option<Task>,
    detailTask: Option<Task>,
    editingTask: Option<Task>,
    formOpen: bool)

  // ---------------------------------------------------------------- create and update

  /** The task carries every field of the submitted payload. */
  predicate CarriesDraft(t: Task, draft: TaskDraft) {
    && t.title == draft.title
    && t.description == Some(draft.description)
    && t.taskType == draft.taskType
    && t.needsTracking == draft.needsTracking
    && t.frequency == Some(draft.frequency)
    && t.color == draft.color
    && t.icon == draft.icon
  }

  /** A new task: the payload plus a fresh id, the creation time, not completed, reminders on. */
  function NewTask(draft: TaskDraft, id: string, now: int): (t: Task)
    ensures CarriesDraft(t, draft)
    ensures t.id == id && t.createdAt == now
    ensures !t.isCompleted && t.notificationEnabled && t.lastNotifiedAt.None?
  {
    Task(id, draft.title, Some(draft.description), draft.taskType, Some(draft.frequency),
         draft.needsTracking, false, now, draft.color, draft.icon, true, None)
  }

  /** Creating a task puts it in front of the others. */
  function CreateTask(tasks: seq<Task>, draft: TaskDraft, id: string, now: int): (r: seq<Task>)
    ensures |r| == |tasks| + 1 && r[0] == NewTask(draft, id, now) && r[1..] == tasks
  {
    [NewTask(draft, id, now)] + tasks
  }

  /** A fresh id keeps the ids of the task list distinct. */
  lemma CreateKeepsIdsUnique(tasks: seq<Task>, draft: TaskDraft, id: string, now: int)
    requires UniqueIds(tasks) && id !in TaskIds(tasks)
    ensures UniqueIds(CreateTask(tasks, draft, id, now))
  {
    var r := CreateTask(tasks, draft, id, now);
    forall i, j | 0 <= i < j < |r| ensures r[i].id != r[j].id {
      assert r[j] == tasks[j - 1];
      if i > 0 {
        assert r[i] == tasks[i - 1];
      }
    }
  }

  /** `{ ...t, ...draft }`: the payload overwrites its fields and the rest of `t` stays. */
  function Merge(t: Task, draft: TaskDraft): (r: Task)
    ensures CarriesDraft(r, draft)
    ensures r.id == t.id && r.createdAt == t.createdAt && r.isCompleted == t.isCompleted
    ensures r.notificationEnabled == t.notificationEnabled && r.lastNotifiedAt == t.lastNotifiedAt
  {
    t.(title := draft.title, description := Some(draft.description), taskType := draft.taskType,
       needsTracking := draft.needsTracking, frequency := Some(draft.frequency),
       color := draft.color, icon := draft.icon)
  }

  /** Applies `f` to the tasks with id `id` and leaves the others. */
  function MapWhere(tasks: seq<Task>, id: string, f: Task -> Task): (r: seq<Task>)
    ensures |r| == |tasks|
    ensures forall i :: 0 <= i < |tasks| && tasks[i].id != id ==> r[i] == tasks[i]
    ensures forall i :: 0 <= i < |tasks| && tasks[i].id == id ==> r[i] == f(tasks[i])
  {
    seq(|tasks|, i requires 0 <= i < |tasks| => if tasks[i].id == id then f(tasks[i]) else tasks[i])
  }

  function UpdateTask(tasks: seq<Task>, id: string, draft: TaskDraft): (r: seq<Task>)
    ensures |r| == |tasks|
    ensures forall i :: 0 <= i < |tasks| && tasks[i].id != id ==> r[i] == tasks[i]
    ensures forall i :: 0 <= i < |tasks| && tasks[i].id == id ==> r[i] == Merge(tasks[i], draft)
  {
    MapWhere(tasks, id, (t: Task) => Merge(t, draft))
  }

  /** `toggleSingleTask`: flips `isCompleted` of the matching tasks and nothing else. */
  function ToggleCompleted(tasks: seq<Task>, id: string): (r: seq<Task>)
    ensures |r| == |tasks|
    ensures forall i :: 0 <= i < |tasks| ==> r[i] == tasks[i].(isCompleted := r[i].isCompleted)
    ensures forall i :: 0 <= i < |tasks| ==> r[i].isCompleted == (tasks[i].isCompleted != (tasks[i].id == id))
  {
    MapWhere(tasks, id, (t: Task) => t.(isCompleted := !t.isCompleted))
  }

  /** `toggleTaskNotification`: flips `notificationEnabled` of the matching tasks and nothing else. */
  function ToggleNotification(tasks: seq<Task>, id: string): (r: seq<Task>)
    ensures |r| == |tasks|
    ensures forall i :: 0 <= i < |tasks| ==> r[i] == tasks[i].(notificationEnabled := r[i].notificationEnabled)
    ensures forall i :: 0 <= i < |tasks| ==>
              r[i].notificationEnabled == (tasks[i].notificationEnabled != (tasks[i].id == id))
  {
    MapWhere(tasks, id, (t: Task) => t.(notificationEnabled := !t.notificationEnabled))
  }

  lemma ToggleTwiceRestores(tasks: seq<Task>, id: string)
    ensures ToggleCompleted(ToggleCompleted(tasks, id), id) == tasks
    ensures ToggleNotification(ToggleNotification(tasks, id), id) == tasks
  {
  }

  // ---------------------------------------------------------------- logs

  /** `saveLog`: the log, with a fresh id, goes after all the others. */
  function AppendLog(logs: seq<TaskLog>, draft: LogDraft, id: string): (r: seq<TaskLog>)
    ensures |r| == |logs| + 1 && r[..|logs|] == logs
    ensures r[|logs|] == TaskLog(id, draft.taskId, draft.timestamp, draft.count, draft.durationSeconds, draft.note)
  {
    logs + [TaskLog(id, draft.taskId, draft.timestamp, draft.count, draft.durationSeconds, draft.note)]
  }

  /** Whether some log refers to the task with id `id`. */
  predicate HasLog(logs: seq<TaskLog>, id: string) {
    exists l :: l in logs && l.taskId == id
  }

  /** A new log of a task moves its last activity up to the log's time, if that is later. */
  lemma AppendLogAdvancesActivity(task: Task, logs: seq<TaskLog>, draft: LogDraft, id: string)
    requires draft.taskId == task.id
    ensures !HasLog(logs, task.id) ==>
              Logs.LastActivity(task, AppendLog(logs, draft, id)) == draft.timestamp
    ensures HasLog(logs, task.id) ==>
              var before := Logs.LastActivity(task, logs);
              Logs.LastActivity(task, AppendLog(logs, draft, id)) ==
                if before >= draft.timestamp then before else draft.timestamp
  {
    var r := AppendLog(logs, draft, id);
    var x := r[|logs|];
    assert r == logs + [x];
    MembersOfSnoc(logs, x);
    if HasLog(logs, task.id) {
      ActivityOfSnoc(task, logs, x);
    } else {
      assert forall l :: l in r && l.taskId == task.id ==> l == x;
    }
  }

  lemma MembersOfSnoc<T>(s: seq<T>, x: T)
    ensures forall l :: l in s + [x] <==> l in s || l == x
  {
  }

  lemma ActivityOfSnoc(task: Task, logs: seq<TaskLog>, x: TaskLog)
    requires HasLog(logs, task.id) && x.taskId == task.id
    requires forall l :: l in logs + [x] <==> l in logs || l == x
    ensures var before := Logs.LastActivity(task, logs);
      Logs.LastActivity(task, logs + [x]) == if before >= x.timestamp then before else x.timestamp
  {
    var before := Logs.LastActivity(task, logs);
    var m :| m in logs && m.taskId == task.id && m.timestamp == before;
    var top := if before >= x.timestamp then m else x;
    assert top in logs + [x];
    Logs.ActivityIsTheMaximum(task, logs + [x], top);
  }

  // ---------------------------------------------------------------- selection and clicks

  /** The predicate "this id differs from `id`". */
  function Other(id: string): string -> bool {
    (x: string) => x != id
  }

  /** `toggleSelection`: removes a selected id, appends an unselected one. */
  function ToggleSelection(selected: seq<string>, id: string): (r: seq<string>)
    ensures forall x :: x in r <==> if x == id then id !in selected else x in selected
    ensures id !in selected ==> r == selected + [id]
    ensures id in selected ==> SubsequenceOf(r, selected)
  {
    if id in selected then
      FilterIsSubsequence(Other(id), selected);
      Filter(Other(id), selected)
    else selected + [id]
  }

  /** Toggling an unselected id twice restores the selection exactly. */
  lemma ToggleSelectionTwiceFromAbsent(selected: seq<string>, id: string)
    requires id !in selected
    ensures ToggleSelection(ToggleSelection(selected, id), id) == selected
  {
    FilterSnoc(Other(id), selected, id);
    FilterAll(Other(id), selected);
  }

  /**
   * On a duplicate-free selection toggling twice restores the set of selected ids (an id
   * that was selected moves to the end), and toggling keeps the selection duplicate-free.
   */
  lemma ToggleSelectionTwice(selected: seq<string>, id: string)
    requires NoDuplicates(selected)
    ensures NoDuplicates(ToggleSelection(selected, id))
    ensures forall x :: x in ToggleSelection(ToggleSelection(selected, id), id) <==> x in selected
  {
    if id in selected {
      FilterNoDuplicates(Other(id), selected);
    } else {
      var r := selected + [id];
      forall i, j | 0 <= i < j < |r| ensures r[i] != r[j] {
        if j == |selected| {
          assert r[i] == selected[i];
        } else {
          assert r[i] == selected[i] && r[j] == selected[j];
        }
      }
    }
  }

  /**
   * `handleTaskClick`: in selection mode a click only toggles the task's selection;
   * otherwise a tracked task opens the capture dialog and an untracked one toggles its
   * completion.
   */
  function HandleTaskClick(d: Dashboard, task: Task): (r: Dashboard)
    ensures d.selectionMode ==> r == d.(selected := ToggleSelection(d.selected, task.id))
    ensures !d.selectionMode && task.needsTracking ==> r == d.(activeTask := Some(task))
    ensures !d.selectionMode && !task.needsTracking ==> r == d.(tasks := ToggleCompleted(d.tasks, task.id))
  {
    if d.selectionMode then d.(selected := ToggleSelection(d.selected, task.id))
    else if task.needsTracking then d.(activeTask := Some(task))
    else d.(tasks := ToggleCompleted(d.tasks, task.id))
  }

  /** `handleOpenDetail`: in selection mode the detail button also toggles selection. */
  function OpenDetail(d: Dashboard, task: Task): (r: Dashboard)
    ensures d.selectionMode ==> r == d.(selected := ToggleSelection(d.selected, task.id))
    ensures !d.selectionMode ==> r == d.(detailTask := Some(task))
  {
    if d.selectionMode then d.(selected := ToggleSelection(d.selected, task.id))
    else d.(detailTask := Some(task))
  }

  /**
   * Clicking the same card twice undoes the first click when it only toggled: the
   * selection when the card was unselected, the completion flag of an untracked task.
   */
  lemma ClickTwiceRestores(d: Dashboard, task: Task)
    requires d.selectionMode ==> task.id !in d.selected
    requires !d.selectionMode ==> !task.needsTracking
    ensures HandleTaskClick(HandleTaskClick(d, task), task) == d
  {
    if d.selectionMode {
      ToggleSelectionTwiceFromAbsent(d.selected, task.id);
    } else {
      ToggleTwiceRestores(d.tasks, task.id);
    }
  }

  // ---------------------------------------------------------------- deletion

  function TaskKey(t: Task): string { t.id }

  function LogKey(l: TaskLog): string { l.taskId }

  /** The predicate "the key of this element is not `id`". */
  function KeyIsNot<T>(key: T -> string, id: string): T -> bool {
    (x: T) => key(x) != id
  }

  /** The predicate "the key of this element is not in `ids`". */
  function KeyNotIn<T>(key: T -> string, ids: set<string>): T -> bool {
    (x: T) => key(x) !in ids
  }

  function RemoveTask(tasks: seq<Task>, id: string): (r: seq<Task>)
    ensures forall t :: t in r <==> t in tasks && t.id != id
    ensures SubsequenceOf(r, tasks)
  {
    forall t ensures KeyIsNot(TaskKey, id)(t) == (t.id != id) {
      assert TaskKey(t) == t.id;
    }
    FilterIsSubsequence(KeyIsNot(TaskKey, id), tasks);
    Filter(KeyIsNot(TaskKey, id), tasks)
  }

  function RemoveLogsOf(logs: seq<TaskLog>, id: string): (r: seq<TaskLog>)
    ensures forall l :: l in r <==> l in logs && l.taskId != id
    ensures SubsequenceOf(r, logs)
  {
    forall l ensures KeyIsNot(LogKey, id)(l) == (l.taskId != id) {
      assert LogKey(l) == l.taskId;
    }
    FilterIsSubsequence(KeyIsNot(LogKey, id), logs);
    Filter(KeyIsNot(LogKey, id), logs)
  }

  /**
   * `deleteTask`: removes the task with that id, every log referring to it and the id
   * from the selection, keeping the order of what remains, and closes every dialog that
   * could still show the task.
   */
  function DeleteTask(d: Dashboard, id: string): (r: Dashboard)
    ensures forall t :: t in r.tasks <==> t in d.tasks && t.id != id
    ensures forall l :: l in r.logs <==> l in d.logs && l.taskId != id
    ensures forall x :: x in r.selected <==> x in d.selected && x != id
    ensures SubsequenceOf(r.tasks, d.tasks) && SubsequenceOf(r.logs, d.logs)
    ensures SubsequenceOf(r.selected, d.selected)
    ensures r.activeTask.None? && r.detailTask.None? && r.editingTask.None? && !r.formOpen
    ensures r.selectionMode == d.selectionMode
  {
    FilterIsSubsequence(Other(id), d.selected);
    Dashboard(
      RemoveTask(d.tasks, id),
      RemoveLogsOf(d.logs, id),
      d.selectionMode,
      Filter(Other(id), d.selected),
      None, None, None, false)
  }

  /** Deletion keeps every copy of what it keeps: each other task and log occurs as often as before. */
  lemma DeleteKeepsOthersExactly(d: Dashboard, id: string)
    ensures forall t :: multiset(DeleteTask(d, id).tasks)[t] == if t.id == id then 0 else multiset(d.tasks)[t]
    ensures forall l :: multiset(DeleteTask(d, id).logs)[l] == if l.taskId == id then 0 else multiset(d.logs)[l]
  {
    FilterMultiset(KeyIsNot(TaskKey, id), d.tasks);
    FilterMultiset(KeyIsNot(LogKey, id), d.logs);
  }

  /**
   * `batchDeleteTasks`: with nothing selected, nothing happens; otherwise every selected
   * task and its logs are removed in one pass over a set of ids, the selection is emptied
   * and selection mode ends.
   */
  function BatchDelete(d: Dashboard): (r: Dashboard)
    ensures |d.selected| == 0 ==> r == d
    ensures |d.selected| > 0 ==>
      && (forall t :: t in r.tasks <==> t in d.tasks && t.id !in d.selected)
      && (forall l :: l in r.logs <==> l in d.logs && l.taskId !in d.selected)
      && SubsequenceOf(r.tasks, d.tasks) && SubsequenceOf(r.logs, d.logs)
      && r.selected == [] && !r.selectionMode
      && r == d.(tasks := r.tasks, logs := r.logs, selected := [], selectionMode := false)
  {
    if |d.selected| == 0 then d
    else
      var ids := set id | id in d.selected;
      forall t ensures KeyNotIn(TaskKey, ids)(t) == (t.id !in d.selected) {
        assert TaskKey(t) == t.id;
      }
      forall l ensures KeyNotIn(LogKey, ids)(l) == (l.taskId !in d.selected) {
        assert LogKey(l) == l.taskId;
      }
      FilterIsSubsequence(KeyNotIn(TaskKey, ids), d.tasks);
      FilterIsSubsequence(KeyNotIn(LogKey, ids), d.logs);
      d.(tasks := Filter(KeyNotIn(TaskKey, ids), d.tasks),
         logs := Filter(KeyNotIn(LogKey, ids), d.logs),
         selected := [],
         selectionMode := false)
  }

  /** Removing the ids one after the other, as repeated single deletes would. */
  function RemoveEach<T(!new)>(key: T -> string, s: seq<T>, ids: seq<string>): seq<T>
    decreases |ids|
  {
    if |ids| == 0 then s else RemoveEach(key, Filter(KeyIsNot(key, ids[0]), s), ids[1..])
  }

  lemma {:induction false} RemoveEachIsOnePass<T(!new)>(key: T -> string, s: seq<T>, ids: seq<string>)
    ensures RemoveEach(key, s, ids) == Filter(KeyNotIn(key, set id | id in ids), s)
    decreases |ids|
  {
    if |ids| == 0 {
      FilterAll(KeyNotIn(key, set id | id in ids), s);
    } else {
      RemoveEachIsOnePass(key, Filter(KeyIsNot(key, ids[0]), s), ids[1..]);
      RemoveFirstThenRest(key, s, ids);
    }
  }

  /** Removing the first id and then the others is removing them all at once. */
  lemma RemoveFirstThenRest<T(!new)>(key: T -> string, s: seq<T>, ids: seq<string>)
    requires |ids| > 0
    ensures Filter(KeyNotIn(key, set id | id in ids[1..]), Filter(KeyIsNot(key, ids[0]), s))
         == Filter(KeyNotIn(key, set id | id in ids), s)
  {
    var all := set id | id in ids;
    var rest := set id | id in ids[1..];
    assert all == {ids[0]} + rest by {
      assert ids == [ids[0]] + ids[1..];
    }
    FilterFilter(KeyNotIn(key, rest), KeyIsNot(key, ids[0]), s);
    var both := (x: T) => KeyIsNot(key, ids[0])(x) && KeyNotIn(key, rest)(x);
    FilterExt(both, KeyNotIn(key, all), s);
  }

  /** Batch deletion removes exactly what deleting each selected id in turn would remove. */
  lemma BatchDeleteIsRepeatedDelete(d: Dashboard)
    requires |d.selected| > 0
    ensures BatchDelete(d).tasks == RemoveEach(TaskKey, d.tasks, d.selected)
    ensures BatchDelete(d).logs == RemoveEach(LogKey, d.logs, d.selected)
  {
    RemoveEachIsOnePass(TaskKey, d.tasks, d.selected);
    RemoveEachIsOnePass(LogKey, d.logs, d.selected);
  }

  /** Filtering `front + [z]` down to `z` when nothing in `front` passes. */
  lemma KeepsOnlyLast<T(!new)>(p: T -> bool, front: seq<T>, z: T)
    requires forall i :: 0 <= i < |front| ==> !p(front[i])
    requires p(z)
    ensures Filter(p, front + [z]) == [z]
  {
    FilterSnoc(p, front, z);
  }

  /** Deleting the selection [a, b] from tasks [a, b, c] keeps c and c's log only. */
  lemma BatchDeleteScenario(a: Task, b: Task, c: Task, la: TaskLog, lc: TaskLog, d: Dashboard)
    requires a.id == "a" && b.id == "b" && c.id == "c"
    requires la.taskId == "a" && lc.taskId == "c"
    requires d.tasks == [a, b, c] && d.logs == [la, lc] && d.selected == ["a", "b"]
    ensures BatchDelete(d).tasks == [c] && BatchDelete(d).logs == [lc]
  {
    var ids := set id | id in d.selected;
    assert "a" in ids && "b" in ids && "c" !in ids;
    assert TaskKey(a) == "a" && TaskKey(b) == "b" && TaskKey(c) == "c";
    assert LogKey(la) == "a" && LogKey(lc) == "c";
    assert d.tasks == [a, b] + [c] && d.logs == [la] + [lc];
    KeepsOnlyLast(KeyNotIn(TaskKey, ids), [a, b], c);
    KeepsOnlyLast(KeyNotIn(LogKey, ids), [la], lc);
  }

  // ---------------------------------------------------------------- dialogs

  /** `handleCreateOrUpdateTask` followed by closing the form. */
  function SaveTask(d: Dashboard, draft: TaskDraft, id: string, now: int): (r: Dashboard)
    ensures !r.formOpen && r.editingTask.None?
    ensures d.editingTask.Some? ==> r.tasks == UpdateTask(d.tasks, d.editingTask.value.id, draft)
    ensures d.editingTask.None? ==> r.tasks == CreateTask(d.tasks, draft, id, now)
    ensures r.logs == d.logs && r.selected == d.selected && r.selectionMode == d.selectionMode
    ensures r == d.(tasks := r.tasks, editingTask := None, formOpen := false)
  {
    match d.editingTask
    case Some(editing) => d.(tasks := UpdateTask(d.tasks, editing.id, draft), editingTask := None, formOpen := false)
    case None => d.(tasks := CreateTask(d.tasks, draft, id, now), formOpen := false)
  }

  /** A submit of the task form: refused submits change nothing at all. */
  function SubmitTaskForm(d: Dashboard, f: TaskForm.Fields, id: string, now: int): (r: Dashboard)
    ensures Text.IsBlank(f.title) ==> r == d
    ensures !Text.IsBlank(f.title) ==> r == SaveTask(d, TaskForm.Submit(f).draft, id, now)
  {
    match TaskForm.Submit(f)
    case Rejected => d
    case Saved(draft) => SaveTask(d, draft, id, now)
  }

  /** Creating a task with an empty title is refused and leaves the task list as it was. */
  lemma EmptyTitleRejected(d: Dashboard, f: TaskForm.Fields, id: string, now: int)
    requires f.title == ""
    ensures SubmitTaskForm(d, f, id, now).tasks == d.tasks
  {
  }

  /** Two tasks agree on every field the task form edits. */
  predicate SameFormFields(a: Task, b: Task) {
    && a.title == b.title && a.description == b.description && a.taskType == b.taskType
    && a.needsTracking == b.needsTracking && a.frequency == b.frequency
    && a.color == b.color && a.icon == b.icon
  }

  /**
   * Opening the edit form on a task and saving it unchanged leaves the task list as it
   * was, provided the task already had a description and a non-zero frequency. The list's
   * entries need only agree with the opened task on the form's fields: a reminder stamp
   * or a completion toggle made while the form was open survives the save.
   */
  lemma UnchangedEditKeepsTasks(d: Dashboard, t: Task, id: string, now: int)
    requires d.editingTask == Some(t) && !Text.IsBlank(t.title)
    requires t.description.Some? && t.frequency.Some? && t.frequency.value.value != 0
    requires forall i :: 0 <= i < |d.tasks| && d.tasks[i].id == t.id ==> SameFormFields(d.tasks[i], t)
    ensures SubmitTaskForm(d, TaskForm.Open(Some(t)), id, now).tasks == d.tasks
  {
    var draft := TaskForm.Submit(TaskForm.Open(Some(t))).draft;
    var r := UpdateTask(d.tasks, t.id, draft);
    forall i | 0 <= i < |d.tasks|
      ensures r[i] == d.tasks[i]
    {
      if d.tasks[i].id == t.id {
        assert Merge(d.tasks[i], draft) == d.tasks[i];
      }
    }
  }

  /** Saving the capture dialog of the open task: its log is appended and the dialog closes. */
  function SaveTracking(d: Dashboard, tracker: ActionModal.Tracker, now: int, id: string): (r: Dashboard)
    ensures d.activeTask.None? ==> r == d
    ensures d.activeTask.Some? ==>
      && r == d.(logs := r.logs, activeTask := None)
      && r.logs == AppendLog(d.logs, ActionModal.BuildLog(d.activeTask.value, tracker, now), id)
      && r.logs[|d.logs|].taskId == d.activeTask.value.id
  {
    match d.activeTask
    case None => d
    case Some(t) => d.(logs := AppendLog(d.logs, ActionModal.BuildLog(t, tracker, now), id), activeTask := None)
  }

  /** The detail view's delete button: the displayed task is gone and the view is closed. */
  function DeleteFromDetail(d: Dashboard): (r: Dashboard)
    requires d.detailTask.Some?
    ensures r.detailTask.None?
    ensures forall t :: t in r.tasks ==> t.id != d.detailTask.value.id
    ensures forall l :: l in r.logs ==> l.taskId != d.detailTask.value.id
    ensures r == DeleteTask(d, d.detailTask.value.id)
  {
    DeleteTask(d, DetailView.DeleteRequest(d.detailTask.value))
  }

  /** The edit form's delete button: the edited task is deleted only when editing one. */
  function DeleteFromForm(d: Dashboard): (r: Dashboard)
    ensures d.editingTask.None? ==> r == d
    ensures d.editingTask.Some? ==> r == DeleteTask(d, d.editingTask.value.id)
  {
    match TaskForm.DeleteRequest(d.editingTask, true)
    case None => d
    case Some(id) => DeleteTask(d, id)
  }

  /** `exportSelectedToText`: the report of the selection, after which selection mode ends. */
  function ExportSelection(d: Dashboard): (r: (Option<seq<Export.Section>>, Dashboard))
    ensures |d.selected| == 0 ==> r == (None, d)
    ensures |d.selected| > 0 ==>
      && r.0 == Export.Report(d.tasks, d.logs, d.selected)
      && r.1 == d.(selected := [], selectionMode := false)
  {
    if |d.selected| == 0 then (None, d)
    else (Export.Report(d.tasks, d.logs, d.selected), d.(selected := [], selectionMode := false))
  }
}
