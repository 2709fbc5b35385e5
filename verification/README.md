# Taskflow core in Dafny

Taskflow is a single-page habit and task tracker. A user keeps a list of tasks. Each task is
either a one-off item or a recurring habit, and its activity is recorded as logs. A log records
a count, a stopwatch duration and an optional note. A reminder check runs every few seconds. It
stamps each overdue habit with the time of its reminder.

This project models the part of the application that decides things. The rendering, storage and
browser services are left out. Everything is a pure function over immutable values: tasks and
logs are sequences of records, and the current time, the fresh ids and the notification
permission are parameters.

- `Types` holds the records (`Task`, `TaskLog`, `Frequency`, the log and task payloads), the icon
  and colour palettes, and the hours/minutes/seconds split every duration display uses.
- `Logs` holds the logs of one task, the task's *last activity* (the newest log time, or the
  creation time when there is none), and the stable newest-first sort.
- `Reminders` holds the unit table, the effective reminder period with the source's falsy
  fallbacks, and one tick of the reminder check, with its frame and no-repeat properties.
- `ActionModal` holds the capture dialog as a state machine: stopwatch ticks, play/pause, reset,
  the counter clamps, the zero-padded `hh:mm:ss` text and the log handed over on save.
- `DetailView` holds the three-shape duration text, the rule for which metrics a log shows, and
  the delete request.
- `TaskForm` holds the form's initial fields, the frequency-input fallback, the blank-title refusal
  and the submitted payload.
- `Export` holds the per-task report: the selected tasks, each with its logs newest first, and
  for each log the metric parts and the note.
- `App` holds the dashboard state: create, update, the completion and notification toggles, log
  append, selection toggling and click routing, single and batch delete, and the dialogs' hand-offs
  to the dashboard.
- `Wrappers`, `Seqs` and `Text` are support: `Option`, filtering with its lemmas, and the
  JavaScript string primitives the code relies on (`String(n)`, `padStart`, `trim`, decimal
  `parseInt`).

JavaScript's falsy fallbacks are kept as the code writes them:

- `frequency?.value || 1` reads a zero value as 1 and keeps a negative one.
- `lastNotifiedAt ? … : Infinity` treats a stored 0 as "never notified". `Infinity` is `None`.
- `parseInt(…) || 1` in the task form lets negative frequencies through. The model follows this
  code. `Reminders.NegativeFrequencyAlwaysDue` shows the consequence: such a habit is due at
  every tick.

## Model

| member | source | states |
|---|---|---|
| Types.DefaultIcon | types.ts:34 | the default icon is a member of `ICONS`, namely its first entry |
| Types.DefaultColor | types.ts:35-50 | the default colour is a member of `COLORS`, namely its first entry |
| Types.ParseUnit | types.ts:1 | a unit name is read back only to the unit whose name it is |
| Types.ParseUnitName | types.ts:1 | every one of the six units is recovered from its name |
| Types.SplitSeconds | App.tsx:359-361 | hours, minutes and seconds recompose the duration, with minutes and seconds below 60 |
| Types.SplitSecondsUnique | App.tsx:359-361 | that split is the only one with minutes and seconds below 60 |
| Text.Pad2 | components/ActionModal.tsx:49 | `padStart(2, '0')` of a number is a digit string of its value: one zero before a single digit, and exactly `String(n)` from 10 on, so no zero is added to a number of two or more digits |
| Text.PaddedIsPad2 | components/ActionModal.tsx:49 | any two-digit text, or longer digit text without a leading zero, is the padding of its own value, so only one padded text denotes a number |
| Text.Trim | components/ActionModal.tsx:58 | `trim` returns the middle slice with only white space cut off at either end; it is empty exactly for all-space text |
| Text.NatToString | components/DetailView.tsx:22-24 | `String(n)` writes a natural number as a digit string without leading zeros that reads back as n, one character exactly below 10 |
| Text.CanonicalIsNatToString | components/DetailView.tsx:22-24 | digit text without a leading zero is `String` of its value, so `String` is the only such text for a number |
| Text.ParseInt | components/TaskForm.tsx:180 | `parseInt` gives `NaN` exactly when no digit follows the leading white space and the optional sign, so blank text is `NaN`; a negative result comes only from a minus sign |
| Text.ParseIntReadsLeadingDigits | components/TaskForm.tsx:180 | after white space and an optional sign the run of digits is read and whatever follows it is ignored; the result is the digits' value, negated after a minus sign |
| Text.ParseIntStopsAtPoint | components/TaskForm.tsx:180 | `parseInt("1.5")` is 1 |
| Text.ParseIntOfNatString | components/TaskForm.tsx:180 | `parseInt` reads back any non-negative number written in decimal |
| Text.ParseIntOfMinusDigits | components/TaskForm.tsx:180 | a minus sign and digits read as the negated value of the digits |
| Text.ParseIntNoDigits | components/ActionModal.tsx:140 | text without any digit reads as `NaN` |
| Logs.LogsFor | App.tsx:189 | the logs of a task are the logs whose `taskId` is its id, in their stored order, each as often as it occurs in the list |
| Logs.MaxTimestamp | App.tsx:191 | `Math.max` of the timestamps is one of the timestamps and none is larger |
| Logs.LastActivity | App.tsx:189-192 | last activity is the creation time when the task has no log; otherwise it is the time of one of its logs and no log of it is later |
| Logs.ActivityIsTheMaximum | App.tsx:190-191 | a time carried by one of the task's logs that no log of the task exceeds is the task's last activity |
| Logs.Insert | components/DetailView.tsx:15 | inserting into a newest-first list keeps it newest first and adds exactly that log |
| Logs.SortNewestFirst | components/DetailView.tsx:15 | the sort returns a permutation of the logs, ordered by timestamp descending |
| Logs.SortIsStable | App.tsx:348 | logs with equal timestamps keep their original relative order |
| Logs.NewestLogIsLastActivity | App.tsx:190-191 | the first log of a task's sorted logs carries the task's last-activity time |
| Reminders.UnitMs | App.tsx:19-26 | every unit lasts a positive whole number of minutes |
| Reminders.UnitTable | App.tsx:19-26 | a minute is 60000 ms; an hour, day, week, month and year are 60 minutes, 24 hours, 7, 30 and 365 days; the table increases |
| Reminders.EffectiveValue | App.tsx:194 | a missing or zero frequency value counts as 1; any other value, negatives included, is kept |
| Reminders.EffectiveUnit | App.tsx:194 | a missing frequency counts as days |
| Reminders.FreqMs | App.tsx:194 | the period is the effective value times the effective unit; it is never 0, positive exactly for positive values, and one day without a frequency |
| Reminders.SinceNotified | App.tsx:197 | the gap since the last reminder is infinite exactly when none is stored or the stored time is 0 |
| Reminders.CheckTask | App.tsx:187-213 | one task's check changes at most `lastNotifiedAt`: a task that fires gets `now`, any other comes back unchanged |
| Reminders.FireCondition | App.tsx:187-200 | a task fires exactly when it is a habit with reminders on that is not completed, its last activity is at least one period ago, and its last reminder is missing, 0 or at least one period ago |
| Reminders.CheckReminders | App.tsx:176-218 | with the switch off or without permission the list is unchanged; otherwise exactly the watched, overdue tasks get `lastNotifiedAt = now` and nothing else changes; length and order are kept, and the original list comes back when nothing fires |
| Reminders.NotifiedKeepsActivity | App.tsx:211 | stamping a reminder does not move the task's last activity |
| Reminders.NoRepeatWithinPeriod | App.tsx:196-211 | after firing at a non-zero time, a task does not fire again before a full period has passed |
| Reminders.TickNoRepeat | App.tsx:185-217 | a second tick within the period leaves a task fired by the first tick as the first tick left it |
| Reminders.FireAtZeroIsForgotten | App.tsx:197 | a reminder stamped at time 0 counts as never sent |
| Reminders.DueIsMonotonic | App.tsx:196-200 | a task that is due stays due as time goes on |
| Reminders.DueBy | App.tsx:196-200 | every task becomes due at some time |
| Reminders.NegativeFrequencyAlwaysDue | App.tsx:194-200 | with a negative frequency value a task is due at any time not before its last activity and last reminder |
| Reminders.DailyHabitScenario | App.tsx:176-218 | a daily habit with no logs fires 25 hours after creation, and a tick ten seconds later changes nothing |
| TaskForm.Blank | components/TaskForm.tsx:36-46 | a new form is an empty daily habit with tracking, the first colour and the first icon |
| TaskForm.Open | components/TaskForm.tsx:25-48 | the form opens blank for a new task; for an edit it copies the task, reading a missing description as empty and the frequency with the reminder check's fallbacks |
| TaskForm.FreqInput | components/TaskForm.tsx:180 | the frequency input is never 0: non-numbers and zero become 1, every other parsed integer is kept |
| TaskForm.FreqInputKeepsNegatives | components/TaskForm.tsx:180 | typing a negative number keeps it negative |
| TaskForm.FreqInputReadsNumbers | components/TaskForm.tsx:180 | typing a positive number keeps it, and an emptied field reads as 1 |
| TaskForm.FreqInputTruncates | components/TaskForm.tsx:180 | text such as `1.5` or `1e3` gives the number before the first non-digit, or 1 when that number is 0 |
| TaskForm.Submit | components/TaskForm.tsx:50-69 | a submit is refused exactly when the title is blank; otherwise the payload is the fields as they are, with the untrimmed title and a frequency always present |
| TaskForm.ResubmitKeepsPeriod | components/TaskForm.tsx:32-33 | saving an edit form unchanged never changes the task's reminder period |
| TaskForm.DeleteRequest | components/TaskForm.tsx:71-76 | delete asks for the edited task's id, and only when a task is being edited and a handler is present |
| ActionModal.Opened | components/ActionModal.tsx:20-26 | opening resets the stopwatch to 0 and paused, the counter to 0 and the note to empty |
| ActionModal.CountFromInput | components/ActionModal.tsx:140 | typed counts are never negative: a non-number or a negative number gives 0, others are kept |
| ActionModal.Step | components/ActionModal.tsx:104-145 | each event changes only its own field: a tick adds one second while running, play/pause flips running, reset zeroes only a paused non-zero stopwatch, decrement stops at 0, increment adds 1 |
| ActionModal.CountNeverNegative | components/ActionModal.tsx:130-145 | whatever events follow, the counter stays non-negative |
| ActionModal.TicksAddUp | components/ActionModal.tsx:32-36 | n ticks of a running stopwatch add exactly n seconds and change nothing else |
| ActionModal.FormatTime | components/ActionModal.tsx:45-50 | the stopwatch text reads back as the hours, minutes and seconds of the split, each written as `padStart(2, '0')` writes it |
| ActionModal.ClockText | components/ActionModal.tsx:49 | three fields joined by `:` read back as those fields |
| ActionModal.FormatTimeShape | components/ActionModal.tsx:49 | minutes and seconds take two characters each and hours at least two, with `:` between them |
| ActionModal.ParseClockIsExact | components/ActionModal.tsx:49 | the only text that reads back as given hours, minutes and seconds is the clock text of those fields |
| ActionModal.FormatTimeIsOnlyReading | components/ActionModal.tsx:45-50 | no text other than the stopwatch text of n seconds reads back as the split of n |
| ActionModal.NoteOrAbsent | components/ActionModal.tsx:58 | the note is absent exactly when it is blank; otherwise it is the trimmed text |
| ActionModal.BuildLog | components/ActionModal.tsx:52-61 | the saved log names the task, takes the time of saving, the counter and the stopwatch seconds; its note is the trimmed note text, or absent when that text is blank, so it never starts with white space |
| DetailView.FormatDuration | components/DetailView.tsx:17-25 | zero is `-`; any other duration reads back as its split, with every number written as `String` writes it (no leading zeros); the hour label appears exactly with hours, the minute label exactly with hours or minutes |
| DetailView.HoursShape | components/DetailView.tsx:22 | the three-part text reads back as its hours, minutes and seconds |
| DetailView.MinutesShape | components/DetailView.tsx:23 | the two-part text reads back as its minutes and seconds and has no hour label |
| DetailView.SecondsShape | components/DetailView.tsx:24 | the seconds-only text reads back as its seconds and has neither label |
| DetailView.SomeMetricShown | components/DetailView.tsx:98-106 | a log with a non-negative duration shows at least one of duration and count |
| DetailView.DeleteRequest | components/DetailView.tsx:33-38 | delete asks for the displayed task's id |
| Export.Metrics | App.tsx:357-366 | the parts list holds at most a duration and a count, in that order: the duration part, as the split of the seconds, is present exactly when the duration is positive; the count part, the log's count, is present exactly when the count is positive or both are 0; no other part appears |
| Export.MetricsNeverEmpty | App.tsx:358-366 | with non-negative count and duration every log prints at least one part |
| Export.AgreesWithDetailView | App.tsx:358-366 | for non-negative counts the report's parts list is exactly the detail view's: the duration when the view shows a duration, then the count when the view shows a count |
| Export.Line | App.tsx:354-372 | a log line keeps the timestamp and the metric parts; the note is printed exactly when it is non-empty |
| Export.TaskSection | App.tsx:342-376 | a task's section lists the task's own logs newest first, with the description printed only when it is non-empty |
| Export.Sections | App.tsx:342-376 | one section per task, in the tasks' order; every task's section is present and every section belongs to one of the tasks |
| Export.Report | App.tsx:335-376 | an empty selection produces no report; otherwise there is one section for each task whose id is selected, in list order: every selected task's section is present and no other section appears |
| App.NewTask | App.tsx:235-241 | a new task carries the payload, the fresh id and the creation time, is not completed and has reminders on |
| App.CreateTask | App.tsx:234-243 | creating a task puts it in front of the unchanged list |
| App.CreateKeepsIdsUnique | App.tsx:235-242 | a fresh id keeps the task ids distinct |
| App.Merge | App.tsx:230 | an update overwrites the payload fields and keeps id, creation time, completion and reminder state |
| App.UpdateTask | App.tsx:227-233 | updating merges the payload into the matching tasks and leaves every other task as it was |
| App.ToggleCompleted | App.tsx:266-270 | only the matching tasks flip completion, and no other field changes |
| App.ToggleNotification | App.tsx:246-250 | only the matching tasks flip their reminder switch, and no other field changes |
| App.ToggleTwiceRestores | App.tsx:246-270 | toggling completion or reminders twice restores the list |
| App.AppendLog | App.tsx:258-264 | a saved log, with its fresh id, goes after all existing logs, which are unchanged |
| App.AppendLogAdvancesActivity | App.tsx:263 | after a new log the task's last activity is the later of the old one and the log's time, or the log's time when there was no log before |
| App.ToggleSelection | App.tsx:285-292 | toggling appends an unselected id and removes a selected one, keeping the others in order |
| App.ToggleSelectionTwiceFromAbsent | App.tsx:285-292 | toggling an unselected id twice restores the selection exactly |
| App.ToggleSelectionTwice | App.tsx:285-292 | on a duplicate-free selection toggling keeps it duplicate-free, and toggling twice restores the selected set |
| App.HandleTaskClick | App.tsx:272-283 | in selection mode a click only toggles selection; otherwise a tracked task opens the capture dialog and an untracked one toggles completion |
| App.OpenDetail | App.tsx:294-301 | in selection mode the detail button toggles selection; otherwise it opens the detail view |
| App.ClickTwiceRestores | App.tsx:272-292 | a second click on the same card undoes a click that only toggled: the selection of an unselected card, or the completion of an untracked task |
| App.RemoveTask | App.tsx:316 | exactly the tasks with another id remain, in order |
| App.RemoveLogsOf | App.tsx:317 | exactly the logs of other tasks remain, in order |
| App.DeleteTask | App.tsx:309-319 | deletion removes exactly the task, its logs and its id from the selection, keeps the order of the rest and closes every dialog |
| App.DeleteKeepsOthersExactly | App.tsx:316-317 | every other task and log keeps its number of occurrences |
| App.BatchDelete | App.tsx:321-328 | an empty selection changes nothing; otherwise exactly the selected tasks and their logs go, in order, the selection empties and selection mode ends |
| App.RemoveEachIsOnePass | App.tsx:323-325 | removing the ids one after another equals one pass with the set of ids |
| App.BatchDeleteIsRepeatedDelete | App.tsx:321-328 | batch deletion removes the same tasks and logs as deleting each selected id in turn |
| App.BatchDeleteScenario | App.tsx:321-328 | deleting the selection a, b from tasks a, b, c, with one log for a and one for c, leaves c and c's log only |
| App.SaveTask | App.tsx:226-244 | saving the form updates the edited task, or creates one when none is being edited; the form is closed (by the form's own close after `onSave`) and no longer edits a task, and every other part of the dashboard (logs, selection, the capture dialog and the detail view) is kept |
| App.SubmitTaskForm | components/TaskForm.tsx:50-69 | a refused submit changes nothing; an accepted one saves the form's payload |
| App.EmptyTitleRejected | components/TaskForm.tsx:53-56 | submitting an empty title leaves the task list as it was |
| App.UnchangedEditKeepsTasks | App.tsx:228-232 | opening the edit form on a task and saving it unchanged leaves the task list as it was, provided the task has a non-blank title, a description and a frequency with a non-zero value, and each stored entry with that id agrees with it on the form's fields; a reminder stamp or completion toggle made to the stored entry while the form was open survives the save |
| App.SaveTracking | components/ActionModal.tsx:52-61 | saving the capture dialog appends the dialog's log for the open task and closes the dialog, changing nothing else |
| App.DeleteFromDetail | components/DetailView.tsx:33-38 | deleting from the detail view is the single delete of the displayed task's id: the task and all its logs are gone and the view is closed |
| App.DeleteFromForm | components/TaskForm.tsx:71-76 | deleting from the form deletes the edited task, and does nothing for a new one |
| App.ExportSelection | App.tsx:335-390 | exporting an empty selection does nothing; otherwise it produces the report and then ends selection mode with an empty selection |

## Left out

- Storage in `localStorage`, the login screen and the per-user namespacing are browser I/O. A
  dashboard value stands for the loaded state.
- The Notification API, the permission request and the alerts are host services. Permission is
  the boolean `granted` of `Reminders.CheckReminders`, and showing a notification is not modelled.
- The timers (`setInterval`, the ten-second reminder interval and the one-second stopwatch) are
  not modelled. A reminder tick is one call of `Reminders.CheckReminders`; a stopwatch tick is
  the `Tick` event.
- The reminder interval reads `logs` from the render in which it was set up. The model passes the
  logs explicitly, so which render's logs are used is left to the caller.
- `generateId` uses randomness and cryptography. Fresh ids are parameters, and
  `App.CreateKeepsIdsUnique` states the freshness requirement.
- `Date.now()` is the parameter `now`. Date and locale formatting (`toLocaleString`,
  `Intl.DateTimeFormat`) is not modelled. The report's header line, its separators and labels, and
  the Blob download are not modelled either: `Export.Report` models the parts list of each log,
  not the text.
- The settings dialog (Gist backup and restore, tokens, `JSON.parse`), `handleImport`, the icon and
  colour pickers, all rendering and the build configuration are not part of this model.
- `startEditing`, `openNewTaskForm` and the plain close buttons only set dialog flags. They are
  not modelled separately; `App.SaveTask` and `App.UnchangedEditKeepsTasks` take the state they
  leave as input.
- `App.SaveTracking`: the dialog is given the task looked up again by id (`liveActiveTask`). The
  model uses the stored active task instead; both have the same id, and the id is the only part
  of the task the saved log uses.
- `App.ToggleSelectionTwice`: on a selection that contained the id, toggling twice restores the
  set of ids, not the sequence, because the id comes back at the end.
- `Text.ParseIntOfMinusDigits`: `parseInt` is modelled for decimal text only (no `0x` prefix), with
  exact integers. The inputs are number fields, which never produce hex text, and floating-point
  precision loss on huge inputs is not modelled.
- `Reminders.CheckReminders`: timestamps and periods are exact integers. JavaScript numbers are
  doubles, which are exact at the magnitudes of millisecond timestamps.
- `DetailView.FormatDuration`: the duration is a natural number. The view calls it only for
  positive durations, and the stopwatch never produces negative ones.
- `ActionModal.FormatTime`: the stopwatch seconds are a natural number, as the stopwatch counts up
  from 0.
- `DetailView.SomeMetricShown`: it needs a non-negative duration. A log with a negative duration
  and a non-positive count would show no metric, but the dialog cannot produce one.
