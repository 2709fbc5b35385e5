/**
 * The create/edit task form: how it is filled when opened, how the frequency field reads
 * typed text, and what a submit hands to the dashboard.
 */
module TaskForm {
  import opened Wrappers
  import opened Types
  import opened Text
  import Reminders

  /** The form's fields. */
  datatype Fields = Fields(
    title: string,
    description: string,
    taskType: TaskType,
    needsTracking: bool,
    freqValue: int,
    freqUnit: FrequencyUnit,
    color: string,
    icon: string)

  /** The fields of a blank form: a daily habit with tracking, the first colour and icon. */
  function Blank(): (f: Fields)
    ensures f.title == [] && f.description == []
    ensures f.taskType == Habit && f.needsTracking
    ensures f.freqValue == 1 && f.freqUnit == Day
    ensures f.color == COLORS[0] && f.icon == ICONS[0]
  {
    Fields("", "", Habit, true, 1, Day, DefaultColor(), DefaultIcon())
  }

  /**
   * The fields when the form opens: blank for a new task, otherwise copied from the task
   * being edited, with a missing description read as empty and a missing or zero frequency
   * read the way the reminder check reads it.
   */
  function Open(initialData: Option<Task>): (f: Fields)
    ensures initialData.None? ==> f == Blank()
    ensures initialData.Some? ==>
      var t := initialData.value;
      && f.title == t.title && f.taskType == t.taskType && f.needsTracking == t.needsTracking
      && f.color == t.color && f.icon == t.icon
      && (t.description.Some? ==> f.description == t.description.value)
      && (t.description.None? ==> f.description == [])
      && f.freqValue == Reminders.EffectiveValue(t.frequency)
      && f.freqUnit == Reminders.EffectiveUnit(t.frequency)
  {
    match initialData
    case None => Blank()
    case Some(t) =>
      Fields(
        t.title,
        t.description.GetOr(""),
        t.taskType,
        t.needsTracking,
        if t.frequency.Some? && t.frequency.value.value != 0 then t.frequency.value.value else 1,
        if t.frequency.Some? then t.frequency.value.unit else Day,
        t.color,
        t.icon)
  }

  /** `parseInt(input) || 1`: text that is not a number, and zero, become 1; negatives are kept. */
  function FreqInput(input: string): (v: int)
    ensures v != 0
    ensures ParseInt(input).Some? && ParseInt(input).value != 0 ==> v == ParseInt(input).value
    ensures ParseInt(input).None? || ParseInt(input).value == 0 ==> v == 1
  {
    match ParseInt(input)
    case None => 1
    case Some(n) => if n == 0 then 1 else n
  }

  /** Typing a minus sign and a non-zero run of digits into the frequency field keeps the negative value. */
  lemma FreqInputKeepsNegatives(d: string)
    requires |d| > 0 && AllDigits(d) && DigitsValue(d) > 0
    ensures FreqInput("-" + d) == Negate(DigitsValue(d))
  {
    ParseIntOfMinusDigits(d);
  }

  /** A positive number is kept; an emptied field reads as 1. */
  lemma FreqInputReadsNumbers(n: nat)
    requires n > 0
    ensures FreqInput(NatToString(n)) == n
    ensures FreqInput("") == 1
  {
    ParseIntOfNatString(n);
  }

  /**
   * A number field can hold `1.5` or `1e3`: only the digits before the first non-digit are
   * read, so such text gives its whole-number part (1 for `1.5`), or 1 when that part is 0.
   */
  lemma FreqInputTruncates(d: string, rest: string)
    requires |d| > 0 && AllDigits(d)
    requires |rest| == 0 || !IsDigit(rest[0])
    ensures FreqInput(d + rest) == if DigitsValue(d) == 0 then 1 else DigitsValue(d)
  {
    ParseIntReadsLeadingDigits("", "", d, rest);
    assert "" + ("" + (d + rest)) == d + rest;
  }

  /** The result of submitting: either refused, or a task payload handed to the dashboard. */
  datatype Outcome = Rejected | Saved(draft: TaskDraft)

  /**
   * `handleSubmit`: a blank title is refused (nothing is saved and the form stays open);
   * otherwise the fields are submitted as they are, the title untrimmed, and the frequency
   * always present.
   */
  function Submit(f: Fields): (o: Outcome)
    ensures o.Rejected? <==> IsBlank(f.title)
    ensures o.Saved? ==>
      && o.draft.title == f.title && o.draft.description == f.description
      && o.draft.taskType == f.taskType && o.draft.needsTracking == f.needsTracking
      && o.draft.frequency == Frequency(f.freqValue, f.freqUnit)
      && o.draft.color == f.color && o.draft.icon == f.icon
  {
    if IsBlank(f.title) then Rejected
    else Saved(TaskDraft(f.title, f.description, f.taskType, f.needsTracking,
                         Frequency(f.freqValue, f.freqUnit), f.color, f.icon))
  }

  /** Re-saving an unchanged edit form never changes the task's reminder period. */
  lemma ResubmitKeepsPeriod(t: Task)
    requires !IsBlank(t.title)
    ensures Submit(Open(Some(t))).Saved?
    ensures Reminders.FreqMs(Some(Submit(Open(Some(t))).draft.frequency)) == Reminders.FreqMs(t.frequency)
  {
  }

  /** `handleDelete`: a delete request for the edited task, only when editing one. */
  function DeleteRequest(initialData: Option<Task>, hasOnDelete: bool): (r: Option<string>)
    ensures r.Some? <==> initialData.Some? && hasOnDelete
    ensures r.Some? ==> r.value == initialData.value.id
  {
    if initialData.Some? && hasOnDelete then Some(initialData.value.id) else None
  }
}
