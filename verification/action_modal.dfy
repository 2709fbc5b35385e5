/**
 * The capture dialog opened for tracked tasks: a stopwatch, a counter and a note, turned
 * into a log when the user saves. Timer scheduling is reduced to explicit `Tick` events.
 */
module ActionModal {
  import opened Wrappers
  import opened Types
  import opened Text

  /** The dialog's state: stopwatch seconds, whether it runs, the counter and the note. */
  datatype Tracker = Tracker(seconds: nat, isActive: bool, count: int, note: string)

  /** What opening the dialog resets the state to (also the initial state). */
  function Opened(): (t: Tracker)
    ensures t.seconds == 0 && t.count == 0 && t.note == [] && !t.isActive
  {
    Tracker(0, false, 0, "")
  }

  /** The user's and the timer's inputs to the dialog. */
  datatype Event =
    | Tick                      // the one-second interval, which only runs while active
    | PlayPause
    | ResetTimer
    | Decrement
    | Increment
    | TypeCount(input: string)  // the raw text of the counter field
    | EditNote(text: string)

  /** The reset button is rendered only for a paused, non-zero stopwatch. */
  predicate ResetOffered(t: Tracker) {
    t.seconds > 0 && !t.isActive
  }

  /** `Math.max(0, parseInt(input) || 0)`: text that is not a number, or a negative one, gives 0. */
  function CountFromInput(input: string): (c: int)
    ensures c >= 0
    ensures ParseInt(input).Some? && ParseInt(input).value >= 0 ==> c == ParseInt(input).value
    ensures ParseInt(input).None? || ParseInt(input).value < 0 ==> c == 0
  {
    match ParseInt(input)
    case None => 0
    case Some(n) => if n > 0 then n else 0
  }

  /** One event applied to the dialog. */
  function Step(t: Tracker, e: Event): (r: Tracker)
    ensures t.count >= 0 ==> r.count >= 0
    ensures e.Tick? ==> r.seconds == (if t.isActive then t.seconds + 1 else t.seconds)
    ensures e.Tick? ==> r == t.(seconds := r.seconds)
    ensures e.PlayPause? ==> r == t.(isActive := !t.isActive)
    ensures e.ResetTimer? ==> r == (if ResetOffered(t) then t.(seconds := 0) else t)
    ensures e.Decrement? ==> r == t.(count := if t.count - 1 > 0 then t.count - 1 else 0)
    ensures e.Increment? ==> r == t.(count := t.count + 1)
    ensures e.TypeCount? ==> r == t.(count := CountFromInput(e.input))
    ensures e.EditNote? ==> r == t.(note := e.text)
  {
    match e
    case Tick => if t.isActive then t.(seconds := t.seconds + 1) else t
    case PlayPause => t.(isActive := !t.isActive)
    case ResetTimer => if ResetOffered(t) then t.(seconds := 0) else t
    case Decrement => t.(count := if t.count - 1 > 0 then t.count - 1 else 0)
    case Increment => t.(count := t.count + 1)
    case TypeCount(input) => t.(count := CountFromInput(input))
    case EditNote(text) => t.(note := text)
  }

  /** A sequence of events, applied in order. */
  function Run(t: Tracker, events: seq<Event>): Tracker
    decreases |events|
  {
    if |events| == 0 then t else Run(Step(t, events[0]), events[1..])
  }

  /** The counter of an opened dialog stays non-negative whatever the user does. */
  lemma {:induction false} CountNeverNegative(t: Tracker, events: seq<Event>)
    requires t.count >= 0
    ensures Run(t, events).count >= 0
    decreases |events|
  {
    if |events| > 0 {
      CountNeverNegative(Step(t, events[0]), events[1..]);
    }
  }

  /** While the stopwatch runs and nothing else happens, `n` ticks add exactly `n` seconds. */
  lemma {:induction false} TicksAddUp(t: Tracker, n: nat)
    requires t.isActive
    ensures Run(t, seq(n, _ => Tick)) == t.(seconds := t.seconds + n)
    decreases n
  {
    if n > 0 {
      var ticks := seq(n, _ => Tick);
      assert ticks[0] == Tick && ticks[1..] == seq(n - 1, _ => Tick);
      TicksAddUp(Step(t, Tick), n - 1);
    }
  }

  /** The stopwatch text: hours, minutes and seconds, each zero-padded to two digits. */
  function FormatTime(total: nat): (r: string)
    ensures ParseClock(r) == Some(SplitSeconds(total))
  {
    ClockText(SplitSeconds(total))
  }

  function ClockText(hms: Hms): (r: string)
    requires hms.m < 60 && hms.s < 60
    ensures ParseClock(r) == Some(hms)
  {
    var a, b, c := Pad2(hms.h), Pad2(hms.m), Pad2(hms.s);
    ParseClockFields(a, b, c);
    a + [':'] + (b + [':'] + c)
  }

  /**
   * Reads `hh:mm:ss` text back into its three fields (the inverse of FormatTime, whose
   * fields recompose the total by SplitSeconds). Each field must be as `padStart(2, '0')`
   * writes it, and minutes and seconds must be below 60.
   */
  ghost function ParseClock(r: string): Option<Hms> {
    var i := IndexOf(r, ':');
    if i == |r| then None
    else
      var rest := r[i + 1..];
      var j := IndexOf(rest, ':');
      if j == |rest| then None
      else
        var h, m, s := r[..i], rest[..j], rest[j + 1..];
        if Padded2(h) && Padded2(m) && Padded2(s) && |m| == 2 && |s| == 2
           && DigitsValue(m) < 60 && DigitsValue(s) < 60
        then Some(Hms(DigitsValue(h), DigitsValue(m), DigitsValue(s)))
        else None
  }

  /** The only text ParseClock reads as `hms` is the clock text of `hms`. */
  lemma ParseClockIsExact(r: string, hms: Hms)
    requires ParseClock(r) == Some(hms)
    ensures hms.m < 60 && hms.s < 60 && r == ClockText(hms)
  {
    var i := IndexOf(r, ':');
    var rest := r[i + 1..];
    var j := IndexOf(rest, ':');
    var h, m, s := r[..i], rest[..j], rest[j + 1..];
    assert Padded2(h) && Padded2(m) && Padded2(s) && |m| == 2 && |s| == 2;
    assert hms == Hms(DigitsValue(h), DigitsValue(m), DigitsValue(s));
    PaddedIsPad2(h);
    PaddedIsPad2(m);
    PaddedIsPad2(s);
    CutAt(rest, ':');
    CutAt(r, ':');
  }

  /** Text that holds `c` is what comes before its first `c`, the `c`, and the rest. */
  lemma CutAt(r: string, c: char)
    requires IndexOf(r, c) < |r|
    ensures r == r[..IndexOf(r, c)] + [c] + r[IndexOf(r, c) + 1..]
  {
  }

  /** No other text than the stopwatch's own reads as the split of its seconds. */
  lemma FormatTimeIsOnlyReading(total: nat, r: string)
    requires ParseClock(r) == Some(SplitSeconds(total))
    ensures r == FormatTime(total)
  {
    ParseClockIsExact(r, SplitSeconds(total));
  }

  /** Minutes and seconds take exactly two digits each, hours at least two. */
  lemma FormatTimeShape(total: nat)
    ensures var r := FormatTime(total);
      |r| >= 8 && r[|r| - 3] == ':' && r[|r| - 6] == ':'
  {
    var hms := SplitSeconds(total);
    var a, b, c := Pad2(hms.h), Pad2(hms.m), Pad2(hms.s);
    assert FormatTime(total) == a + [':'] + (b + [':'] + c);
    ClockShape(a, b, c);
  }

  lemma ClockShape(a: string, b: string, c: string)
    requires |a| >= 2 && |b| == 2 && |c| == 2
    ensures var r := a + [':'] + (b + [':'] + c);
      |r| >= 8 && r[|r| - 3] == ':' && r[|r| - 6] == ':'
  {
  }

  /** ParseClock splits at the two separators, whatever digit strings surround them. */
  lemma ParseClockFields(a: string, b: string, c: string)
    requires Padded2(a) && Padded2(b) && Padded2(c) && |b| == 2 && |c| == 2
    requires DigitsValue(b) < 60 && DigitsValue(c) < 60
    ensures ParseClock(a + [':'] + (b + [':'] + c))
            == Some(Hms(DigitsValue(a), DigitsValue(b), DigitsValue(c)))
  {
    DigitsFree(a, ':');
    DigitsFree(b, ':');
    var tail := b + [':'] + c;
    var r := a + [':'] + tail;
    IndexOfAfter(a, ':', tail);
    var i := IndexOf(r, ':');
    assert i == |a| && i < |r|;
    assert r[..i] == a && r[i + 1..] == tail;
    IndexOfAfter(b, ':', c);
    var j := IndexOf(tail, ':');
    assert j == |b| && j < |tail|;
    assert tail[..j] == b && tail[j + 1..] == c;
  }

  /** `note.trim() || undefined`. */
  function NoteOrAbsent(note: string): (r: Option<string>)
    ensures r.None? <==> IsBlank(note)
    ensures r.Some? ==> r.value == Trim(note) && r.value != []
  {
    var t := Trim(note);
    if t == [] then None else Some(t)
  }

  /** Saving the dialog: the log it hands to the dashboard, stamped with the time `now`. */
  function BuildLog(task: Task, t: Tracker, now: int): (l: LogDraft)
    ensures l.taskId == task.id && l.timestamp == now
    ensures l.count == t.count && l.durationSeconds == t.seconds
    ensures l.note.Some? ==> l.note.value != [] && !IsSpace(l.note.value[0])
    ensures l.note.None? <==> AllSpace(t.note)
    ensures l.note == NoteOrAbsent(t.note)
  {
    LogDraft(task.id, now, t.count, t.seconds, NoteOrAbsent(t.note))
  }
}
