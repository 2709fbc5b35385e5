/**
 * The detail view of one task: its logs newest first (Logs.SortNewestFirst), each with
 * a human-readable duration and the metrics it shows.
 */
module DetailView {
  import opened Wrappers
  import opened Types
  import opened Text

  /** `m分 s` (the label's trailing space sits before the seconds). */
  function MinSecText(m: nat, s: nat): string {
    NatToString(m) + ['分'] + ([' '] + NatToString(s))
  }

  /**
   * `formatDuration`: `-` for zero; otherwise hours, minutes and seconds when there are
   * hours, minutes and seconds when there are minutes, and seconds alone otherwise.
   */
  function FormatDuration(seconds: nat): (r: string)
    ensures seconds == 0 <==> r == "-"
    ensures ParseDuration(r) == Some(SplitSeconds(seconds))
    ensures seconds > 0 ==> ('小' in r <==> SplitSeconds(seconds).h > 0)
    ensures seconds > 0 ==> ('分' in r <==> SplitSeconds(seconds).h > 0 || SplitSeconds(seconds).m > 0)
  {
    if seconds == 0 then "-"
    else
      var x := SplitSeconds(seconds);
      if x.h > 0 then
        var body := NatToString(x.h) + ['小'] + ("时 " + MinSecText(x.m, x.s));
        HoursShape(x);
        body + ['秒']
      else if x.m > 0 then
        var body := MinSecText(x.m, x.s);
        MinutesShape(x.m, x.s);
        body + ['秒']
      else
        var body := NatToString(x.s);
        SecondsShape(x.s);
        body + ['秒']
  }

  /** A number written as `String` writes it: digits without a leading zero. */
  ghost function Field(t: string): (r: Option<nat>)
    ensures r.Some? <==> Canonical(t)
    ensures r.Some? ==> t == NatToString(r.value)
  {
    if Canonical(t) then
      CanonicalIsNatToString(t);
      Some(DigitsValue(t))
    else None
  }

  /** Reads `m分 s`. */
  ghost function ParseMinSecs(t: string): Option<Hms> {
    var j := IndexOf(t, '分');
    if j == |t| then None
    else
      var rest := t[j + 1..];
      if |rest| == 0 || rest[0] != ' ' then None
      else match (Field(t[..j]), Field(rest[1..]))
        case (Some(m), Some(s)) => Some(Hms(0, m, s))
        case _ => None
  }

  /** Reads `h小时 m分 s`. */
  ghost function ParseHourMinSecs(t: string): Option<Hms> {
    var i := IndexOf(t, '小');
    if i == |t| then None
    else
      var rest := t[i + 1..];
      if |rest| < 2 || rest[0] != '时' || rest[1] != ' ' then None
      else match (Field(t[..i]), ParseMinSecs(rest[2..]))
        case (Some(h), Some(ms)) => Some(Hms(h, ms.m, ms.s))
        case _ => None
  }

  /** Reads a formatted duration back into its fields (the inverse of FormatDuration). */
  ghost function ParseDuration(r: string): Option<Hms> {
    if r == "-" then Some(Hms(0, 0, 0))
    else if |r| == 0 || r[|r| - 1] != '秒' then None
    else
      var body := r[..|r| - 1];
      if '小' in body then ParseHourMinSecs(body)
      else if '分' in body then ParseMinSecs(body)
      else match Field(body)
        case Some(s) => Some(Hms(0, 0, s))
        case None => None
  }

  /** The view's own numbers are read back. */
  lemma FieldOfNatString(n: nat)
    ensures Field(NatToString(n)) == Some(n)
  {
    assert Canonical(NatToString(n));
  }

  /** `m分 s` splits at its label into the two numbers around it. */
  lemma MinSecsSplit(a: string, b: string)
    requires Canonical(a) && Canonical(b)
    ensures ParseMinSecs(a + ['分'] + ([' '] + b)) == Some(Hms(0, DigitsValue(a), DigitsValue(b)))
  {
    DigitsFree(a, '分');
    var tail := [' '] + b;
    var t := a + ['分'] + tail;
    IndexOfAfter(a, '分', tail);
    var j := IndexOf(t, '分');
    assert j == |a|;
    assert t[..j] == a && t[j + 1..] == tail;
    assert tail[0] == ' ' && tail[1..] == b;
    assert Field(a) == Some(DigitsValue(a)) && Field(b) == Some(DigitsValue(b));
  }

  lemma MinSecsFields(m: nat, s: nat)
    ensures ParseMinSecs(MinSecText(m, s)) == Some(Hms(0, m, s))
    ensures '分' in MinSecText(m, s) && '小' !in MinSecText(m, s) && '秒' !in MinSecText(m, s)
  {
    var a, b := NatToString(m), NatToString(s);
    assert Canonical(a) && Canonical(b);
    MinSecsSplit(a, b);
    MinSecsLabels(a, b);
  }

  /** The minute label is the only label in `m分 s`. */
  lemma MinSecsLabels(a: string, b: string)
    requires AllDigits(a) && AllDigits(b)
    ensures var t := a + ['分'] + ([' '] + b);
      '分' in t && '小' !in t && '秒' !in t
  {
    var t := a + ['分'] + ([' '] + b);
    assert t[|a|] == '分';
    DigitsFree(a, '小');
    DigitsFree(b, '小');
    DigitsFree(a, '秒');
    DigitsFree(b, '秒');
  }

  /** Stripping the trailing seconds label and dispatching on the labels present. */
  lemma ParseLabelled(body: string)
    ensures ParseDuration(body + ['秒']) ==
      if '小' in body then ParseHourMinSecs(body)
      else if '分' in body then ParseMinSecs(body)
      else match Field(body)
        case Some(s) => Some(Hms(0, 0, s))
        case None => None
  {
    var r := body + ['秒'];
    assert r[..|r| - 1] == body;
    assert r != "-" by {
      assert r[|r| - 1] == '秒';
    }
  }

  lemma MinutesShape(m: nat, s: nat)
    ensures ParseDuration(MinSecText(m, s) + ['秒']) == Some(Hms(0, m, s))
    ensures '分' in MinSecText(m, s) + ['秒'] && '小' !in MinSecText(m, s) + ['秒']
  {
    MinSecsFields(m, s);
    ParseLabelled(MinSecText(m, s));
  }

  lemma HourFields(a: string, ms: string, y: Hms)
    requires Canonical(a) && ParseMinSecs(ms) == Some(y)
    ensures ParseHourMinSecs(a + ['小'] + ("时 " + ms)) == Some(Hms(DigitsValue(a), y.m, y.s))
  {
    DigitsFree(a, '小');
    var tail := "时 " + ms;
    var body := a + ['小'] + tail;
    IndexOfAfter(a, '小', tail);
    var i := IndexOf(body, '小');
    assert i == |a|;
    assert body[..i] == a && body[i + 1..] == tail;
    assert tail[0] == '时' && tail[1] == ' ' && tail[2..] == ms;
    assert Field(a) == Some(DigitsValue(a));
  }

  lemma HoursShape(x: Hms)
    ensures var r := NatToString(x.h) + ['小'] + ("时 " + MinSecText(x.m, x.s)) + ['秒'];
      ParseDuration(r) == Some(x) && '小' in r && '分' in r
  {
    var a := NatToString(x.h);
    var ms := MinSecText(x.m, x.s);
    MinSecsFields(x.m, x.s);
    HourFields(a, ms, Hms(0, x.m, x.s));
    var body := a + ['小'] + ("时 " + ms);
    assert '小' in body && '分' in body;
    ParseLabelled(body);
  }

  /** A zero-padded number is not how the view writes seconds, so it is not read back. */
  lemma LeadingZeroRejected()
    ensures ParseDuration("05秒") == None
  {
    ParseLabelled("05");
    assert !Canonical("05");
  }

  lemma SecondsShape(s: nat)
    ensures var r := NatToString(s) + ['秒'];
      ParseDuration(r) == Some(Hms(0, 0, s)) && '小' !in r && '分' !in r
  {
    var b := NatToString(s);
    DigitsFree(b, '小');
    DigitsFree(b, '分');
    ParseLabelled(b);
  }

  /** The duration column is shown for a log with a positive duration. */
  predicate ShowsDuration(log: TaskLog) {
    log.durationSeconds > 0
  }

  /** The count column is shown for a positive count, or when there is no duration at all. */
  predicate ShowsCount(log: TaskLog) {
    log.count > 0 || log.durationSeconds == 0
  }

  /** A log with a non-negative duration always shows at least one metric, whatever its count. */
  lemma SomeMetricShown(log: TaskLog)
    requires log.durationSeconds >= 0
    ensures ShowsDuration(log) || ShowsCount(log)
  {
  }

  /** The delete button asks the dashboard to delete exactly the displayed task. */
  function DeleteRequest(task: Task): (id: string)
    ensures id == task.id
  {
    task.id
  }
}
