/**
 * The few JavaScript string primitives the application relies on: decimal rendering of
 * numbers, `padStart`, `trim`, `parseInt`, and locating a separator character.
 */
module Text {
  import opened Wrappers

  predicate IsDigit(c: char) {
    '0' <= c <= '9'
  }

  predicate AllDigits(s: string) {
    forall i :: 0 <= i < |s| ==> IsDigit(s[i])
  }

  function DigitChar(d: nat): (c: char)
    requires d < 10
    ensures IsDigit(c) && c as int - '0' as int == d
  {
    (('0' as int) + d) as char
  }

  /** The number a string of decimal digits denotes (leading zeros allowed). */
  function DigitsValue(s: string): nat
    requires AllDigits(s)
  {
    if |s| == 0 then 0 else DigitsValue(s[..|s| - 1]) * 10 + (s[|s| - 1] as int - '0' as int)
  }

  /** `String(n)` for a non-negative integer: its shortest decimal digit string. */
  function NatToString(n: nat): (r: string)
    ensures |r| >= 1 && AllDigits(r)
    ensures DigitsValue(r) == n
    ensures |r| > 1 ==> r[0] != '0'
    ensures n < 10 <==> |r| == 1
    ensures n < 100 ==> |r| <= 2
  {
    if n < 10 then [DigitChar(n)]
    else
      var front := NatToString(n / 10);
      var r := front + [DigitChar(n % 10)];
      assert r[..|r| - 1] == front;
      r
  }

  /** Digit text as `String(n)` writes it: non-empty, with no leading zero unless it is "0". */
  predicate Canonical(t: string) {
    |t| > 0 && AllDigits(t) && (|t| == 1 || t[0] != '0')
  }

  /** Canonical digit text is `String` of its own value, so no other text denotes that value. */
  lemma {:induction false} CanonicalIsNatToString(t: string)
    requires Canonical(t)
    ensures t == NatToString(DigitsValue(t))
    decreases |t|
  {
    var v := DigitsValue(t);
    var c := t[|t| - 1];
    var d := c as int - '0' as int;
    var front := t[..|t| - 1];
    assert v == DigitsValue(front) * 10 + d;
    if |t| == 1 {
      assert DigitsValue(front) == 0;
      assert DigitChar(v) == c;
      assert t == [c];
    } else {
      assert front[0] == t[0];
      CanonicalIsNatToString(front);
      var f := DigitsValue(front);
      assert v / 10 == f && v % 10 == d;
      assert DigitChar(d) == c;
      assert NatToString(v) == NatToString(f) + [DigitChar(d)];
      assert t == front + [c];
    }
  }

  /** A leading zero does not change the value of a digit string. */
  lemma {:induction false} LeadingZero(s: string)
    requires AllDigits(s)
    ensures AllDigits(['0'] + s) && DigitsValue(['0'] + s) == DigitsValue(s)
    decreases |s|
  {
    var z := ['0'] + s;
    if |s| > 0 {
      LeadingZero(s[..|s| - 1]);
      assert z[..|z| - 1] == ['0'] + s[..|s| - 1];
    } else {
      assert z[..|z| - 1] == [];
    }
  }

  function Repeat(c: char, n: nat): (r: string)
    ensures |r| == n && forall i :: 0 <= i < n ==> r[i] == c
  {
    seq(n, _ => c)
  }

  /** `s.padStart(width, c)`: prefix copies of `c` until the length reaches `width`. */
  function PadStart(s: string, width: nat, c: char): (r: string)
    ensures |r| == if |s| >= width then |s| else width
    ensures r[|r| - |s|..] == s
    ensures forall i :: 0 <= i < |r| - |s| ==> r[i] == c
  {
    if |s| >= width then s else Repeat(c, width - |s|) + s
  }

  /** Padding a digit string with zeros keeps its value. */
  lemma {:induction false} ZeroPadValue(s: string, width: nat)
    requires AllDigits(s)
    ensures AllDigits(PadStart(s, width, '0'))
    ensures DigitsValue(PadStart(s, width, '0')) == DigitsValue(s)
    decreases width
  {
    if |s| < width {
      var r := PadStart(s, width, '0');
      var r' := PadStart(s, width - 1, '0');
      assert r == ['0'] + r' by {
        assert r == Repeat('0', width - |s|) + s;
        assert r' == Repeat('0', width - 1 - |s|) + s;
      }
      ZeroPadValue(s, width - 1);
      LeadingZero(r');
    }
  }

  /** Digit text `padStart(2, '0')` can produce: two digits, or more without a leading zero. */
  predicate Padded2(t: string) {
    |t| >= 2 && AllDigits(t) && (|t| == 2 || t[0] != '0')
  }

  /**
   * `n.toString().padStart(2, '0')`: a single digit gets one zero in front, and every
   * other number is written as `String` writes it.
   */
  function Pad2(n: nat): (r: string)
    ensures AllDigits(r) && DigitsValue(r) == n
    ensures Padded2(r)
    ensures n < 100 ==> |r| == 2
    ensures n >= 10 ==> r == NatToString(n)
    ensures n < 10 ==> r == ['0'] + NatToString(n)
  {
    ZeroPadValue(NatToString(n), 2);
    PadStart(NatToString(n), 2, '0')
  }

  /** Text `padStart(2, '0')` could have written is the padding of its own value. */
  lemma PaddedIsPad2(t: string)
    requires Padded2(t)
    ensures t == Pad2(DigitsValue(t))
  {
    if t[0] != '0' {
      CanonicalIsNatToString(t);
    } else {
      var tail := t[1..];
      assert Canonical(tail);
      CanonicalIsNatToString(tail);
      LeadingZero(tail);
      assert t == ['0'] + tail;
    }
  }

  /**
   * The characters JavaScript's `trim` and `parseInt` skip: the WhiteSpace and
   * LineTerminator productions of ECMAScript (tab, vertical tab, form feed, space,
   * no-break space, byte-order mark, the other Unicode space separators, LF, CR,
   * line separator, paragraph separator).
   */
  predicate IsSpace(c: char) {
    || c == '\t' || c == '\n' || c == '\U{000B}' || c == '\U{000C}' || c == '\r' || c == ' '
    || c == '\U{00A0}' || c == '\U{1680}' || ('\U{2000}' <= c <= '\U{200A}')
    || c == '\U{2028}' || c == '\U{2029}' || c == '\U{202F}' || c == '\U{205F}'
    || c == '\U{3000}' || c == '\U{FEFF}'
  }

  predicate AllSpace(s: string) {
    forall i :: 0 <= i < |s| ==> IsSpace(s[i])
  }

  /** The first index at or after `i` that does not hold white space (or `|s|`). */
  function SkipSpace(s: string, i: nat): (j: nat)
    requires i <= |s|
    ensures i <= j <= |s|
    ensures forall k :: i <= k < j ==> IsSpace(s[k])
    ensures j < |s| ==> !IsSpace(s[j])
    decreases |s| - i
  {
    if i < |s| && IsSpace(s[i]) then SkipSpace(s, i + 1) else i
  }

  /** The end of `s[lo..j]` once trailing white space is dropped. */
  function SkipSpaceBack(s: string, lo: nat, j: nat): (e: nat)
    requires lo <= j <= |s|
    ensures lo <= e <= j
    ensures forall k :: e <= k < j ==> IsSpace(s[k])
    ensures e > lo ==> !IsSpace(s[e - 1])
    decreases j
  {
    if j > lo && IsSpace(s[j - 1]) then SkipSpaceBack(s, lo, j - 1) else j
  }

  /** `s.trim()`: the slice of `s` left after removing white space at both ends. */
  function Trim(s: string): (r: string)
    ensures exists i, j :: 0 <= i <= j <= |s| && r == s[i..j] && AllSpace(s[..i]) && AllSpace(s[j..])
    ensures |r| > 0 ==> !IsSpace(r[0]) && !IsSpace(r[|r| - 1])
    ensures r == [] <==> AllSpace(s)
  {
    var i := SkipSpace(s, 0);
    var j := SkipSpaceBack(s, i, |s|);
    assert AllSpace(s[..i]) && AllSpace(s[j..]);
    assert AllSpace(s) ==> i == |s|;
    s[i..j]
  }

  /** JavaScript truthiness of `s.trim()`: false exactly for blank strings. */
  predicate IsBlank(s: string) {
    Trim(s) == []
  }

  /** The longest prefix of `s` made of decimal digits. */
  function DigitPrefix(s: string): (r: string)
    ensures AllDigits(r) && |r| <= |s| && r == s[..|r|]
    ensures |r| < |s| ==> !IsDigit(s[|r|])
  {
    if |s| > 0 && IsDigit(s[0]) then [s[0]] + DigitPrefix(s[1..]) else []
  }

  /** The value of the run of digits `s` starts with; `None` when it starts with none. */
  function LeadingNumber(s: string): (r: Option<nat>)
    ensures r.None? <==> |s| == 0 || !IsDigit(s[0])
  {
    var d := DigitPrefix(s);
    if |d| == 0 then None else Some(DigitsValue(d))
  }

  /** `-v`, kept as a function of its own so that proofs about `parseInt` stay symbolic. */
  function Negate(v: nat): (r: int)
    ensures r <= 0 && r + v == 0
  {
    -(v as int)
  }

  /**
   * `parseInt(s)` with no radix, for decimal text: leading white space is skipped, an
   * optional sign is read, then the longest run of digits; `None` stands for `NaN`,
   * which arises exactly when no digit follows.
   */
  function ParseInt(s: string): (r: Option<int>)
    ensures var i := SkipSpace(s, 0);
            var k := if i < |s| && (s[i] == '-' || s[i] == '+') then i + 1 else i;
            r.None? <==> k == |s| || !IsDigit(s[k])
    ensures r.Some? && r.value < 0 ==> s[SkipSpace(s, 0)] == '-'
    ensures AllSpace(s) ==> r.None?
  {
    var i := SkipSpace(s, 0);
    if i < |s| && (s[i] == '-' || s[i] == '+') then
      match LeadingNumber(s[i + 1..])
      case None => None
      case Some(v) => if s[i] == '-' then Some(Negate(v)) else Some(v)
    else
      match LeadingNumber(s[i..])
      case None => None
      case Some(v) => Some(v)
  }

  /** A whole string of digits is read in full. */
  lemma LeadingNumberOfDigits(s: string)
    requires |s| > 0 && AllDigits(s)
    ensures LeadingNumber(s) == Some(DigitsValue(s))
  {
    DigitPrefixOfDigits(s);
  }

  /** `parseInt` reads back what `String` writes for a non-negative number. */
  lemma ParseIntOfNatString(n: nat)
    ensures ParseInt(NatToString(n)) == Some(n)
  {
    var d := NatToString(n);
    assert !IsSpace(d[0]) && d[0] != '-' && d[0] != '+';
    assert SkipSpace(d, 0) == 0 && d[0..] == d;
    LeadingNumberOfDigits(d);
  }

  /** A minus sign followed by digits reads as the negated value of the digits. */
  lemma ParseIntOfMinusDigits(d: string)
    requires |d| > 0 && AllDigits(d)
    ensures ParseInt("-" + d) == Some(Negate(DigitsValue(d)))
  {
    var m := "-" + d;
    assert m[0] == '-' && m[1..] == d;
    assert SkipSpace(m, 0) == 0;
    LeadingNumberOfDigits(d);
  }

  /** Skipping white space from `i` stops at the first character that is not white space. */
  lemma {:induction false} SkipSpaceTo(s: string, i: nat, k: nat)
    requires i <= k < |s| && !IsSpace(s[k])
    requires forall x :: i <= x < k ==> IsSpace(s[x])
    ensures SkipSpace(s, i) == k
    decreases k - i
  {
    if i < k {
      SkipSpaceTo(s, i + 1, k);
    }
  }

  /** The run of digits at the front of `d + rest` is `d` when `rest` does not continue it. */
  lemma {:induction false} DigitPrefixStops(d: string, rest: string)
    requires AllDigits(d) && (|rest| == 0 || !IsDigit(rest[0]))
    ensures DigitPrefix(d + rest) == d
    decreases |d|
  {
    if |d| > 0 {
      assert (d + rest)[1..] == d[1..] + rest;
      DigitPrefixStops(d[1..], rest);
    } else {
      assert d + rest == rest;
    }
  }

  /** Leading white space does not change what `parseInt` reads. */
  lemma SkipLeadingSpace(sp: string, t: string)
    requires AllSpace(sp) && |t| > 0 && !IsSpace(t[0])
    ensures ParseInt(sp + t) == ParseInt(t)
  {
    var s := sp + t;
    assert s[|sp|] == t[0];
    SkipSpaceTo(s, 0, |sp|);
    assert s[|sp|..] == t && s[|sp| + 1..] == t[1..];
    assert t[0..] == t;
  }

  /** Text that starts with a digit is read as the number at its front. */
  lemma ParseIntUnsigned(t: string, v: nat)
    requires |t| > 0 && IsDigit(t[0]) && LeadingNumber(t) == Some(v)
    ensures ParseInt(t) == Some(v)
  {
    assert SkipSpace(t, 0) == 0 && t[0..] == t;
  }

  /** Text that starts with a sign is read as the signed number right after it. */
  lemma ParseIntSigned(t: string, v: nat)
    requires |t| > 0 && (t[0] == '-' || t[0] == '+') && LeadingNumber(t[1..]) == Some(v)
    ensures ParseInt(t) == Some(if t[0] == '-' then Negate(v) else v)
  {
    assert SkipSpace(t, 0) == 0;
  }

  /** Unsigned digits followed by anything else are read up to the first non-digit. */
  lemma ParseIntOfDigitsThen(d: string, rest: string)
    requires |d| > 0 && AllDigits(d)
    requires |rest| == 0 || !IsDigit(rest[0])
    ensures ParseInt(d + rest) == Some(DigitsValue(d))
  {
    LeadingNumberStops(d, rest);
    assert (d + rest)[0] == d[0];
    ParseIntUnsigned(d + rest, DigitsValue(d));
  }

  /** A sign, then digits followed by anything else. */
  lemma ParseIntOfSignedDigitsThen(c: char, d: string, rest: string)
    requires c == '-' || c == '+'
    requires |d| > 0 && AllDigits(d)
    requires |rest| == 0 || !IsDigit(rest[0])
    ensures ParseInt([c] + (d + rest)) == Some(if c == '-' then Negate(DigitsValue(d)) else DigitsValue(d))
  {
    var t := [c] + (d + rest);
    LeadingNumberStops(d, rest);
    assert t[0] == c && t[1..] == d + rest;
    ParseIntSigned(t, DigitsValue(d));
  }

  /** The number at the front of `d + rest` is the value of `d` when `rest` does not continue it. */
  lemma LeadingNumberStops(d: string, rest: string)
    requires |d| > 0 && AllDigits(d)
    requires |rest| == 0 || !IsDigit(rest[0])
    ensures LeadingNumber(d + rest) == Some(DigitsValue(d))
  {
    DigitPrefixStops(d, rest);
  }

  /** An optional sign, then digits followed by anything else. */
  lemma ParseIntOfOptionalSign(sign: string, d: string, rest: string)
    requires sign == "" || sign == "-" || sign == "+"
    requires |d| > 0 && AllDigits(d)
    requires |rest| == 0 || !IsDigit(rest[0])
    ensures ParseInt(sign + (d + rest))
            == Some(if sign == "-" then Negate(DigitsValue(d)) else DigitsValue(d))
  {
    var t := sign + (d + rest);
    if sign == "" {
      assert t == d + rest;
      ParseIntOfDigitsThen(d, rest);
    } else {
      assert t == [sign[0]] + (d + rest);
      ParseIntOfSignedDigitsThen(sign[0], d, rest);
    }
  }

  /** A number's text, sign included, does not start with white space. */
  lemma NumberStartsVisibly(sign: string, d: string, rest: string)
    requires sign == "" || sign == "-" || sign == "+"
    requires |d| > 0 && AllDigits(d)
    ensures |sign + (d + rest)| > 0 && !IsSpace((sign + (d + rest))[0])
  {
    var t := sign + (d + rest);
    assert t[0] == if sign == "" then d[0] else sign[0];
  }

  /**
   * `parseInt` in general: after white space and an optional sign the longest run of
   * digits is read, and whatever follows it (a decimal point, an exponent) is ignored.
   */
  lemma {:induction false} ParseIntReadsLeadingDigits(sp: string, sign: string, d: string, rest: string)
    requires AllSpace(sp)
    requires sign == "" || sign == "-" || sign == "+"
    requires |d| > 0 && AllDigits(d)
    requires |rest| == 0 || !IsDigit(rest[0])
    ensures ParseInt(sp + (sign + (d + rest)))
            == Some(if sign == "-" then Negate(DigitsValue(d)) else DigitsValue(d))
  {
    ParseIntOfOptionalSign(sign, d, rest);
    NumberStartsVisibly(sign, d, rest);
    SkipLeadingSpace(sp, sign + (d + rest));
  }

  /** `parseInt("1.5")` is 1: the decimal point ends the number. */
  lemma ParseIntStopsAtPoint()
    ensures ParseInt("1.5") == Some(1)
  {
    assert DigitsValue("1") == 1;
    ParseIntReadsLeadingDigits("", "", "1", ".5");
    assert "" + ("" + ("1" + ".5")) == "1.5";
  }

  lemma {:induction false} DigitPrefixOfDigits(s: string)
    requires AllDigits(s)
    ensures DigitPrefix(s) == s
    decreases |s|
  {
    if |s| > 0 {
      DigitPrefixOfDigits(s[1..]);
    }
  }

  /** Input with no digit at all reads as `NaN`. */
  lemma ParseIntNoDigits(s: string)
    requires forall i :: 0 <= i < |s| ==> !IsDigit(s[i])
    ensures ParseInt(s) == None
  {
    var i := SkipSpace(s, 0);
    assert i < |s| ==> s[i..][0] == s[i];
    assert i + 1 < |s| ==> s[i + 1..][0] == s[i + 1];
  }

  /** The position of the first `c` in `s`, or `|s|` when there is none. */
  function IndexOf(s: string, c: char): (i: nat)
    ensures i <= |s| && c !in s[..i]
    ensures i < |s| ==> s[i] == c
  {
    if |s| == 0 then 0
    else if s[0] == c then 0
    else
      var k := IndexOf(s[1..], c);
      assert s[..k + 1] == [s[0]] + s[1..][..k];
      k + 1
  }

  /** The first separator after a separator-free prefix is found right after it. */
  lemma {:induction false} IndexOfAfter(a: string, c: char, b: string)
    requires c !in a
    ensures IndexOf(a + [c] + b, c) == |a|
    decreases |a|
  {
    if |a| > 0 {
      assert (a + [c] + b)[1..] == a[1..] + [c] + b;
      IndexOfAfter(a[1..], c, b);
    }
  }

  /** The digits a decimal string stands for contain no other character. */
  lemma DigitsFree(s: string, c: char)
    requires AllDigits(s) && !IsDigit(c)
    ensures c !in s
  {
  }
}
