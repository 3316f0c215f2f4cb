/**
 * formatTime: a whole number of seconds rendered as H:MM:SS when at least
 * one hour has elapsed, and as M:SS otherwise.
 */
module TimeFormat {
  import opened Wrappers

  predicate IsDigit(c: char) { '0' <= c <= '9' }

  predicate AllDigits(s: string) {
    forall k :: 0 <= k < |s| ==> IsDigit(s[k])
  }

  function DigitChar(d: nat): (c: char)
    requires d < 10
    ensures IsDigit(c) && c as int - '0' as int == d
  {
    ('0' as int + d) as char
  }

  function DigitValue(c: char): int {
    c as int - '0' as int
  }

  /** Number.prototype.toString for a non-negative integer: decimal, no leading zeros. */
  function NatToString(n: nat): (r: string)
    ensures 1 <= |r|
  {
    if n < 10 then [DigitChar(n)] else NatToString(n / 10) + [DigitChar(n % 10)]
  }

  /** The digits toString writes: decimal digits, one iff below 10, and no leading zero except for 0 itself. */
  lemma {:induction false} NatToStringDigits(n: nat)
    ensures AllDigits(NatToString(n))
    ensures |NatToString(n)| == 1 <==> n < 10
    ensures NatToString(n)[0] == '0' ==> n == 0
  {
    if n >= 10 {
      NatToStringDigits(n / 10);
      var r, q := NatToString(n), NatToString(n / 10);
      assert r == q + [DigitChar(n % 10)];
      assert r[0] == q[0];
    }
  }

  /** The value of a string read as decimal digits. */
  function DecimalValue(s: string): int {
    if s == [] then 0 else DecimalValue(s[..|s| - 1]) * 10 + DigitValue(s[|s| - 1])
  }

  lemma {:induction false} DecimalOfNatToString(n: nat)
    ensures DecimalValue(NatToString(n)) == n
  {
    if n >= 10 {
      var r := NatToString(n);
      assert r[..|r| - 1] == NatToString(n / 10);
      DecimalOfNatToString(n / 10);
    }
  }

  /**
   * String.prototype.padStart(2, '0'): the string is kept as the suffix and
   * zeros are filled in front, up to length two.
   */
  function PadStart2(s: string): (r: string)
    ensures |r| == if |s| >= 2 then |s| else 2
    ensures r[|r| - |s|..] == s
    ensures forall k :: 0 <= k < |r| - |s| ==> r[k] == '0'
  {
    if |s| >= 2 then s else if |s| == 1 then "0" + s else "00"
  }

  /** An independent reading of a two-digit field: tens digit, then units digit. */
  function TwoDigits(n: nat): string
    requires n < 100
  {
    [DigitChar(n / 10), DigitChar(n % 10)]
  }

  lemma PadStartIsTwoDigits(n: nat)
    requires n < 100
    ensures PadStart2(NatToString(n)) == TwoDigits(n)
  {
    var r := NatToString(n);
    if n < 10 {
      assert r == [DigitChar(n)];
    } else {
      assert r == NatToString(n / 10) + [DigitChar(n % 10)];
      assert NatToString(n / 10) == [DigitChar(n / 10)];
    }
  }

  /** Whole hours, minutes of the hour and seconds of the minute, as the source splits them. */
  function Split(seconds: nat): (r: (nat, nat, nat))
    ensures r.0 * 3600 + r.1 * 60 + r.2 == seconds
    ensures r.1 < 60 && r.2 < 60
  {
    var hours := seconds / 3600;
    var minutes := (seconds % 3600) / 60;
    var secs := seconds % 60;
    SplitArithmetic(seconds, hours, seconds % 3600, minutes, secs);
    (hours, minutes, secs)
  }

  lemma SplitArithmetic(seconds: nat, hours: nat, within: nat, minutes: nat, secs: nat)
    requires hours == seconds / 3600 && within == seconds % 3600
    requires minutes == within / 60 && secs == seconds % 60
    ensures hours * 3600 + minutes * 60 + secs == seconds && minutes < 60
  {
    assert seconds == hours * 3600 + within;
    assert within == minutes * 60 + within % 60;
    assert seconds == (hours * 60 + minutes) * 60 + within % 60;
    assert secs == within % 60;
  }

  /** Both fields below 100 pad to their two digits. */
  lemma PaddedFields(m: nat, s: nat)
    ensures m < 100 && s < 100 ==>
      PadStart2(NatToString(m)) == TwoDigits(m) && PadStart2(NatToString(s)) == TwoDigits(s)
  {
    if m < 100 && s < 100 {
      PadStartIsTwoDigits(m);
      PadStartIsTwoDigits(s);
    }
  }

  /**
   * The clock string for hours, minutes and seconds, as formatTime assembles
   * it: the hour field only when an hour has passed, and minutes and seconds
   * after a colon always as two digits.
   */
  function Clock(hours: nat, minutes: nat, secs: nat): (r: string)
    ensures minutes < 100 && secs < 100 && hours > 0 ==>
      r == NatToString(hours) + ":" + TwoDigits(minutes) + ":" + TwoDigits(secs)
    ensures minutes < 100 && secs < 100 && hours == 0 ==>
      r == NatToString(minutes) + ":" + TwoDigits(secs)
  {
    PaddedFields(minutes, secs);
    if hours > 0 then
      NatToString(hours) + ":" + PadStart2(NatToString(minutes)) + ":" + PadStart2(NatToString(secs))
    else
      NatToString(minutes) + ":" + PadStart2(NatToString(secs))
  }

  /**
   * Reads back a clock string of the form H:MM:SS or M:SS by position:
   * first the seconds after the last colon, then what stands before it.
   */
  function ParseClock(t: string): Option<int> {
    if |t| >= 4 && t[|t| - 3] == ':' then ParseFront(t[..|t| - 3], DecimalValue(t[|t| - 2..]))
    else None
  }

  /** H:MM or M in front of the seconds field. */
  function ParseFront(rest: string, secs: int): Option<int> {
    if |rest| >= 4 && rest[|rest| - 3] == ':' then
      Some(DecimalValue(rest[..|rest| - 3]) * 3600 + DecimalValue(rest[|rest| - 2..]) * 60 + secs)
    else if rest != [] then
      Some(DecimalValue(rest) * 60 + secs)
    else
      None
  }

  lemma TwoDigitsValue(n: nat)
    requires n < 100
    ensures DecimalValue(TwoDigits(n)) == n
  {
    var t := TwoDigits(n);
    assert t[..1] == [DigitChar(n / 10)];
    assert DecimalValue(t[..1]) == n / 10 by {
      assert t[..1][..0] == [];
    }
    assert DecimalValue(t) == (n / 10) * 10 + n % 10;
  }

  lemma ParseLastField(front: string, ss: string)
    requires |ss| == 2
    ensures ParseClock(front + ":" + ss) == ParseFront(front, DecimalValue(ss))
  {
    FieldSplit(front, ss);
  }

  lemma ParseHoursField(hs: string, mm: string, secs: int)
    requires hs != [] && |mm| == 2
    ensures ParseFront(hs + ":" + mm, secs) == Some(DecimalValue(hs) * 3600 + DecimalValue(mm) * 60 + secs)
  {
    FieldSplit(hs, mm);
  }

  /** Where the last colon of front + ":" + back sits when back has two characters. */
  lemma FieldSplit(front: string, back: string)
    requires |back| == 2
    ensures var t := front + ":" + back;
      |t| == |front| + 3 && t[|t| - 3] == ':' && t[..|t| - 3] == front && t[|t| - 2..] == back
  {
    var t := front + ":" + back;
    assert t[..|t| - 3] == front;
    assert t[|t| - 2..] == back;
  }

  /** H:MM:SS reads back as n = h·3600 + m·60 + s. */
  lemma ParseHoursLayout(h: nat, m: nat, s: nat, n: nat, text: string)
    requires m < 100 && s < 100 && n == h * 3600 + m * 60 + s
    requires text == NatToString(h) + ":" + TwoDigits(m) + ":" + TwoDigits(s)
    ensures ParseClock(text) == Some(n)
  {
    var hs, mm, ss := NatToString(h), TwoDigits(m), TwoDigits(s);
    TwoDigitsValue(m);
    TwoDigitsValue(s);
    DecimalOfNatToString(h);
    ParseLastField(hs + ":" + mm, ss);
    ParseHoursField(hs, mm, s);
  }

  /** M:SS with minutes below 60 reads back as n = m·60 + s. */
  lemma ParseMinutesLayout(m: nat, s: nat, n: nat, text: string)
    requires m < 60 && s < 100 && n == m * 60 + s
    requires text == NatToString(m) + ":" + TwoDigits(s)
    ensures ParseClock(text) == Some(n)
  {
    TwoDigitsValue(s);
    DecimalOfNatToString(m);
    ParseLastField(NatToString(m), TwoDigits(s));
  }

  /** The clock string for h, m and s reads back as n = h·3600 + m·60 + s. */
  lemma ParseClockOfClock(h: nat, m: nat, s: nat, n: nat, text: string)
    requires m < 60 && s < 60 && n == h * 3600 + m * 60 + s
    requires text == Clock(h, m, s)
    ensures ParseClock(text) == Some(n)
  {
    if h > 0 {
      ParseHoursLayout(h, m, s, n, text);
    } else {
      ParseMinutesLayout(m, s, n, text);
    }
  }

  /**
   * formatTime: split the duration, then lay out the fields. It loses
   * nothing: the clock string reads back as the same number of seconds.
   */
  function FormatTime(seconds: nat): (r: string)
    ensures ParseClock(r) == Some(seconds)
  {
    var split := Split(seconds);
    var text := Clock(split.0, split.1, split.2);
    ParseClockOfClock(split.0, split.1, split.2, seconds, text);
    text
  }

  /** Distinct durations are never shown as the same string. */
  lemma FormatTimeInjective(a: nat, b: nat)
    requires FormatTime(a) == FormatTime(b)
    ensures a == b
  {
    assert Some(a) == ParseClock(FormatTime(a)) == ParseClock(FormatTime(b)) == Some(b);
  }
}
