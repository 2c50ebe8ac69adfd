/** Text rendering of durations the way the service prints worked time: whole hours
    (at least two digits, not wrapped at 24), then minutes and seconds of the hour,
    each through the two-digit "00" custom format; and a parser for that text. */
module TimeText {
  import opened Wrappers

  predicate IsDigit(c: char) {
    '0' <= c <= '9'
  }

  predicate AllDigits(s: string) {
    forall i | 0 <= i < |s| :: IsDigit(s[i])
  }

  function DigitValue(c: char): (d: nat)
    requires IsDigit(c)
    ensures d < 10
  {
    c as int - '0' as int
  }

  function DigitChar(d: nat): (c: char)
    requires d < 10
    ensures IsDigit(c) && DigitValue(c) == d
  {
    ('0' as int + d) as char
  }

  /** Decimal digits of `n`, most significant first, with no leading zero. */
  function NatToDigits(n: nat): (s: string)
    ensures 1 <= |s| && AllDigits(s)
    ensures n < 10 <==> |s| == 1
    ensures n < 100 ==> |s| <= 2
    decreases n
  {
    if n < 10 then [DigitChar(n)] else NatToDigits(n / 10) + [DigitChar(n % 10)]
  }

  /** The number a string of decimal digits denotes. */
  function DigitsToNat(s: string): nat
    requires AllDigits(s)
    decreases |s|
  {
    if |s| == 0 then 0 else DigitsToNat(s[..|s| - 1]) * 10 + DigitValue(s[|s| - 1])
  }

  /** Reading back the digits of `n` gives `n`. */
  lemma {:induction false} DigitsRoundTrip(n: nat)
    ensures DigitsToNat(NatToDigits(n)) == n
    decreases n
  {
    if n >= 10 {
      var s := NatToDigits(n);
      assert s[..|s| - 1] == NatToDigits(n / 10);
      DigitsRoundTrip(n / 10);
    }
  }

  /** The decimal digits of a positive number have no leading zero. */
  lemma {:induction false} NoLeadingZero(n: nat)
    ensures n >= 1 ==> NatToDigits(n)[0] != '0'
    decreases n
  {
    if n >= 10 {
      NoLeadingZero(n / 10);
    }
  }

  /** The "00" custom format of a non-negative number: at least two digits, and
      no padding beyond two (from 10 on, no leading zero). */
  function Pad2(n: nat): (s: string)
    ensures 2 <= |s| && AllDigits(s)
    ensures n < 100 ==> |s| == 2
    ensures n >= 10 ==> s[0] != '0'
    ensures DigitsToNat(s) == n
  {
    DigitsRoundTrip(n);
    NoLeadingZero(n);
    if n < 10 then
      var s := ['0'] + NatToDigits(n);
      assert s[..1] == ['0'];
      s
    else
      NatToDigits(n)
  }

  /** The "00" custom format of a signed number: a minus sign, then the magnitude
      with at least two digits. */
  function Component(v: int): (s: string)
    ensures v >= 0 ==> s == Pad2(v)
    ensures v < 0 ==> s == ['-'] + Pad2(-v)
  {
    if v < 0 then ['-'] + Pad2(-v) else Pad2(v)
  }

  /** Integer division truncating toward zero, as C# integer division does. */
  function TruncDiv(a: int, b: int): (q: int)
    requires b > 0
    ensures a >= 0 ==> q == a / b
    ensures a < 0 ==> q == -((-a) / b)
  {
    if a >= 0 then a / b else -((-a) / b)
  }

  /** The remainder matching `TruncDiv`: it takes the sign of the dividend. */
  function TruncRem(a: int, b: int): (r: int)
    requires b > 0
    ensures a == b * TruncDiv(a, b) + r
    ensures a >= 0 ==> r == a % b
    ensures a < 0 ==> r == -((-a) % b)
  {
    a - b * TruncDiv(a, b)
  }

  /** The worked-time text of a span of `d` seconds: the span's whole hours
      (truncated, so possibly beyond 24), its minutes component and its seconds
      component, each in the "00" format and separated by colons. The components
      of a negative span are truncated toward zero and carry their own sign. */
  function FormatDuration(d: int): (s: string)
    ensures |s| >= 8
  {
    var c := Components(d);
    Clock(c.0, c.1, c.2)
  }

  /** Whole hours, minutes component and seconds component of a span of `d`
      seconds, each truncated toward zero. */
  function Components(d: int): (int, int, int) {
    (TruncDiv(d, 3600), TruncRem(TruncDiv(d, 60), 60), TruncRem(d, 60))
  }

  /** Three signed components in the "00" format, separated by colons. */
  function Clock(h: int, m: int, sec: int): (s: string)
    ensures |s| >= 8
  {
    Component(h) + ":" + Component(m) + ":" + Component(sec)
  }

  /** Splits `H…H:MM:SS` at its last two colons into hours, minutes and seconds. */
  function SplitClock(s: string): Option<(string, string, string)> {
    if |s| < 8 || s[|s| - 6] != ':' || s[|s| - 3] != ':' then None
    else Some((s[..|s| - 6], s[|s| - 5..|s| - 3], s[|s| - 2..]))
  }

  /** The seconds denoted by digit-only hours, minutes and seconds fields, the last
      two below 60. */
  function ParseFields(h: string, m: string, sec: string): (r: Option<int>)
    ensures r.Some? ==> r.value >= 0
  {
    if AllDigits(h) && AllDigits(m) && AllDigits(sec) && DigitsToNat(m) < 60 && DigitsToNat(sec) < 60
    then Some(DigitsToNat(h) * 3600 + DigitsToNat(m) * 60 + DigitsToNat(sec))
    else None
  }

  /** Reads `H…H:MM:SS` (two or more hour digits, minutes and seconds below 60)
      back into seconds; any other text is rejected. */
  function ParseDuration(s: string): (r: Option<int>)
    ensures r.Some? ==> r.value >= 0
  {
    match SplitClock(s)
    case None => None
    case Some((h, m, sec)) => ParseFields(h, m, sec)
  }

  lemma HourMinuteSecond(d: nat)
    ensures (d / 60) / 60 == d / 3600
    ensures d == (d / 3600) * 3600 + ((d / 60) % 60) * 60 + d % 60
  {
  }

  /** Reading `H:MM:SS` built from well-formed parts gives the seconds they denote. */
  lemma ParseParts(H: string, M: string, S: string)
    requires AllDigits(H) && AllDigits(M) && AllDigits(S)
    requires |H| >= 2 && |M| == 2 && |S| == 2
    requires DigitsToNat(M) < 60 && DigitsToNat(S) < 60
    ensures ParseDuration(H + ":" + M + ":" + S)
      == Some(DigitsToNat(H) * 3600 + DigitsToNat(M) * 60 + DigitsToNat(S))
  {
    SplitParts(H, M, S);
    ParseSplit(H + ":" + M + ":" + S, H, M, S);
  }

  /** Text that splits into well-formed parts reads as the seconds they denote. */
  lemma ParseSplit(s: string, H: string, M: string, S: string)
    requires AllDigits(H) && AllDigits(M) && AllDigits(S)
    requires DigitsToNat(M) < 60 && DigitsToNat(S) < 60
    requires SplitClock(s) == Some((H, M, S))
    ensures ParseDuration(s) == Some(DigitsToNat(H) * 3600 + DigitsToNat(M) * 60 + DigitsToNat(S))
  {
    assert ParseDuration(s) == ParseFields(H, M, S);
  }

  /** `H:MM:SS` splits back into its three parts. */
  lemma SplitParts(H: string, M: string, S: string)
    requires |H| >= 2 && |M| == 2 && |S| == 2
    ensures SplitClock(H + ":" + M + ":" + S) == Some((H, M, S))
  {
    var s := H + ":" + M + ":" + S;
    assert s[..|s| - 6] == H && s[|s| - 5..|s| - 3] == M && s[|s| - 2..] == S;
  }

  /** The seconds part carries a sign, so the second colon is missing. */
  lemma RejectSignedSeconds(H: string, M: string, S: string)
    requires |S| == 3 && S[0] == '-'
    ensures ParseDuration(H + ":" + M + ":" + S) == None
  {
    var s := H + ":" + M + ":" + S;
    assert s[|s| - 3] == S[0];
  }

  /** The minutes part carries a sign, so the first colon is missing. */
  lemma RejectSignedMinutes(H: string, M: string, S: string)
    requires |S| == 2 && |M| == 3 && M[0] == '-'
    ensures ParseDuration(H + ":" + M + ":" + S) == None
  {
    var s := H + ":" + M + ":" + S;
    assert s[|s| - 6] == M[0];
  }

  /** The hours part carries a sign, which is not a digit. */
  lemma RejectSignedHours(H: string, M: string, S: string)
    requires |S| == 2 && |M| == 2 && |H| >= 2 && H[0] == '-'
    ensures ParseDuration(H + ":" + M + ":" + S) == None
  {
    SplitParts(H, M, S);
    assert !IsDigit(H[0]);
  }

  /** The worked-time text of a non-negative span reads back as that span: hours
      come first with at least two digits, minutes and seconds are both in 00..59. */
  lemma FormatParseRoundTrip(d: int)
    requires d >= 0
    ensures ParseDuration(FormatDuration(d)) == Some(d)
  {
    var h, m, sec := d / 3600, (d / 60) % 60, d % 60;
    NonNegativeComponents(d);
    ClockRoundTrip(h, m, sec);
  }

  /** A non-negative span's components are its whole hours, the minutes left over
      and the seconds left over. */
  lemma NonNegativeComponents(d: int)
    requires d >= 0
    ensures Components(d) == (d / 3600, (d / 60) % 60, d % 60)
    ensures FormatDuration(d) == Clock(d / 3600, (d / 60) % 60, d % 60)
    ensures d == (d / 3600) * 3600 + ((d / 60) % 60) * 60 + d % 60
  {
    assert TruncDiv(d, 60) == d / 60;
    HourMinuteSecond(d);
  }

  /** Non-negative components, minutes and seconds below 60, read back as the
      seconds they add up to. */
  lemma ClockRoundTrip(h: int, m: int, sec: int)
    requires h >= 0 && 0 <= m < 60 && 0 <= sec < 60
    ensures ParseDuration(Clock(h, m, sec)) == Some(h * 3600 + m * 60 + sec)
  {
    assert Clock(h, m, sec) == Pad2(h) + ":" + Pad2(m) + ":" + Pad2(sec);
    PadsParse(h, m, sec);
  }

  /** The padded fields of non-negative components read back as their seconds. */
  lemma PadsParse(h: nat, m: nat, sec: nat)
    requires m < 60 && sec < 60
    ensures ParseDuration(Pad2(h) + ":" + Pad2(m) + ":" + Pad2(sec)) == Some(h * 3600 + m * 60 + sec)
  {
    ParseParts(Pad2(h), Pad2(m), Pad2(sec));
  }

  /** The components of a negative span are those of its magnitude, negated;
      they are not all zero. */
  lemma NegativeComponents(d: int)
    requires d < 0
    ensures var c := Components(d);
      && c == (-((-d) / 3600), -(((-d) / 60) % 60), -((-d) % 60))
      && c.0 <= 0 && -60 < c.1 <= 0 && -60 < c.2 <= 0
      && (c.0 < 0 || c.1 < 0 || c.2 < 0)
  {
    var a := -d;
    var q := a / 60;
    var m0 := TruncDiv(d, 60);
    assert m0 == -q;
    var m := TruncRem(m0, 60);
    if q > 0 {
      assert m == -(q % 60);
    } else {
      assert m0 == 0;
      assert m == 0;
    }
    if a % 60 == 0 && q % 60 == 0 {
      WholeHours(a);
    }
  }

  /** A positive span with no minutes or seconds left over is at least an hour. */
  lemma WholeHours(a: int)
    requires a > 0 && a % 60 == 0 && (a / 60) % 60 == 0
    ensures a / 3600 >= 1
  {
    HourMinuteSecond(a);
  }

  /** Non-positive components, not all zero, never read back. */
  lemma ClockNegativeRejected(h: int, m: int, sec: int)
    requires h <= 0 && m <= 0 && sec <= 0
    requires -60 < m && -60 < sec
    requires h < 0 || m < 0 || sec < 0
    ensures ParseDuration(Clock(h, m, sec)) == None
  {
    var H, M, S := Component(h), Component(m), Component(sec);
    assert Clock(h, m, sec) == H + ":" + M + ":" + S;
    if sec < 0 {
      RejectSignedSeconds(H, M, S);
    } else if m < 0 {
      RejectSignedMinutes(H, M, S);
    } else {
      RejectSignedHours(H, M, S);
    }
  }

  /** The text of a negative span never reads back: some component carries a
      minus sign where the parser expects a digit or a colon. */
  lemma FormatNegativeRejected(d: int)
    requires d < 0
    ensures ParseDuration(FormatDuration(d)) == None
  {
    NegativeComponents(d);
    var c := Components(d);
    ClockNegativeRejected(c.0, c.1, c.2);
  }

  /** The worked-time text reads back exactly when the span is not negative. */
  lemma FormatParseIff(d: int)
    ensures ParseDuration(FormatDuration(d)).Some? <==> d >= 0
    ensures d >= 0 ==> ParseDuration(FormatDuration(d)) == Some(d)
  {
    if d >= 0 {
      FormatParseRoundTrip(d);
    } else {
      FormatNegativeRejected(d);
    }
  }

  /** Distinct non-negative spans never print the same text. */
  lemma FormatInjective(d1: int, d2: int)
    requires d1 >= 0 && d2 >= 0 && d1 != d2
    ensures FormatDuration(d1) != FormatDuration(d2)
  {
    FormatParseRoundTrip(d1);
    FormatParseRoundTrip(d2);
  }

  /** A zero span prints as the all-zero text. */
  lemma FormatZero()
    ensures FormatDuration(0) == "00:00:00"
  {
    SmallComponents(0, 0);
    ClockSingleDigits(0, 0, 0);
  }

  /** A whole number of hours splits into those hours and no minutes or seconds. */
  lemma SmallComponents(d: int, h: nat)
    requires d == h * 3600
    ensures Components(d) == (h, 0, 0)
  {
    assert d / 60 == h * 60;
  }

  /** Components below ten print as a zero and their digit each. */
  lemma ClockSingleDigits(h: nat, m: nat, sec: nat)
    requires h < 10 && m < 10 && sec < 10
    ensures Clock(h, m, sec)
      == ['0', DigitChar(h), ':', '0', DigitChar(m), ':', '0', DigitChar(sec)]
  {
    assert Pad2(h) == ['0', DigitChar(h)];
    assert Pad2(m) == ['0', DigitChar(m)];
    assert Pad2(sec) == ['0', DigitChar(sec)];
  }

  /** Six hours print as "06:00:00". */
  lemma FormatSixHours()
    ensures FormatDuration(21600) == "06:00:00"
  {
    SmallComponents(21600, 6);
    ClockSingleDigits(6, 0, 0);
  }
}
