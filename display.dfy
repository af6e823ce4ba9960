/** The arithmetic and text of updateDisplay and updateStreakDisplay: the
    countdown as "MM:SS", the total focus time as "<h>h <m>m", and the current
    streak as "<n> day" or "<n> days". Writing the text into the page is not
    part of this model. */
module Display {

  predicate IsDigits(s: string)
  {
    forall i :: 0 <= i < |s| ==> '0' <= s[i] <= '9'
  }

  function DigitChar(d: nat): (c: char)
    requires d < 10
    ensures '0' <= c <= '9' && c as int - '0' as int == d
  {
    "0123456789"[d]
  }

  /** The decimal digits of n, most significant first, with no leading zero. */
  function NatToString(n: nat): (s: string)
    ensures IsDigits(s) && 1 <= |s|
    ensures n < 10 ==> |s| == 1
    ensures n < 100 ==> |s| <= 2
    decreases n
  {
    if n < 10 then [DigitChar(n)] else NatToString(n / 10) + [DigitChar(n % 10)]
  }

  /** The number a string of decimal digits denotes. */
  function DigitsValue(s: string): nat
    requires IsDigits(s)
  {
    if s == [] then 0
    else DigitsValue(s[..|s| - 1]) * 10 + (s[|s| - 1] as int - '0' as int)
  }

  lemma {:induction false} NatToStringReadsBack(n: nat)
    ensures DigitsValue(NatToString(n)) == n
    decreases n
  {
    if n >= 10 {
      var s := NatToString(n);
      NatToStringReadsBack(n / 10);
      assert s[..|s| - 1] == NatToString(n / 10);
    }
  }

  /** JavaScript's String(n) for an integer n small enough that JavaScript
      writes it out in plain decimal digits. */
  function IntToString(n: int): (s: string)
    ensures n >= 0 ==> 1 <= |s| && IsDigits(s)
    ensures n < 0 ==> 2 <= |s| && s[0] == '-' && IsDigits(s[1..])
  {
    if n < 0 then
      var s := "-" + NatToString(-n);
      assert s[1..] == NatToString(-n);
      s
    else
      NatToString(n)
  }

  /** The text of n reads back as n: its digits denote n, after a '-' when n
      is negative. */
  lemma IntToStringReadsBack(n: int)
    ensures n >= 0 ==> DigitsValue(IntToString(n)) == n
    ensures n < 0 ==> DigitsValue(IntToString(n)[1..]) == -n
  {
    if n < 0 {
      NatToStringReadsBack(-n);
      assert IntToString(n)[1..] == NatToString(-n);
    } else {
      NatToStringReadsBack(n);
    }
  }

  /** String.prototype.padStart(2, '0'). */
  function PadStart2(s: string): (r: string)
    ensures |r| == if |s| < 2 then 2 else |s|
    ensures r[|r| - |s|..] == s
    ensures forall i :: 0 <= i < |r| - |s| ==> r[i] == '0'
  {
    if |s| == 0 then "00" else if |s| == 1 then "0" + s else s
  }

  lemma {:induction false} LeadingZeroKeepsValue(s: string)
    requires IsDigits(s)
    ensures IsDigits("0" + s) && DigitsValue("0" + s) == DigitsValue(s)
    decreases |s|
  {
    if s != [] {
      var z := "0" + s;
      assert z[..|z| - 1] == "0" + s[..|s| - 1];
      LeadingZeroKeepsValue(s[..|s| - 1]);
    }
  }

  /** Padding a digit string to two characters denotes the same number. */
  lemma PadKeepsValue(s: string)
    requires IsDigits(s)
    ensures IsDigits(PadStart2(s)) && DigitsValue(PadStart2(s)) == DigitsValue(s)
  {
    if |s| == 0 {
      LeadingZeroKeepsValue(s);
      LeadingZeroKeepsValue("0" + s);
      assert PadStart2(s) == "0" + ("0" + s);
    } else if |s| == 1 {
      LeadingZeroKeepsValue(s);
    }
  }

  /** JavaScript's a % b for b > 0: the remainder takes the sign of a. (Dafny's
      own % is Euclidean; for b > 0 its a / b is Math.floor(a / b).) */
  function JsRem(a: int, b: int): (r: int)
    requires b > 0
    ensures a >= 0 ==> 0 <= r < b
    ensures a < 0 ==> -b < r <= 0
    ensures exists q :: a == q * b + r
  {
    if a >= 0 then
      assert a == (a / b) * b + a % b;
      a % b
    else
      var q := -((-a) / b);
      assert -a == ((-a) / b) * b + (-a) % b;
      assert a == q * b + -((-a) % b);
      -((-a) % b)
  }

  /** Math.floor(timeLeft / 60) and timeLeft % 60. */
  function ClockParts(timeLeft: int): (p: (int, int))
    ensures timeLeft >= 0 ==> 0 <= p.0 && 0 <= p.1 < 60 && p.0 * 60 + p.1 == timeLeft
    ensures timeLeft < 0 ==> p.0 < 0 && -60 < p.1 <= 0
    ensures p.0 * 60 <= timeLeft < p.0 * 60 + 60
  {
    (timeLeft / 60, JsRem(timeLeft, 60))
  }

  /** Minutes and seconds, each padded to two characters, joined by ':'. */
  function Clock(minutes: int, seconds: int): string
  {
    PadStart2(IntToString(minutes)) + ":" + PadStart2(IntToString(seconds))
  }

  /** The countdown text. */
  function ClockText(timeLeft: int): string
  {
    var p := ClockParts(timeLeft);
    Clock(p.0, p.1)
  }

  /** text reads as minutes:seconds: the digits before the ':' denote the
      minutes and the two digits after it the seconds. */
  ghost predicate ClockReading(text: string, minutes: int, seconds: int)
  {
    && |text| >= 5 && text[|text| - 3] == ':'
    && IsDigits(text[..|text| - 3]) && IsDigits(text[|text| - 2..])
    && DigitsValue(text[..|text| - 3]) == minutes
    && DigitsValue(text[|text| - 2..]) == seconds
  }

  /** The text of whole minutes and seconds below 60 splits back into them
      at the ':'; below 100 minutes it is exactly five characters. */
  lemma ClockReadsBack(minutes: int, seconds: int)
    requires minutes >= 0 && 0 <= seconds < 60
    ensures ClockReading(Clock(minutes, seconds), minutes, seconds)
    ensures minutes < 100 ==> |Clock(minutes, seconds)| == 5
  {
    var m, s := IntToString(minutes), IntToString(seconds);
    IntToStringReadsBack(minutes);
    IntToStringReadsBack(seconds);
    PadKeepsValue(m);
    PadKeepsValue(s);
    var mm, ss := PadStart2(m), PadStart2(s);
    assert |ss| == 2;
    JoinedDigits(mm, ss);
    assert Clock(minutes, seconds) == mm + ":" + ss;
  }

  /** A non-negative countdown reads back from its text as whole minutes and
      the seconds below 60 that make it up: Math.floor(timeLeft / 60) and
      timeLeft % 60. */
  lemma ClockTextReadsBack(timeLeft: int)
    requires timeLeft >= 0
    ensures ClockReading(ClockText(timeLeft), timeLeft / 60, timeLeft % 60)
    ensures 0 <= timeLeft % 60 < 60 && (timeLeft / 60) * 60 + timeLeft % 60 == timeLeft
  {
    var p := ClockParts(timeLeft);
    assert p == (timeLeft / 60, timeLeft % 60);
    ClockReadsBack(p.0, p.1);
  }

  /** Below 100 minutes the countdown text is exactly "MM:SS". */
  lemma ClockTextIsFiveChars(timeLeft: int)
    requires 0 <= timeLeft < 6000
    ensures var text := ClockText(timeLeft);
      |text| == 5 && text[2] == ':'
  {
    var p := ClockParts(timeLeft);
    ClockReadsBack(p.0, p.1);
  }

  /** "MM:SS" splits back into the two digit strings it was joined from. */
  lemma JoinedDigits(mm: string, ss: string)
    requires |mm| >= 2 && |ss| == 2 && IsDigits(mm) && IsDigits(ss)
    ensures var text := mm + ":" + ss;
      && |text| >= 5 && text[|text| - 3] == ':'
      && IsDigits(text[..|text| - 3]) && IsDigits(text[|text| - 2..])
      && DigitsValue(text[..|text| - 3]) == DigitsValue(mm)
      && DigitsValue(text[|text| - 2..]) == DigitsValue(ss)
  {
    var text := mm + ":" + ss;
    assert text[..|text| - 3] == mm;
    assert text[|text| - 2..] == ss;
  }

  /** Math.floor(total / 3600) and Math.floor((total % 3600) / 60). */
  function FocusParts(totalFocusSeconds: int): (p: (int, int))
    ensures totalFocusSeconds >= 0 ==>
      && 0 <= p.0 && 0 <= p.1 < 60
      && p.0 * 3600 + p.1 * 60 <= totalFocusSeconds < p.0 * 3600 + p.1 * 60 + 60
  {
    (totalFocusSeconds / 3600, JsRem(totalFocusSeconds, 3600) / 60)
  }

  /** The total focus text, "<hours>h <minutes>m". */
  function FocusText(totalFocusSeconds: int): (text: string)
    ensures |text| >= 5 && text[|text| - 1] == 'm'
  {
    var (hours, minutes) := FocusParts(totalFocusSeconds);
    IntToString(hours) + "h " + IntToString(minutes) + "m"
  }

  /** A non-negative total reads back from its text: the digits before "h "
      are the whole hours, the digits between it and the final 'm' the
      minutes (below 60), and together they are the total rounded down to a
      whole minute. */
  lemma FocusTextReadsBack(totalFocusSeconds: int)
    requires totalFocusSeconds >= 0
    ensures var text := FocusText(totalFocusSeconds);
      var n := |NatToString(totalFocusSeconds / 3600)|;
      && n + 3 < |text| && text[n..n + 2] == "h " && text[|text| - 1] == 'm'
      && IsDigits(text[..n]) && IsDigits(text[n + 2..|text| - 1])
      && var hours, minutes := DigitsValue(text[..n]), DigitsValue(text[n + 2..|text| - 1]);
      && minutes < 60
      && hours * 3600 + minutes * 60 <= totalFocusSeconds < hours * 3600 + minutes * 60 + 60
  {
    var p := FocusParts(totalFocusSeconds);
    IntToStringReadsBack(p.0);
    IntToStringReadsBack(p.1);
    var hh := IntToString(p.0);
    var mm := IntToString(p.1);
    var text := FocusText(totalFocusSeconds);
    assert text == hh + "h " + mm + "m";
    var n := |hh|;
    assert text[..n] == hh;
    assert text[n..n + 2] == "h ";
    assert text[n + 2..|text| - 1] == mm;
  }

  /** The unit word of the streak text. */
  function StreakUnit(streak: int): (unit: string)
    ensures unit == "day" <==> streak == 1
    ensures unit == "day" || unit == "days"
  {
    if streak == 1 then "day" else "days"
  }

  /** The streak text, "<n> day" or "<n> days". */
  function StreakText(streak: nat): (text: string)
    ensures |text| >= 5
    ensures text[|text| - |StreakUnit(streak)|..] == StreakUnit(streak)
  {
    NatToString(streak) + " " + StreakUnit(streak)
  }

  /** The streak text reads back as the number and the right unit word. */
  lemma StreakTextReadsBack(streak: nat)
    ensures var text := StreakText(streak);
      var n := |NatToString(streak)|;
      && n < |text| && IsDigits(text[..n]) && DigitsValue(text[..n]) == streak
      && text[n] == ' ' && (text[n + 1..] == "day" <==> streak == 1)
  {
    var text := StreakText(streak);
    var n := |NatToString(streak)|;
    assert text[..n] == NatToString(streak);
    assert text[n + 1..] == StreakUnit(streak);
    NatToStringReadsBack(streak);
  }
}
