/**
 * Shift-time arithmetic of the employee manager: the `HH:MM` 24-hour pattern that every
 * stored in-time and out-time matches, the minutes worked between two such times (a shift
 * may cross midnight once), and the `H:MM` rendering of a number of minutes.
 */
module ShiftTime {
  import opened Wrappers

  const MinutesPerHour := 60
  const MinutesPerDay := 24 * 60

  predicate IsDigit(c: char) { '0' <= c <= '9' }

  predicate AllDigits(s: string) { forall i :: 0 <= i < |s| ==> IsDigit(s[i]) }

  function DigitValue(c: char): (d: nat)
    requires IsDigit(c)
    ensures d < 10
  {
    c as int - '0' as int
  }

  function DigitChar(d: nat): (c: char)
    requires d < 10
    ensures IsDigit(c) && DigitValue(c) == d
  {
    ('0' as int + d) as char
  }

  /** The time pattern ^([01]\d|2[0-3]):([0-5]\d)$ as a predicate on the whole string. */
  predicate IsValidTime(t: string): (ok: bool)
    ensures ok ==> |t| == 5 && t[2] == ':' && AllDigits(t[..2]) && AllDigits(t[3..])
  {
    && |t| == 5
    && (|| ((t[0] == '0' || t[0] == '1') && IsDigit(t[1]))
        || (t[0] == '2' && '0' <= t[1] <= '3'))
    && t[2] == ':'
    && '0' <= t[3] <= '5' && IsDigit(t[4])
  }

  function Hour(t: string): (h: nat)
    requires IsValidTime(t)
    ensures h < 24
  {
    DigitValue(t[0]) * 10 + DigitValue(t[1])
  }

  function Minute(t: string): (m: nat)
    requires IsValidTime(t)
    ensures m < MinutesPerHour
  {
    DigitValue(t[3]) * 10 + DigitValue(t[4])
  }

  /** The `hh * 60 + mm` of a validated time: its minute of the day. */
  function MinutesOfDay(t: string): (m: nat)
    requires IsValidTime(t)
    ensures m < MinutesPerDay
    ensures m / MinutesPerHour == Hour(t) && m % MinutesPerHour == Minute(t)
  {
    Hour(t) * MinutesPerHour + Minute(t)
  }

  /** Two decimal digits, zero-padded. */
  function Pad2(n: nat): (s: string)
    requires n < 100
    ensures |s| == 2 && AllDigits(s)
  {
    [DigitChar(n / 10), DigitChar(n % 10)]
  }

  /** The zero-padded `HH:MM` spelling of a minute of the day. */
  function ClockString(m: nat): string
    requires m < MinutesPerDay
  {
    Pad2(m / MinutesPerHour) + ":" + Pad2(m % MinutesPerHour)
  }

  /** Every minute of the day has a spelling that the time pattern accepts and that reads back as that minute. */
  lemma ClockStringRoundTrip(m: nat)
    requires m < MinutesPerDay
    ensures IsValidTime(ClockString(m))
    ensures MinutesOfDay(ClockString(m)) == m
  {
    var h, mm := m / MinutesPerHour, m % MinutesPerHour;
    var t := ClockString(m);
    assert t[0] == DigitChar(h / 10) && t[1] == DigitChar(h % 10);
    assert t[3] == DigitChar(mm / 10) && t[4] == DigitChar(mm % 10);
    assert Hour(t) == h;
    assert Minute(t) == mm;
  }

  /** Every string the time pattern accepts is the spelling of its own minute of the day. */
  lemma ValidTimeIsClockString(t: string)
    requires IsValidTime(t)
    ensures ClockString(MinutesOfDay(t)) == t
  {
    var c := ClockString(MinutesOfDay(t));
    assert Hour(t) / 10 == DigitValue(t[0]) && Hour(t) % 10 == DigitValue(t[1]);
    assert Minute(t) / 10 == DigitValue(t[3]) && Minute(t) % 10 == DigitValue(t[4]);
    assert c[0] == t[0] && c[1] == t[1] && c[2] == t[2] && c[3] == t[3] && c[4] == t[4];
  }

  /**
   * minutesBetween: the out-time minus the in-time in minutes, plus one day when that is
   * negative, so a shift crosses midnight at most once.
   */
  function MinutesBetween(inTime: string, outTime: string): (d: nat)
    requires IsValidTime(inTime) && IsValidTime(outTime)
    ensures d < MinutesPerDay
    ensures (MinutesOfDay(inTime) + d) % MinutesPerDay == MinutesOfDay(outTime)
  {
    var diff := MinutesOfDay(outTime) - MinutesOfDay(inTime);
    var d := if diff < 0 then diff + MinutesPerDay else diff;
    WithinTwoDays(MinutesOfDay(inTime) + d);
    d
  }

  /** Below two days, reducing modulo a day subtracts at most one day. */
  lemma WithinTwoDays(x: int)
    requires 0 <= x < 2 * MinutesPerDay
    ensures x % MinutesPerDay == if x < MinutesPerDay then x else x - MinutesPerDay
  {
    if x < MinutesPerDay {
      assert x / MinutesPerDay == 0;
    } else {
      assert x / MinutesPerDay == 1;
    }
  }

  /** The two facts of MinutesBetween's contract determine the result: it is the one shift length under a day. */
  lemma MinutesBetweenUnique(inTime: string, outTime: string, d: int)
    requires IsValidTime(inTime) && IsValidTime(outTime)
    requires 0 <= d < MinutesPerDay
    requires (MinutesOfDay(inTime) + d) % MinutesPerDay == MinutesOfDay(outTime)
    ensures d == MinutesBetween(inTime, outTime)
  {
    var a := MinutesOfDay(inTime);
    WithinTwoDays(a + d);
    WithinTwoDays(a + MinutesBetween(inTime, outTime));
  }

  /** A shift that does not cross midnight is the plain difference; equal times give 0. */
  lemma MinutesBetweenSameDay(inTime: string, outTime: string)
    requires IsValidTime(inTime) && IsValidTime(outTime)
    requires MinutesOfDay(inTime) <= MinutesOfDay(outTime)
    ensures MinutesBetween(inTime, outTime) == MinutesOfDay(outTime) - MinutesOfDay(inTime)
    ensures inTime == outTime ==> MinutesBetween(inTime, outTime) == 0
  {
  }

  /** An out-time earlier in the day than the in-time is read as the next day: the shift gains 1440 minutes. */
  lemma MinutesBetweenOvernight(inTime: string, outTime: string)
    requires IsValidTime(inTime) && IsValidTime(outTime)
    requires MinutesOfDay(outTime) < MinutesOfDay(inTime)
    ensures MinutesBetween(inTime, outTime) == MinutesOfDay(outTime) - MinutesOfDay(inTime) + MinutesPerDay
    ensures MinutesBetween(inTime, outTime) > 0
  {
  }

  /** The decimal spelling of n with no leading zero: what `ostream << int` writes for n >= 0. */
  function DecimalString(n: nat): (s: string)
    ensures |s| >= 1 && AllDigits(s)
    ensures n < 10 <==> |s| == 1
    ensures s[0] == '0' ==> n == 0
    decreases n
  {
    if n < 10 then [DigitChar(n)] else DecimalString(n / 10) + [DigitChar(n % 10)]
  }

  /** The number a string of decimal digits denotes. */
  function DigitsValue(s: string): nat
    requires AllDigits(s)
  {
    if s == [] then 0 else DigitsValue(s[..|s| - 1]) * 10 + DigitValue(s[|s| - 1])
  }

  /**
   * formatMinutesToHHMM: whole hours unpadded, a colon, then the remaining minutes as
   * exactly two zero-padded digits.
   */
  function FormatMinutes(minutes: nat): (s: string)
    ensures |s| >= 4 && s[|s| - 3] == ':'
    ensures AllDigits(s[..|s| - 3]) && AllDigits(s[|s| - 2..])
    ensures minutes < MinutesPerDay ==> |s| <= 5
  {
    DecimalString(minutes / MinutesPerHour) + ":" + Pad2(minutes % MinutesPerHour)
  }

  /**
   * Reads an `H:MM` duration back: one or more hour digits, a colon, exactly two minute
   * digits below 60. This is the inverse of FormatMinutes.
   */
  function ParseDuration(s: string): Option<nat> {
    if |s| >= 4 && s[|s| - 3] == ':' && AllDigits(s[..|s| - 3]) && AllDigits(s[|s| - 2..]) then
      var mm := DigitsValue(s[|s| - 2..]);
      if mm < MinutesPerHour then Some(DigitsValue(s[..|s| - 3]) * MinutesPerHour + mm) else None
    else
      None
  }

  lemma {:induction false} DecimalStringValue(n: nat)
    ensures DigitsValue(DecimalString(n)) == n
    decreases n
  {
    if n >= 10 {
      DecimalStringValue(n / 10);
      var s := DecimalString(n);
      assert s[..|s| - 1] == DecimalString(n / 10);
    }
  }

  /** A digit string whose first digit is not 0 denotes a positive number. */
  lemma {:induction false} LeadingDigitPositive(s: string)
    requires |s| >= 1 && AllDigits(s) && s[0] != '0'
    ensures DigitsValue(s) >= 1
    decreases |s|
  {
    if |s| > 1 {
      LeadingDigitPositive(s[..|s| - 1]);
    }
  }

  /** A digit string with no leading zero is the decimal spelling of its own value. */
  lemma {:induction false} CanonicalDigitsRoundTrip(s: string)
    requires |s| >= 1 && AllDigits(s)
    requires s[0] == '0' ==> |s| == 1
    ensures DecimalString(DigitsValue(s)) == s
    decreases |s|
  {
    var v := DigitsValue(s);
    if |s| == 1 {
      assert DigitsValue(s[..0]) == 0;
      assert DecimalString(v) == [s[0]];
    } else {
      var p := s[..|s| - 1];
      LeadingDigitPositive(p);
      CanonicalDigitsRoundTrip(p);
      assert v / 10 == DigitsValue(p) && v % 10 == DigitValue(s[|s| - 1]);
      assert DecimalString(v) == p + [s[|s| - 1]];
    }
  }

  lemma TwoDigitsValue(n: nat)
    requires n < 100
    ensures DigitsValue(Pad2(n)) == n
  {
    var s := Pad2(n);
    assert s[..1][..0] == [];
    assert DigitsValue(s[..1]) == n / 10;
    assert DigitsValue(s) == DigitsValue(s[..1]) * 10 + n % 10;
  }

  /** Parsing what FormatMinutes wrote gives back the minutes: 510 is written "8:30" and read as 510. */
  lemma FormatMinutesRoundTrip(minutes: nat)
    ensures ParseDuration(FormatMinutes(minutes)) == Some(minutes)
  {
    var h, mm := minutes / MinutesPerHour, minutes % MinutesPerHour;
    var s := FormatMinutes(minutes);
    assert s[..|s| - 3] == DecimalString(h);
    assert s[|s| - 2..] == Pad2(mm);
    DecimalStringValue(h);
    TwoDigitsValue(mm);
  }

  /** Conversely, a duration with no leading zero in its hours is exactly what FormatMinutes writes for its value. */
  lemma ParseDurationRoundTrip(s: string)
    requires ParseDuration(s).Some?
    requires s[0] == '0' ==> |s| == 4
    ensures FormatMinutes(ParseDuration(s).value) == s
  {
    var hs, ms := s[..|s| - 3], s[|s| - 2..];
    var h, mm := DigitsValue(hs), DigitsValue(ms);
    var m := ParseDuration(s).value;
    assert m == h * MinutesPerHour + mm;
    assert m / MinutesPerHour == h && m % MinutesPerHour == mm;
    CanonicalDigitsRoundTrip(hs);
    assert |ms| == 2 && ms[..1][..0] == [];
    assert DigitsValue(ms[..1]) == DigitValue(ms[0]);
    assert mm == DigitValue(ms[0]) * 10 + DigitValue(ms[1]);
    assert mm / 10 == DigitValue(ms[0]) && mm % 10 == DigitValue(ms[1]);
    assert ms == Pad2(mm);
    assert s == hs + ":" + ms;
  }

  /** The worked examples: a day shift of 510 minutes shown as "8:30", and a night shift of 480 minutes. */
  lemma ShiftExamples()
    ensures MinutesBetween("09:00", "17:30") == 510
    ensures FormatMinutes(510) == "8:30"
    ensures MinutesBetween("22:00", "06:00") == 480
  {
  }
}
