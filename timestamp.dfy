/**
 * The LRC timestamp formatter `format_timestamp`, which exists twice with the
 * same body (the service and the command-line script).
 *
 * The start time arrives as a Python float of seconds and goes through
 * `timedelta(seconds=...)`, which rounds it to whole microseconds. The model
 * starts after that step: the input is a natural number of microseconds.
 * The formatter then reads `td.seconds` (the seconds within the last whole
 * day, 0..86399) and `td.microseconds` (0..999999), so whole days are lost,
 * and it truncates the microseconds to hundredths.
 */
module Timestamp {
  import opened Text
  import opened Wrappers

  /** Microseconds in one day, the period after which `td.seconds` repeats. */
  const MicrosPerDay: nat := 86_400_000_000

  /** The three numbers printed in `[MM:SS.CC]`. */
  datatype Clock = Clock(minutes: nat, seconds: nat, hundredths: nat)

  // ---------------------------------------------------------------------------
  // decimal digits, as `f"{n:02d}"` prints them

  predicate IsDigit(c: char) { '0' <= c <= '9' }

  predicate AllDigits(s: string) { forall k :: 0 <= k < |s| ==> IsDigit(s[k]) }

  function DigitChar(d: nat): (c: char)
    requires d < 10
    ensures IsDigit(c)
  {
    ('0' as int + d) as char
  }

  function DigitValue(c: char): (d: nat)
    requires IsDigit(c)
    ensures d < 10
  {
    c as int - '0' as int
  }

  /** Python's `str(n)` for a non-negative integer: no sign, no leading zero. */
  function Decimal(n: nat): (s: string)
    ensures |s| >= 1 && AllDigits(s)
    ensures s[0] == '0' ==> n == 0
  {
    if n < 10 then [DigitChar(n)] else Decimal(n / 10) + [DigitChar(n % 10)]
  }

  /** The number a string of decimal digits denotes. */
  function DecimalValue(s: string): nat
    requires AllDigits(s)
  {
    if s == [] then 0 else 10 * DecimalValue(s[..|s| - 1]) + DigitValue(s[|s| - 1])
  }

  /** Python's `f"{n:02d}"`: at least two digits, zero-padded, never cut. */
  function Pad2(n: nat): string {
    var d := Decimal(n);
    if |d| < 2 then "0" + d else d
  }

  /** The padded text is all digits, at least two of them, and denotes `n`. */
  lemma Pad2Digits(n: nat)
    ensures AllDigits(Pad2(n))
    ensures |Pad2(n)| == if n < 100 then 2 else |Decimal(n)|
    ensures n >= 100 ==> |Pad2(n)| >= 3
    ensures DecimalValue(Pad2(n)) == n
  {
    DecimalLength(n);
    DecimalRoundTrip(n);
    var d := Decimal(n);
    if |d| < 2 {
      LeadingZero(d);
    }
  }

  lemma {:induction false} DecimalRoundTrip(n: nat)
    ensures DecimalValue(Decimal(n)) == n
    decreases n
  {
    if n >= 10 {
      DecimalRoundTrip(n / 10);
      var s := Decimal(n);
      assert s[..|s| - 1] == Decimal(n / 10);
    }
  }

  lemma {:induction false} DecimalLength(n: nat)
    ensures |Decimal(n)| == 1 <==> n < 10
    ensures |Decimal(n)| == 2 <==> 10 <= n < 100
  {
    if n >= 10 {
      if n >= 100 {
        assert |Decimal(n / 10)| >= 2 by { DecimalLength(n / 10); }
      }
    }
  }

  /** A zero in front does not change the number. */
  lemma {:induction false} LeadingZero(s: string)
    requires AllDigits(s)
    ensures AllDigits("0" + s) && DecimalValue("0" + s) == DecimalValue(s)
    decreases |s|
  {
    if s != [] {
      var t := "0" + s;
      assert t[..|t| - 1] == "0" + s[..|s| - 1];
      LeadingZero(s[..|s| - 1]);
    }
  }

  // ---------------------------------------------------------------------------
  // the formatter

  /**
   * The fields `format_timestamp` prints: `divmod(td.seconds, 60)` and
   * `int(td.microseconds / 10000)`. For an integer below 10^6 the float
   * quotient truncated by `int` equals integer division, since the true
   * quotient is at least 1/10000 away from the next integer.
   */
  function ClockOf(us: nat): (c: Clock)
    ensures c.minutes < 1440 && c.seconds < 60 && c.hundredths < 100
  {
    var daySeconds := (us / 1_000_000) % 86_400;   // td.seconds
    var micros := us % 1_000_000;                  // td.microseconds
    Clock(daySeconds / 60, daySeconds % 60, micros / 10_000)
  }

  /** `format_timestamp`: `[MM:SS.CC]`, each field printed with `{:02d}`. */
  function Format(us: nat): string {
    var c := ClockOf(us);
    "[" + Pad2(c.minutes) + ":" + Pad2(c.seconds) + "." + Pad2(c.hundredths) + "]"
  }

  /**
   * Reads a `[M:S.C]` timestamp back into its three numbers; each field
   * must be a non-empty run of digits.
   */
  function ParseClock(t: string): Option<Clock> {
    if |t| < 2 || t[0] != '[' || t[|t| - 1] != ']' then None
    else
      var outer := Split(t[1..|t| - 1], ':');
      if |outer| != 2 || !IsNumber(outer[0]) then None
      else
        var inner := Split(outer[1], '.');
        if |inner| != 2 || !IsNumber(inner[0]) || !IsNumber(inner[1]) then None
        else Some(Clock(DecimalValue(outer[0]), DecimalValue(inner[0]), DecimalValue(inner[1])))
  }

  predicate IsNumber(s: string) { s != [] && AllDigits(s) }

  // ---------------------------------------------------------------------------
  // properties

  lemma DigitsHaveNo(s: string, c: char)
    requires AllDigits(s) && !IsDigit(c)
    ensures c !in s
  {
  }

  /** A bracketed `M:S.C` of three digit runs reads back as those three numbers. */
  lemma ParseFields(m: string, sec: string, h: string)
    requires IsNumber(m) && IsNumber(sec) && IsNumber(h)
    ensures ParseClock("[" + m + ":" + sec + "." + h + "]")
            == Some(Clock(DecimalValue(m), DecimalValue(sec), DecimalValue(h)))
  {
    var t := "[" + m + ":" + sec + "." + h + "]";
    var rest := sec + ['.'] + h;
    assert t[1..|t| - 1] == m + [':'] + rest;
    DigitsHaveNo(m, ':');
    DigitsHaveNo(sec, ':');
    DigitsHaveNo(h, ':');
    assert ':' !in rest;
    SplitAt(m, ':', rest);
    DigitsHaveNo(sec, '.');
    DigitsHaveNo(h, '.');
    SplitAt(sec, '.', h);
    assert Split(t[1..|t| - 1], ':') == [m, rest];
    assert Split(rest, '.') == [sec, h];
  }

  /** The printed text can be read back into the fields that were printed. */
  lemma FormatParses(us: nat)
    ensures ParseClock(Format(us)) == Some(ClockOf(us))
  {
    var c := ClockOf(us);
    Pad2Digits(c.minutes);
    Pad2Digits(c.seconds);
    Pad2Digits(c.hundredths);
    ParseFields(Pad2(c.minutes), Pad2(c.seconds), Pad2(c.hundredths));
  }

  /** Two start times print the same text exactly when their fields agree. */
  lemma FormatInjective(us1: nat, us2: nat)
    ensures Format(us1) == Format(us2) <==> ClockOf(us1) == ClockOf(us2)
  {
    FormatParses(us1);
    FormatParses(us2);
  }

  /** Hundredths are truncated: the printed value is the floor of the sub-second part. */
  lemma HundredthsTruncate(us: nat)
    ensures var h := ClockOf(us).hundredths;
            h * 10_000 <= us % 1_000_000 < (h + 1) * 10_000
  {
  }

  /** Whole days vanish: a start time and the same time one day later print alike. */
  lemma {:induction false} DaysDropped(us: nat, days: nat)
    ensures Format(us + days * MicrosPerDay) == Format(us)
  {
    var later := us + days * MicrosPerDay;
    var q := us / 1_000_000;
    assert later == (q + days * 86_400) * 1_000_000 + us % 1_000_000;
    assert later / 1_000_000 == q + days * 86_400;
    assert later % 1_000_000 == us % 1_000_000;
    assert (q + days * 86_400) % 86_400 == q % 86_400;
    assert ClockOf(later) == ClockOf(us);
  }

  /** Within the first day the minutes and seconds recompose the whole seconds. */
  lemma WithinOneDay(us: nat)
    requires us < MicrosPerDay
    ensures ClockOf(us).minutes * 60 + ClockOf(us).seconds == us / 1_000_000
  {
  }

  /**
   * The text is bracketed, and its only `]` is the last character. It is
   * ten characters long exactly when the minutes fit in two digits; then the
   * closing bracket sits at index 9. Longer minutes widen the text instead
   * of being cut.
   */
  lemma FormatWidth(us: nat)
    ensures Format(us)[0] == '[' && Format(us)[|Format(us)| - 1] == ']'
    ensures |Format(us)| == 8 + |Pad2(ClockOf(us).minutes)|
    ensures |Format(us)| == 10 <==> ClockOf(us).minutes < 100
    ensures ClockOf(us).minutes < 100 ==> Format(us)[9] == ']'
    ensures ']' !in Format(us)[..|Format(us)| - 1]
  {
    var c := ClockOf(us);
    Pad2Digits(c.minutes);
    Pad2Digits(c.seconds);
    Pad2Digits(c.hundredths);
    DigitsHaveNo(Pad2(c.minutes), ']');
    DigitsHaveNo(Pad2(c.seconds), ']');
    DigitsHaveNo(Pad2(c.hundredths), ']');
    var t := Format(us);
    assert t[..|t| - 1] == "[" + Pad2(c.minutes) + ":" + Pad2(c.seconds) + "." + Pad2(c.hundredths);
  }

  /** Zero prints as `[00:00.00]`. */
  lemma SampleZero()
    ensures Format(0) == "[00:00.00]"
  {
    assert ClockOf(0) == Clock(0, 0, 0);
    assert Pad2(0) == "00" by { assert Decimal(0) == "0"; }
  }

  /** 65.256 s prints as `[01:05.25]`: the remainder is truncated, not rounded. */
  lemma SampleTruncation()
    ensures Format(65_256_000) == "[01:05.25]"
  {
    assert ClockOf(65_256_000) == Clock(1, 5, 25);
    assert Pad2(1) == "01" by { assert Decimal(1) == "1"; }
    assert Pad2(5) == "05" by { assert Decimal(5) == "5"; }
    assert Pad2(25) == "25" by { assert Decimal(2) == "2"; assert Decimal(25) == "25"; }
  }

  /** One microsecond short of a second still prints zero seconds. */
  lemma SampleJustUnderOneSecond()
    ensures Format(999_999) == "[00:00.99]"
  {
    assert ClockOf(999_999) == Clock(0, 0, 99);
    assert Pad2(0) == "00" by { assert Decimal(0) == "0"; }
    assert Pad2(99) == "99" by { assert Decimal(9) == "9"; assert Decimal(99) == "99"; }
  }

  /** An hour prints as sixty minutes; the minutes never carry into hours. */
  lemma SampleOneHour()
    ensures Format(3_600_000_000) == "[60:00.00]"
  {
    assert ClockOf(3_600_000_000) == Clock(60, 0, 0);
    assert Pad2(0) == "00" by { assert Decimal(0) == "0"; }
    assert Pad2(60) == "60" by { assert Decimal(6) == "6"; assert Decimal(60) == "60"; }
  }

  /** A hundred minutes widen the minutes field to three digits. */
  lemma SampleHundredMinutes()
    ensures Format(6_000_000_000) == "[100:00.00]"
  {
    assert ClockOf(6_000_000_000) == Clock(100, 0, 0);
    assert Pad2(0) == "00" by { assert Decimal(0) == "0"; }
    assert Pad2(100) == "100" by {
      assert Decimal(1) == "1";
      assert Decimal(10) == "10";
      assert Decimal(100) == "100";
    }
  }

  /** One day and 1.5 s prints as `[00:01.50]`: the day is gone. */
  lemma SampleDayDropped()
    ensures Format(MicrosPerDay + 1_500_000) == "[00:01.50]"
  {
    assert ClockOf(MicrosPerDay + 1_500_000) == Clock(0, 1, 50);
    assert Pad2(0) == "00" by { assert Decimal(0) == "0"; }
    assert Pad2(1) == "01" by { assert Decimal(1) == "1"; }
    assert Pad2(50) == "50" by { assert Decimal(5) == "5"; assert Decimal(50) == "50"; }
  }
}
