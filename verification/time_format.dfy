/**
 * The report's time formatting. A time in ticks is shown in whole seconds
 * (the integer part of ticks / fps), split by divmod into hours, minutes and
 * seconds; the clock form prints "HH:MM:SS" with two-digit zero padding, the
 * duration form prints "<m>m <s>s" and drops the hours.
 */
module TimeFormat {
  import opened Options

  predicate IsDigit(c: char) {
    '0' <= c <= '9'
  }

  predicate AllDigits(s: string) {
    forall i :: 0 <= i < |s| ==> IsDigit(s[i])
  }

  function Digit(d: nat): char
    requires d < 10
  {
    (d + '0' as int) as char
  }

  function DigitValue(c: char): nat {
    if IsDigit(c) then c as int - '0' as int else 0
  }

  /** The decimal digits of n without leading zeros, as Python prints an int. */
  function Decimal(n: nat): string
    decreases n
  {
    if n < 10 then [Digit(n)] else Decimal(n / 10) + [Digit(n % 10)]
  }

  /** The number a string of decimal digits denotes. */
  function DecimalValue(s: string): nat
    decreases |s|
  {
    if |s| == 0 then 0 else DecimalValue(s[..|s| - 1]) * 10 + DigitValue(s[|s| - 1])
  }

  /** Printing then reading a number gives it back; the text is digits only, two or more for n >= 10. */
  lemma {:induction false} DecimalRoundTrip(n: nat)
    ensures DecimalValue(Decimal(n)) == n
    ensures AllDigits(Decimal(n))
    ensures |Decimal(n)| >= 1 && (|Decimal(n)| == 1 <==> n < 10) && (n < 100 ==> |Decimal(n)| <= 2)
    decreases n
  {
    if n >= 10 {
      DecimalRoundTrip(n / 10);
      var s := Decimal(n);
      assert s[..|s| - 1] == Decimal(n / 10);
    }
  }

  /** Python's "{:02d}": at least two digits, with a leading zero below ten. */
  function Pad2(n: nat): string {
    if n < 10 then [Digit(0), Digit(n)] else Decimal(n)
  }

  lemma Pad2RoundTrip(n: nat)
    ensures DecimalValue(Pad2(n)) == n && AllDigits(Pad2(n))
    ensures |Pad2(n)| >= 2 && (n < 100 ==> |Pad2(n)| == 2)
  {
    DecimalRoundTrip(n);
    if n < 10 {
      var s := Pad2(n);
      assert s[..1] == [Digit(0)];
      assert s[..1][..0] == [];
    }
  }

  /** The two divmod steps: whole minutes and seconds, then hours and minutes. */
  function ClockParts(seconds: nat): (nat, nat, nat) {
    var minutes := seconds / 60;
    (minutes / 60, minutes % 60, seconds % 60)
  }

  /** The parts recompose the time exactly, with minutes and seconds below 60. */
  lemma ClockPartsExact(seconds: nat)
    ensures var (h, m, s) := ClockParts(seconds);
      h * 3600 + m * 60 + s == seconds && m < 60 && s < 60
  {
    var minutes := seconds / 60;
    assert seconds == minutes * 60 + seconds % 60;
    assert minutes == (minutes / 60) * 60 + minutes % 60;
  }

  /** The clock form "HH:MM:SS". */
  function Clock(seconds: nat): (r: string)
    ensures |r| >= 8 && r[|r| - 6] == ':' && r[|r| - 3] == ':'
    ensures seconds < 100 * 3600 ==> |r| == 8
    ensures AllDigits(r[..|r| - 6]) && AllDigits(r[|r| - 5..|r| - 3]) && AllDigits(r[|r| - 2..])
  {
    var (h, m, s) := ClockParts(seconds);
    ClockPartsExact(seconds);
    Pad2RoundTrip(h);
    Pad2RoundTrip(m);
    Pad2RoundTrip(s);
    var text := Pad2(h) + ":" + Pad2(m) + ":" + Pad2(s);
    assert text[..|text| - 6] == Pad2(h);
    assert text[|text| - 5..|text| - 3] == Pad2(m);
    assert text[|text| - 2..] == Pad2(s);
    text
  }

  /** The duration form "<m>m <s>s": minutes and seconds only, so the hours are dropped. */
  function DurationText(seconds: nat): (r: string)
    ensures r == Decimal(seconds % 3600 / 60) + "m " + Decimal(seconds % 60) + "s"
  {
    var (_, m, s) := ClockParts(seconds);
    MinutesWithinHour(seconds);
    Decimal(m) + "m " + Decimal(s) + "s"
  }

  /** `_format_time`: whole seconds of the tick count, in the requested form. */
  function FormatTime(ticks: nat, fps: nat, isDuration: bool): (r: string)
    requires fps > 0
    ensures !isDuration ==> ParseClock(r) == Some(ticks / fps)
    ensures isDuration ==> r == DurationText(ticks / fps % 3600)
  {
    var seconds := ticks / fps;
    if isDuration then
      HourRemainder(seconds);
      DurationText(seconds)
    else
      ClockRoundTrip(seconds);
      Clock(seconds)
  }

  /** The whole seconds used are the integer part of the time in seconds. */
  lemma WholeSecondsFloor(ticks: nat, fps: nat)
    requires fps > 0
    ensures (ticks / fps) as real <= ticks as real / fps as real < (ticks / fps + 1) as real
  {
    var q, f := ticks / fps, fps as real;
    assert ticks == q * fps + ticks % fps;
    assert ticks as real == (q as real) * f + (ticks % fps) as real;
    assert (ticks as real) / f - q as real == (ticks % fps) as real / f;
  }

  /** Reads "HH:MM:SS" (hours of any width) back into seconds. */
  function ParseClock(text: string): Option<nat> {
    var n := |text|;
    if n < 8 || text[n - 6] != ':' || text[n - 3] != ':' then None
    else
      var hh, mm, ss := text[..n - 6], text[n - 5..n - 3], text[n - 2..];
      if AllDigits(hh) && AllDigits(mm) && AllDigits(ss) then
        Some(DecimalValue(hh) * 3600 + DecimalValue(mm) * 60 + DecimalValue(ss))
      else None
  }

  /** The clock form loses nothing: it reads back to the same number of seconds. */
  lemma ClockRoundTrip(seconds: nat)
    ensures ParseClock(Clock(seconds)) == Some(seconds)
  {
    var (h, m, s) := ClockParts(seconds);
    ClockPartsExact(seconds);
    Pad2RoundTrip(h);
    Pad2RoundTrip(m);
    Pad2RoundTrip(s);
    var text := Clock(seconds);
    var ph, pm, ps := Pad2(h), Pad2(m), Pad2(s);
    assert text == ph + ":" + pm + ":" + ps;
    var n := |text|;
    assert n == |ph| + 6;
    assert text[..n - 6] == ph;
    assert text[n - 5..n - 3] == pm;
    assert text[n - 2..] == ps;
  }

  /** Different times give different clock texts. */
  lemma ClockInjective(a: nat, b: nat)
    requires Clock(a) == Clock(b)
    ensures a == b
  {
    ClockRoundTrip(a);
    ClockRoundTrip(b);
  }

  /** Euclidean division by 60 is determined by any quotient and remainder that recompose the number. */
  lemma DivMod60Unique(a: nat, q: nat, r: nat)
    requires a == q * 60 + r && r < 60
    ensures a / 60 == q && a % 60 == r
  {
  }

  /** The minutes shown are those of the time modulo one hour. */
  lemma MinutesWithinHour(seconds: nat)
    ensures (seconds / 60) % 60 == seconds % 3600 / 60
  {
    var q, r := seconds / 3600, seconds % 3600;
    assert seconds == q * 3600 + r;
    DivMod60Unique(r, r / 60, r % 60);
    DivMod60Unique(seconds, q * 60 + r / 60, r % 60);
    DivMod60Unique(seconds / 60, q, r / 60);
  }

  /** Taking the time modulo one hour keeps its seconds within the minute. */
  lemma HourRemainder(seconds: nat)
    ensures seconds % 3600 % 3600 == seconds % 3600 && seconds % 3600 % 60 == seconds % 60
  {
    var q, r := seconds / 3600, seconds % 3600;
    DivMod60Unique(r, r / 60, r % 60);
    DivMod60Unique(seconds, q * 60 + r / 60, r % 60);
  }

  /** The duration form shows the time modulo one hour: the hours are dropped. */
  lemma DurationDropsHours(seconds: nat)
    ensures DurationText(seconds) == Decimal(seconds % 3600 / 60) + "m " + Decimal(seconds % 60) + "s"
    ensures DurationText(seconds + 3600) == DurationText(seconds)
  {
    MinutesWithinHour(seconds);
    MinutesWithinHour(seconds + 3600);
    DivMod60Unique(seconds + 3600, seconds / 60 + 60, seconds % 60);
    assert (seconds + 3600) % 3600 == seconds % 3600;
  }
}
