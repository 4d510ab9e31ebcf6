/**
 * The shift-length text written into the ledger row when an operator clocks out
 * (assets/js/main.js, clockOut): a millisecond difference becomes `HH:MM:SS`.
 *
 * The source computes, on JavaScript numbers,
 *   seconds = floor(diff / 1000); minutes = floor(seconds / 60); seconds %= 60;
 *   hours = floor(minutes / 60); minutes %= 60;
 * and prints each field with `toFixed(0)`, prefixing "0" when the field is below 10.
 * Dafny's `/` by a positive divisor is floor division, so it stands for `Math.floor(x / d)`;
 * JavaScript's `%` truncates toward zero, which `JsRem` spells out.
 */
module Duration {

  import opened Wrappers

  /** A clock reading split into its three fields. */
  datatype Hms = Hms(hours: int, minutes: int, seconds: int)

  predicate IsDigit(c: char) { '0' <= c <= '9' }

  predicate AllDigits(s: string) { forall i :: 0 <= i < |s| ==> IsDigit(s[i]) }

  /** The decimal digit character for `d`. */
  function DigitChar(d: nat): (c: char)
    requires d < 10
    ensures IsDigit(c) && c as int - '0' as int == d
  {
    ('0' as int + d) as char
  }

  /** The decimal numeral of `n`, without leading zeros ("0" for zero). */
  function Digits(n: nat): (r: string)
    ensures 1 <= |r| && AllDigits(r)
    ensures |r| == 1 <==> n < 10
    decreases n
  {
    if n < 10 then [DigitChar(n)] else Digits(n / 10) + [DigitChar(n % 10)]
  }

  /** The number a string of decimal digits denotes (the reading side of `Digits`). */
  function Value(s: string): nat
    requires AllDigits(s)
  {
    if s == [] then 0 else Value(s[..|s| - 1]) * 10 + (s[|s| - 1] as int - '0' as int)
  }

  /** `Number.prototype.toFixed(0)` on an integral number: a minus sign, then the digits. */
  function ToFixed0(n: int): string
  {
    if n < 0 then "-" + Digits(-n) else Digits(n)
  }

  /** One field of the clock text: a "0" prefix when the field is below 10, then the number. */
  function Pad(n: int): (r: string)
    ensures 2 <= |r|
  {
    (if n < 10 then "0" else "") + ToFixed0(n)
  }

  /** JavaScript's `a % b` for a positive divisor: the remainder takes the sign of `a`. */
  function JsRem(a: int, b: int): (r: int)
    requires b > 0
    ensures a >= 0 ==> r == a % b
    ensures a <= 0 ==> r <= 0
    ensures -b < r < b && exists q :: a == b * q + r
  {
    if a >= 0 then
      assert a == b * (a / b) + a % b;
      a % b
    else
      var r := -((-a) % b);
      assert a == b * -((-a) / b) + r;
      r
  }

  /** The three fields exactly as the source computes them from the difference `diff`. */
  function Fields(diff: int): (f: Hms)
    ensures -60 < f.minutes < 60 && -60 < f.seconds < 60
    ensures diff >= 0 ==> f.hours >= 0 && 0 <= f.minutes && 0 <= f.seconds
    ensures diff < 0 ==> f.hours < 0 && f.minutes <= 0 && f.seconds <= 0
  {
    var seconds := diff / 1000;
    var minutes := seconds / 60;
    var hours := minutes / 60;
    Hms(hours, JsRem(minutes, 60), JsRem(seconds, 60))
  }

  /** The text the source writes for a clock-out `diff` milliseconds after the clock-in. */
  function FormatDuration(diff: int): (r: string)
    ensures 8 <= |r|
  {
    var f := Fields(diff);
    Pad(f.hours) + ":" + Pad(f.minutes) + ":" + Pad(f.seconds)
  }

  /**
   * Reads a clock text back: everything before the last six characters is the hour field,
   * then ":MM:SS" with two-character minute and second fields.
   */
  function ParseDuration(s: string): Option<Hms>
  {
    if |s| < 8 || s[|s| - 6] != ':' || s[|s| - 3] != ':' then None
    else
      var h, m, sec := s[..|s| - 6], s[|s| - 5..|s| - 3], s[|s| - 2..];
      if AllDigits(h) && AllDigits(m) && AllDigits(sec)
      then Some(Hms(Value(h), Value(m), Value(sec)))
      else None
  }

  // ---------------------------------------------------------------------------
  // Properties of the numerals

  /** Reading back a numeral gives the number it was written from. */
  lemma {:induction false} ValueOfDigits(n: nat)
    ensures Value(Digits(n)) == n
    decreases n
  {
    if n >= 10 {
      ValueOfDigits(n / 10);
      var d := Digits(n / 10);
      var s := d + [DigitChar(n % 10)];
      assert s[..|s| - 1] == d;
    }
  }

  /** A leading zero adds nothing to the value of a numeral. */
  lemma {:induction false} ValueLeadingZero(s: string)
    requires AllDigits(s)
    ensures Value("0" + s) == Value(s)
    decreases |s|
  {
    if s != [] {
      var t := "0" + s;
      assert t[..|t| - 1] == "0" + s[..|s| - 1];
      ValueLeadingZero(s[..|s| - 1]);
    }
  }

  /** Numerals of numbers below 100 are at most two characters long, and only those. */
  lemma {:induction false} DigitsWidth(n: nat)
    ensures |Digits(n)| <= 2 <==> n < 100
  {
    if n >= 10 {
      assert |Digits(n)| == |Digits(n / 10)| + 1;
    }
  }

  /** A non-negative field is padded to at least two digits and reads back as itself. */
  lemma PadReadsBack(n: nat)
    ensures AllDigits(Pad(n)) && Value(Pad(n)) == n
    ensures |Pad(n)| == (if n < 10 then 2 else |Digits(n)|)
  {
    ValueOfDigits(n);
    if n < 10 {
      assert Pad(n) == "0" + Digits(n);
      ValueLeadingZero(Digits(n));
    } else {
      assert Pad(n) == Digits(n);
    }
  }

  // ---------------------------------------------------------------------------
  // Properties of the clock text, for clock-outs at or after the clock-in

  /** Whole minutes are whole seconds divided by 60. */
  lemma MinutesOfSeconds(a: nat)
    ensures a / 60000 == a / 1000 / 60
  {
    var q := a / 1000;
    assert a == 60000 * (q / 60) + (1000 * (q % 60) + a % 1000);
  }

  /** Whole hours are whole minutes divided by 60. */
  lemma HoursOfMinutes(a: nat)
    ensures a / 3600000 == a / 60000 / 60
  {
    var q := a / 60000;
    assert a == 3600000 * (q / 60) + (60000 * (q % 60) + a % 60000);
  }

  /** The fields for a non-negative difference, in terms of whole hours, minutes and seconds. */
  lemma FieldsOfNonNegative(diff: nat)
    ensures Fields(diff) == Hms(diff / 3600000, diff / 60000 % 60, diff / 1000 % 60)
  {
    MinutesOfSeconds(diff);
    HoursOfMinutes(diff);
  }

  /** Where the fields of a text laid out as hours, colon, minutes, colon, seconds sit. */
  lemma LayoutSlices(h: string, m: string, sec: string)
    requires |m| == 2 && |sec| == 2
    ensures var r := h + ":" + m + ":" + sec;
      |r| == |h| + 6 && r[|r| - 6] == ':' && r[|r| - 3] == ':' &&
      r[..|r| - 6] == h && r[|r| - 5..|r| - 3] == m && r[|r| - 2..] == sec
  {
    var r := h + ":" + m + ":" + sec;
    var n := |h|;
    assert r[..n] == h;
    assert r[n + 1..n + 3] == m;
    assert r[n + 4..] == sec;
  }

  /** A text laid out as hours, colon, two-digit minutes, colon, two-digit seconds reads back field by field. */
  lemma ParseLayout(h: string, m: string, sec: string)
    requires AllDigits(h) && AllDigits(m) && AllDigits(sec)
    requires 2 <= |h| && |m| == 2 && |sec| == 2
    ensures ParseDuration(h + ":" + m + ":" + sec) == Some(Hms(Value(h), Value(m), Value(sec)))
  {
    LayoutSlices(h, m, sec);
  }

  /**
   * The clock text reads back as whole hours (never wrapped at 24 or 100), minutes modulo 60
   * and seconds modulo 60, with the minute and second fields exactly two characters wide.
   */
  lemma FormatDurationReadsBack(diff: nat)
    ensures ParseDuration(FormatDuration(diff)) == Some(Hms(diff / 3600000, diff / 60000 % 60, diff / 1000 % 60))
  {
    FieldsOfNonNegative(diff);
    var f := Fields(diff);
    PadReadsBack(f.hours);
    PadReadsBack(f.minutes);
    PadReadsBack(f.seconds);
    ParseLayout(Pad(f.hours), Pad(f.minutes), Pad(f.seconds));
  }

  /** The text is exactly eight characters wide precisely when the shift is shorter than 100 hours. */
  lemma FormatDurationWidth(diff: nat)
    ensures |FormatDuration(diff)| == 8 <==> diff < 360000000
  {
    FieldsOfNonNegative(diff);
    var f := Fields(diff);
    PadReadsBack(f.hours);
    PadReadsBack(f.minutes);
    PadReadsBack(f.seconds);
    DigitsWidth(f.hours);
  }

  /** Sub-second remainders are dropped: only whole seconds reach the text. */
  lemma FormatDurationTruncates(diff: int)
    ensures FormatDuration(diff) == FormatDuration(diff - diff % 1000)
  {
    assert (diff - diff % 1000) / 1000 == diff / 1000;
  }

  /** Two non-negative differences give the same text exactly when they agree in whole seconds. */
  lemma FormatDurationInjective(a: nat, b: nat)
    ensures FormatDuration(a) == FormatDuration(b) <==> a / 1000 == b / 1000
  {
    if FormatDuration(a) == FormatDuration(b) {
      FormatDurationReadsBack(a);
      FormatDurationReadsBack(b);
      MinutesOfSeconds(a);
      MinutesOfSeconds(b);
      HoursOfMinutes(a);
      HoursOfMinutes(b);
      var sa, sb := a / 1000, b / 1000;
      assert sa == 3600 * (sa / 60 / 60) + 60 * (sa / 60 % 60) + sa % 60;
      assert sb == 3600 * (sb / 60 / 60) + 60 * (sb / 60 % 60) + sb % 60;
    }
  }

  /** One hour, two minutes and three seconds. */
  lemma FormatDurationExample()
    ensures FormatDuration(3723000) == "01:02:03"
  {
    assert Fields(3723000) == Hms(1, 2, 3);
  }

  /** One hundred hours: the hour field grows to three digits instead of wrapping. */
  lemma FormatDurationHundredHours()
    ensures FormatDuration(360000000) == "100:00:00"
  {
    assert Fields(360000000) == Hms(100, 0, 0);
    assert Digits(100) == Digits(10) + "0";
    assert Digits(10) == "10";
  }
}
