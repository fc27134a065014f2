/** `ThreadManager._format_duration`: a duration in seconds rendered as a
    whole number of seconds, minutes, hours or days. A duration is given as
    the exact fraction `num / den` of seconds, so that an average of whole
    seconds is rendered without floating point. */
module Durations {
  import opened Text

  /** Python's `int(x / b)` for `b > 0`: division truncating toward zero
      (Dafny's `/` rounds toward negative infinity on negative operands). */
  function TruncDiv(a: int, b: int): (q: int)
    requires b > 0
    ensures a >= 0 ==> 0 <= q && q * b <= a < (q + 1) * b
    ensures a < 0 ==> q <= 0 && (q - 1) * b < a <= q * b
  {
    if a >= 0 then
      FloorDivBounds(a, b);
      a / b
    else
      FloorDivBounds(-a, b);
      assert (-((-a) / b)) * b == -(((-a) / b) * b);
      assert (-((-a) / b) - 1) * b == -((((-a) / b) + 1) * b);
      -((-a) / b)
  }

  /** The quotient of a non-negative number counts the whole `b`s in it. */
  lemma FloorDivBounds(a: int, b: int)
    requires a >= 0 && b > 0
    ensures 0 <= a / b && (a / b) * b <= a < (a / b + 1) * b
  {
    var q, r := a / b, a % b;
    assert a == q * b + r && 0 <= r < b;
    assert (q + 1) * b == q * b + b;
    if q < 0 {
      MulLe(q, -1, b);
    }
  }

  datatype Unit = Seconds | Minutes | Hours | Days {
    /** The letter after the number. */
    function Symbol(): char {
      match this
      case Seconds => 's'
      case Minutes => 'm'
      case Hours => 'h'
      case Days => 'd'
    }

    /** The unit's length in seconds. */
    function Size(): (n: int)
      ensures n > 0
    {
      match this
      case Seconds => 1
      case Minutes => 60
      case Hours => 3600
      case Days => 86400
    }
  }

  /** The unit chosen for `num / den` seconds: seconds below a minute
      (negative durations included), minutes below an hour, hours below a
      day, days otherwise. */
  function DurationUnit(num: int, den: int): (u: Unit)
    requires den > 0
    ensures u == Seconds <==> num < 60 * den
    ensures u == Minutes <==> 60 * den <= num < 3600 * den
    ensures u == Hours <==> 3600 * den <= num < 86400 * den
    ensures u == Days <==> 86400 * den <= num
  {
    if num < 60 * den then Seconds
    else if num < 3600 * den then Minutes
    else if num < 86400 * den then Hours
    else Days
  }

  /** The number printed: the duration in the chosen unit, truncated. */
  function DurationAmount(num: int, den: int): int
    requires den > 0
  {
    TruncDiv(num, den * DurationUnit(num, den).Size())
  }

  /** `_format_duration(num / den)` */
  function FormatDuration(num: int, den: int): (r: string)
    requires den > 0
    ensures |r| >= 2
    ensures r[|r| - 1] == DurationUnit(num, den).Symbol()
    ensures r[..|r| - 1] == IntToDecimal(DurationAmount(num, den))
  {
    IntToDecimal(DurationAmount(num, den)) + [DurationUnit(num, den).Symbol()]
  }

  lemma MulLe(a: int, b: int, c: int)
    requires a <= b && c >= 0
    ensures a * c <= b * c
  {
  }

  /** For a non-negative duration the printed amount is the number of whole
      units it contains, and below the next unit up: at most 59 seconds or
      minutes, at most 23 hours, at least one minute, hour or day. */
  lemma DurationAmountBounds(num: int, den: int)
    requires den > 0 && num >= 0
    ensures var u, q := DurationUnit(num, den), DurationAmount(num, den);
      && q * (den * u.Size()) <= num < (q + 1) * (den * u.Size())
      && (u == Seconds ==> 0 <= q < 60)
      && (u == Minutes ==> 1 <= q < 60)
      && (u == Hours ==> 1 <= q < 24)
      && (u == Days ==> 1 <= q)
  {
    var u, q := DurationUnit(num, den), DurationAmount(num, den);
    var w := den * u.Size();
    assert q * w <= num < (q + 1) * w;
    match u
    case Seconds =>
      assert w == den;
      if q >= 60 { MulLe(60, q, w); }
    case Minutes =>
      assert w == 60 * den;
      if q >= 60 { MulLe(60, q, w); }
      if q < 1 { MulLe(q + 1, 1, w); }
    case Hours =>
      assert w == 3600 * den;
      if q >= 24 { MulLe(24, q, w); }
      if q < 1 { MulLe(q + 1, 1, w); }
    case Days =>
      assert w == 86400 * den;
      if q < 1 { MulLe(q + 1, 1, w); }
  }

  /** A negative duration (a message dated before the one it follows) is
      printed in seconds with a minus sign, or as "0s" when less than a second. */
  lemma NegativeDurationInSeconds(num: int, den: int)
    requires den > 0 && num < 0
    ensures DurationUnit(num, den) == Seconds
    ensures var r := FormatDuration(num, den);
      r[|r| - 1] == 's' && (r[0] == '-' <==> num <= -den)
  {
    var q := DurationAmount(num, den);
    assert q == TruncDiv(num, den * 1);
    if q < 0 { MulLe(q, -1, den); }
  }

  /** The text before the unit letter reads back as the amount. */
  lemma FormatDurationReadsBack(num: int, den: int)
    requires den > 0 && num >= 0
    ensures var r := FormatDuration(num, den);
      DecimalValue(r[..|r| - 1]) == DurationAmount(num, den)
  {
    var q := DurationAmount(num, den);
    assert q >= 0;
    DecimalRoundTrip(q);
  }

  lemma DurationExamples()
    ensures FormatDuration(59, 1) == "59s"
    ensures FormatDuration(3599, 1) == "59m"
    ensures FormatDuration(7200, 1) == "2h"
    ensures FormatDuration(90000, 1) == "1d"
    ensures FormatDuration(-30, 1) == "-30s"
  {
    assert NatToDecimal(59) == "59" by { assert NatToDecimal(5) == "5"; }
    assert NatToDecimal(30) == "30" by { assert NatToDecimal(3) == "3"; }
    assert DurationAmount(59, 1) == 59;
    assert DurationAmount(3599, 1) == 59;
    assert DurationAmount(7200, 1) == 2;
    assert DurationAmount(90000, 1) == 1;
    assert DurationAmount(-30, 1) == -30;
  }
}
