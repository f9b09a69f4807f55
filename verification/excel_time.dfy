/**
  Excel serial dates.

  An Excel serial date is a day count since 1899-12-30 00:00:00 whose
  fractional part is the time of day. The loader turns it into a calendar
  timestamp and rounds to the nearest whole second, so that the drift of
  the floating-point day count does not show in the output.

  A timestamp is modelled as the whole number of seconds since that same
  epoch; the day count is an exact `real`.
*/
module ExcelTime {

  /** Seconds in one day of the Excel day count. */
  const SecondsPerDay: int := 86400

  /** Whole seconds since 1899-12-30 00:00:00. */
  type Timestamp = int

  /** Distance between two reals. */
  function Dist(a: real, b: real): real
  {
    if a <= b then b - a else a - b
  }

  /** How far the integer `n` lies from `x`. */
  function Err(n: int, x: real): real
  {
    Dist(n as real, x)
  }

  /**
    Rounds to the nearest integer. An exact half goes to the even neighbour,
    which is the tie rule of pandas' `round` on timestamps.
  */
  function RoundHalfEven(x: real): (r: int)
    ensures Err(r, x) <= 0.5
    ensures Err(r, x) == 0.5 ==> r % 2 == 0
  {
    var f := x.Floor;
    var d := x - f as real;
    if d < 0.5 then f
    else if d > 0.5 then f + 1
    else if f % 2 == 0 then f
    else f + 1
  }

  /** The Excel day count `days`, as a timestamp rounded to the second. */
  function ConvertExcelTime(days: real): (t: Timestamp)
    ensures Err(t, days * SecondsPerDay as real) <= 0.5
  {
    RoundHalfEven(days * SecondsPerDay as real)
  }

  /** The exact Excel day count of a timestamp: the inverse conversion. */
  function ExcelDays(t: Timestamp): (days: real)
    ensures days * SecondsPerDay as real == t as real
  {
    t as real / SecondsPerDay as real
  }

  /** No integer lies closer to `x` than its rounding does. */
  lemma RoundIsNearest(x: real)
    ensures forall n: int :: Err(RoundHalfEven(x), x) <= Err(n, x)
  {
    var r := RoundHalfEven(x);
    forall n: int
      ensures Err(r, x) <= Err(n, x)
    {
      if n < r {
        assert n as real <= r as real - 1.0;
      } else if n > r {
        assert n as real >= r as real + 1.0;
      }
    }
  }

  /** Rounding leaves an integer where it is. */
  lemma RoundInteger(n: int)
    ensures RoundHalfEven(n as real) == n
  {
    assert (n as real).Floor == n;
  }

  /** Day count 0 is the epoch itself, 1899-12-30 00:00:00. */
  lemma EpochIsDayZero()
    ensures ConvertExcelTime(0.0) == 0
  {
    RoundInteger(0);
  }

  /** A whole day count converts to midnight of that day. */
  lemma WholeDaysAreMidnight(n: int)
    ensures ConvertExcelTime(n as real) == n * SecondsPerDay
  {
    assert n as real * SecondsPerDay as real == (n * SecondsPerDay) as real;
    RoundInteger(n * SecondsPerDay);
  }

  /** Converting a timestamp to a day count and back gives the timestamp. */
  lemma TimestampRoundTrip(t: Timestamp)
    ensures ConvertExcelTime(ExcelDays(t)) == t
  {
    RoundInteger(t);
  }

  /** Converting a day count to a timestamp and back is off by at most half a second. */
  lemma DaysRoundTrip(days: real)
    ensures Dist(ExcelDays(ConvertExcelTime(days)), days) <= 0.5 / SecondsPerDay as real
  {
    var t := ConvertExcelTime(days);
    var back := ExcelDays(t);
    var s := SecondsPerDay as real;
    assert back * s == t as real;
    assert Dist(back * s, days * s) <= 0.5;
    DistScales(back, days, s);
  }

  /** Distances scale with a positive factor. */
  lemma DistScales(a: real, b: real, s: real)
    requires s > 0.0
    ensures Dist(a * s, b * s) == Dist(a, b) * s
  {
    if a <= b {
      assert a * s <= b * s;
    } else {
      assert b * s < a * s;
    }
  }

  /** Rounding to the nearest integer never reverses an order. */
  lemma RoundMonotone(x: real, y: real)
    requires x <= y
    ensures RoundHalfEven(x) <= RoundHalfEven(y)
  {
    var rx, ry := RoundHalfEven(x), RoundHalfEven(y);
    if rx > ry {
      assert rx as real - 0.5 <= x;
      assert y <= ry as real + 0.5;
    }
  }

  /** A later day count never gives an earlier timestamp. */
  lemma ConvertMonotone(d1: real, d2: real)
    requires d1 <= d2
    ensures ConvertExcelTime(d1) <= ConvertExcelTime(d2)
  {
    assert d1 * SecondsPerDay as real <= d2 * SecondsPerDay as real;
    RoundMonotone(d1 * SecondsPerDay as real, d2 * SecondsPerDay as real);
  }
}
