/** The civil calendar: days counted year by year, and what a date and time of day stand for. */
module CalendarSpec {
  import Arith

  const SECS_PER_DAY: int := 86400
  const EPOCH: int := 1970

  predicate Leap(y: int) { y % 4 == 0 && (y % 100 != 0 || y % 400 == 0) }

  function YearLength(y: int): int { if Leap(y) then 366 else 365 }

  /** Days from the Epoch to the first of January of `y`, one year at a time. */
  function YearStart(y: int): int
    decreases if y < EPOCH then EPOCH - y else y - EPOCH
  {
    if y == EPOCH then 0
    else if y > EPOCH then YearStart(y - 1) + YearLength(y - 1)
    else YearStart(y + 1) - YearLength(y)
  }

  lemma YearStartNext(y: int)
    ensures YearStart(y + 1) == YearStart(y) + YearLength(y)
  {
  }

  /** Days in a month, counted from 0 for January. */
  function MonthLength(y: int, m: nat): int
    requires m < 12
  {
    if m == 1 then (if Leap(y) then 29 else 28)
    else if m == 3 || m == 5 || m == 8 || m == 10 then 30
    else 31
  }

  function MonthStart(y: int, m: nat): int
    requires m <= 12
  {
    if m == 0 then 0 else MonthStart(y, m - 1) + MonthLength(y, m - 1)
  }

  /** Days from the Epoch to the first of a month. */
  function MonthDay(y: int, m: nat): int
    requires m < 12
  {
    YearStart(y) + MonthStart(y, m)
  }

  datatype Civil = Civil(year: int, mon: int, mday: int, hour: int, min: int, sec: int)

  predicate ValidCivil(c: Civil) {
    && 0 <= c.mon < 12 && 1 <= c.mday <= MonthLength(c.year, c.mon)
    && 0 <= c.hour < 24 && 0 <= c.min < 60 && 0 <= c.sec < 60
  }

  function Day(c: Civil): int
    requires 0 <= c.mon < 12
  {
    MonthDay(c.year, c.mon) + c.mday - 1
  }

  /** Seconds since the Epoch. */
  function Seconds(c: Civil): int
    requires 0 <= c.mon < 12
  {
    Day(c) * SECS_PER_DAY + c.hour * 3600 + c.min * 60 + c.sec
  }

  // ----- no two dates are the same day -----

  lemma {:induction false} YearsApart(a: int, b: int)
    requires a < b
    ensures YearStart(a) + YearLength(a) <= YearStart(b)
    ensures YearStart(b) - YearStart(a) >= 365 * (b - a)
    decreases b - a
  {
    YearStartNext(b - 1);
    if a < b - 1 {
      YearsApart(a, b - 1);
    }
  }

  lemma {:induction false} MonthsApart(y: int, a: nat, b: nat)
    requires a < b <= 12
    ensures MonthStart(y, a) + MonthLength(y, a) <= MonthStart(y, b)
    decreases b - a
  {
    if a < b - 1 {
      MonthsApart(y, a, b - 1);
    }
  }

  /** Table 0 of the source is an ordinary year, table 1 a leap year; the last entry is the year's length. */
  lemma MonthStarts(y: int)
    ensures var l := if Leap(y) then 1 else 0;
      && MonthStart(y, 0) == 0 && MonthStart(y, 1) == 31 && MonthStart(y, 2) == 59 + l && MonthStart(y, 3) == 90 + l
      && MonthStart(y, 4) == 120 + l && MonthStart(y, 5) == 151 + l && MonthStart(y, 6) == 181 + l
      && MonthStart(y, 7) == 212 + l && MonthStart(y, 8) == 243 + l && MonthStart(y, 9) == 273 + l
      && MonthStart(y, 10) == 304 + l && MonthStart(y, 11) == 334 + l && MonthStart(y, 12) == YearLength(y)
  {
  }

  lemma InYear(c: Civil)
    requires ValidCivil(c)
    ensures YearStart(c.year) <= Day(c) < YearStart(c.year) + YearLength(c.year)
  {
    MonthStarts(c.year);
    MonthsApart(c.year, c.mon, 12);
    if c.mon > 0 { MonthsApart(c.year, 0, c.mon); }
  }

  lemma SameDay(c: Civil, d: Civil)
    requires ValidCivil(c) && ValidCivil(d) && Day(c) == Day(d)
    ensures c.year == d.year && c.mon == d.mon && c.mday == d.mday
  {
    hide YearStart, MonthStart;
    InYear(c);
    InYear(d);
    if c.year < d.year { YearsApart(c.year, d.year); }
    if d.year < c.year { YearsApart(d.year, c.year); }
    if c.mon < d.mon { MonthsApart(c.year, c.mon, d.mon); }
    if d.mon < c.mon { MonthsApart(c.year, d.mon, c.mon); }
  }

  /** Different valid dates and times are different moments. */
  lemma SecondsInjective(c: Civil, d: Civil)
    requires ValidCivil(c) && ValidCivil(d) && Seconds(c) == Seconds(d)
    ensures c == d
  {
    hide Day;
    var a, b := c.hour * 3600 + c.min * 60 + c.sec, d.hour * 3600 + d.min * 60 + d.sec;
    assert 0 <= a < SECS_PER_DAY && 0 <= b < SECS_PER_DAY;
    assert Day(c) == Day(d);
    SameDay(c, d);
  }

  // ----- leap years in closed form -----

  /** Leap years among the years 1 to `y`. */
  function Leaps(y: int): int { y / 4 - y / 100 + y / 400 }

  lemma LeapsStep(y: int)
    ensures Leaps(y) == Leaps(y - 1) + if Leap(y) then 1 else 0
  {
    DivStep(y, 4);
    DivStep(y, 100);
    DivStep(y, 400);
    Multiples(y);
  }

  lemma DivStep(y: int, m: int)
    requires m > 1
    ensures y / m == (y - 1) / m + if y % m == 0 then 1 else 0
  {
    var q, r := y / m, y % m;
    assert y == q * m + r;
    if r == 0 {
      assert y - 1 == (q - 1) * m + (m - 1);
      Quotient(y - 1, m, q - 1, m - 1);
    } else {
      Quotient(y - 1, m, q, r - 1);
    }
  }

  lemma Quotient(x: int, m: int, q: int, r: int)
    requires 0 <= r < m && x == q * m + r
    ensures x / m == q && x % m == r
  {
    Arith.DivModUnique(x, m, q, r);
  }

  lemma Multiples(y: int)
    ensures y % 400 == 0 ==> y % 100 == 0
    ensures y % 100 == 0 ==> y % 4 == 0
  {
  }

  lemma {:induction false} YearStartClosed(y: int)
    ensures YearStart(y) == (y - EPOCH) * 365 + Leaps(y - 1) - Leaps(EPOCH - 1)
    decreases if y < EPOCH then EPOCH - y else y - EPOCH
  {
    hide Leaps, Leap;
    if y > EPOCH {
      YearStartClosed(y - 1);
      LeapsStep(y - 1);
    } else if y < EPOCH {
      YearStartClosed(y + 1);
      LeapsStep(y);
    }
  }
}
