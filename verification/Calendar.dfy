/** The conversions between seconds since the Epoch and broken-down time, in 32-bit arithmetic. */
module Calendar {
  import opened ByteSeq
  import opened CalendarSpec
  import Arith

  /** Division as the source language does it: towards zero. */
  function TruncDiv(a: int, b: int): int
    requires b > 0
  {
    if a >= 0 then a / b else -((-a) / b)
  }

  function TruncMod(a: int, b: int): int
    requires b > 0
  {
    a - TruncDiv(a, b) * b
  }

  /** Rounding down, put together from the two truncating operators. */
  function FloorDiv(a: int, b: int): (q: int)
    requires b > 0
    ensures q == a / b
  {
    TruncIsFloor(a, b);
    TruncDiv(a, b) - (if TruncMod(a, b) < 0 then 1 else 0)
  }

  lemma NegatedQuotient(a: int, b: int)
    requires b > 0 && a < 0
    ensures a / b == -((-a) / b) - (if (-a) % b == 0 then 0 else 1)
    ensures a % b == if (-a) % b == 0 then 0 else b - (-a) % b
  {
    var q, r := (-a) / b, (-a) % b;
    assert -(q * b) == (-q) * b;
    if r == 0 {
      Arith.DivModUnique(a, b, -q, 0);
    } else {
      assert (-q - 1) * b == (-q) * b - b;
      Arith.DivModUnique(a, b, -q - 1, b - r);
    }
  }

  lemma TruncModIs(a: int, b: int)
    requires b > 0
    ensures TruncMod(a, b) == if a >= 0 then a % b else -((-a) % b)
  {
    var n := if a >= 0 then a else -a;
    var q := n / b;
    assert n == q * b + n % b;
    assert (-q) * b == -(q * b);
  }

  lemma TruncIsFloor(a: int, b: int)
    requires b > 0
    ensures TruncDiv(a, b) - (if TruncMod(a, b) < 0 then 1 else 0) == a / b
    ensures TruncMod(a, b) + (if TruncMod(a, b) < 0 then b else 0) == a % b
  {
    hide TruncMod;
    TruncModIs(a, b);
    if a < 0 { NegatedQuotient(a, b); }
  }

  /** A value stored in a 16-bit signed variable. */
  function Short(x: int): int {
    (x + 0x8000) % 0x1_0000 - 0x8000
  }

  const YDAY: seq<seq<int>> := [
    [0, 31, 59, 90, 120, 151, 181, 212, 243, 273, 304, 334, 365],
    [0, 31, 60, 91, 121, 152, 182, 213, 244, 274, 305, 335, 366]
  ]

  lemma TableIsMonthStart(y: int, m: nat)
    requires m <= 12
    ensures |YDAY| == 2 && |YDAY[0]| == 13 && |YDAY[1]| == 13
    ensures YDAY[if Leap(y) then 1 else 0][m] == MonthStart(y, m)
    ensures YDAY[0][m] == MonthStart(y, m) - if m >= 2 && Leap(y) then 1 else 0
  {
    hide MonthStart;
    MonthStarts(y);
  }

  class Tm {
    var sec: int
    var min: int
    var hour: int
    var mday: int
    var mon: int
    var year: int
    var wday: int
    var yday: int
    var isdst: int

    constructor ()
    {
      sec, min, hour, mday, mon, year, wday, yday, isdst := 0, 0, 0, 0, 0, 0, 0, 0, 0;
    }

    function Date(): Civil
      reads this
    {
      Civil(year + 1900, mon, mday, hour, min, sec)
    }
  }

  // ----- the guess-and-correct year search -----

  predicate InThisYear(y: int, days: int) { 0 <= days < YearLength(y) }

  function Abs(x: int): nat { if x < 0 then -x else x }

  /** Correcting the guess keeps the day, and comes closer unless the year is found: a guess that is too late
      by less than a year is followed by the right one. */
  lemma GuessImproves(y: int, days: int)
    requires !InThisYear(y, days)
    ensures var yg := y + days / 365; var d := days - (YearStart(yg) - YearStart(y));
      InThisYear(yg, d) || Abs(d) < Abs(days)
  {
    hide YearStart, Leap;
    var q, r := days / 365, days % 365;
    if q > 0 {
      LeapBound(y, y + q);
    } else if q == -1 {
      YearStartNext(y - 1);
    } else if q == -2 {
      YearStartNext(y - 1);
      YearStartNext(y - 2);
      NoTwoLeaps(y - 2);
    } else {
      LeapBound(y + q, y);
    }
  }

  lemma NoTwoLeaps(y: int)
    ensures !(Leap(y) && Leap(y + 1))
  {
  }

  lemma {:induction false} LeapBound(a: int, b: int)
    requires a <= b
    ensures 365 * (b - a) <= YearStart(b) - YearStart(a) <= 366 * (b - a)
    decreases b - a
  {
    if a < b {
      YearStartNext(b - 1);
      LeapBound(a, b - 1);
    }
  }

  /** The source's count, with the division that rounds down. */
  function LeapsThruEndOf(y: int): (n: int)
    ensures n == Leaps(y)
  {
    FloorDiv(y, 4) - FloorDiv(y, 100) + FloorDiv(y, 400)
  }

  /** The correction term of the loop, from the leap-year count. */
  lemma CorrectionIs(y: int, yg: int)
    ensures (yg - y) * 365 + Leaps(yg - 1) - Leaps(y - 1) == YearStart(yg) - YearStart(y)
  {
    hide Leaps;
    YearStartClosed(y);
    YearStartClosed(yg);
  }

  /** The year of a day and the day within it. */
  method FindYear(day: int) returns (y: int, days: int)
    ensures InThisYear(y, days) && YearStart(y) + days == day
  {
    hide YearStart, Leap, Leaps;
    y, days := 1970, day;
    YearStartClosed(1970);
    while days < 0 || days >= YearLength(y)
      invariant YearStart(y) + days == day
      decreases if InThisYear(y, days) then 0 else Abs(days)
    {
      var yg := y + FloorDiv(days, 365);
      GuessImproves(y, days);
      CorrectionIs(y, yg);
      days := days - ((yg - y) * 365 + LeapsThruEndOf(yg - 1) - LeapsThruEndOf(y - 1));
      y := yg;
    }
  }

  /** Seconds to days and what is left of the last day, the offset included. */
  method SplitDay(t: nat, offset: int) returns (days: int, rem: int)
    ensures days * SECS_PER_DAY + rem == t + offset && 0 <= rem < SECS_PER_DAY
  {
    days := t / SECS_PER_DAY;
    rem := t % SECS_PER_DAY;
    rem := rem + offset;
    while rem < 0
      invariant days * SECS_PER_DAY + rem == t + offset
      decreases -rem
    {
      rem := rem + SECS_PER_DAY;
      days := days - 1;
    }
    while rem >= SECS_PER_DAY
      invariant days * SECS_PER_DAY + rem == t + offset && 0 <= rem
      decreases rem
    {
      rem := rem - SECS_PER_DAY;
      days := days + 1;
    }
  }

  /** The month of a day in its year, from the end of the table. */
  method FindMonth(y: int, yday: int) returns (m: nat)
    requires InThisYear(y, yday)
    ensures m < 12 && MonthStart(y, m) <= yday < MonthStart(y, m) + MonthLength(y, m)
  {
    hide Leap;
    var l := if Leap(y) then 1 else 0;
    m := 11;
    TableIsMonthStart(y, 12);
    TableIsMonthStart(y, 11);
    while yday < YDAY[l][m]
      invariant m < 12 && YDAY[l][m] == MonthStart(y, m) && yday < MonthStart(y, m + 1)
    {
      TableIsMonthStart(y, 0);
      TableIsMonthStart(y, m - 1);
      m := m - 1;
    }
  }

  /** __offtime, for an offset that keeps the sum within a signed word: the fields are those of the moment
      `t + offset`. */
  method OffTime(t: nat, offset: int, tp: Tm) returns (ok: int)
    requires t < TWO32 && -0x8000_0000 <= offset < 0x8000_0000 - SECS_PER_DAY
    modifies tp
    ensures ok == 1 && ValidCivil(tp.Date()) && Seconds(tp.Date()) == t + offset
    ensures tp.yday == Day(tp.Date()) - YearStart(tp.year + 1900) && tp.wday == (4 + Day(tp.Date())) % 7
    ensures tp.isdst == if Leap(tp.year + 1900) then 1 else 0
  {
    hide YearStart, MonthStart, Leap, MonthLength, TruncDiv, TruncMod;
    var days, rem := SplitDay(t, offset);
    tp.hour := rem / 3600;
    rem := rem % 3600;
    tp.min := rem / 60;
    tp.sec := rem % 60;
    TruncIsFloor(4 + days, 7);
    tp.wday := TruncMod(4 + days, 7);
    if tp.wday < 0 {
      tp.wday := tp.wday + 7;
    }
    ghost var day := days;
    var y;
    y, days := FindYear(days);
    tp.year := y - 1900;
    tp.yday := days;
    tp.isdst := if Leap(y) then 1 else 0;
    var m := FindMonth(y, days);
    days := days - YDAY[tp.isdst][m];
    tp.mon := m;
    tp.mday := days + 1;
    TableIsMonthStart(y, m);
    return 1;
  }

  method GetTime(t: nat, tp: Tm) returns (ok: int)
    requires t < TWO32
    modifies tp
    ensures ok == 1 && ValidCivil(tp.Date()) && Seconds(tp.Date()) == t && 1970 <= tp.year + 1900 <= 2106
    ensures tp.yday == Day(tp.Date()) - YearStart(tp.year + 1900) && tp.wday == (4 + Day(tp.Date())) % 7
    ensures tp.isdst == if Leap(tp.year + 1900) then 1 else 0
  {
    hide YearStart, MonthStart, Leap, MonthLength;
    ok := OffTime(t, 0, tp);
    YearRange(tp.Date());
  }

  lemma YearRange(c: Civil)
    requires ValidCivil(c) && 0 <= Seconds(c) < TWO32
    ensures 1970 <= c.year <= 2106
  {
    hide YearStart, MonthStart, Leap;
    InYear(c);
    YearStartClosed(1970);
    YearStartClosed(2107);
    if c.year > 2106 { if c.year > 2107 { YearsApart(2107, c.year); } }
    if c.year < 1970 { YearsApart(c.year, 1970); }
  }

  // ----- and back -----

  /** The year that the fields mean: below 70 it counts from 2000, and months beyond the year carry over. */
  function NormalYear(year: int, mon: int): int {
    (if year < 70 then 2000 else 1900) + year + mon / 12
  }

  /** Two-digit years are years from 2000 to 2069, years from 70 on count from 1900, and twelve months more are one
      year more. */
  lemma YearRule(year: int, mon: int)
    ensures 0 <= mon < 12 ==> NormalYear(year, mon) == if year < 70 then 2000 + year else 1900 + year
    ensures NormalYear(year, mon + 12) == NormalYear(year, mon) + 1 && (mon + 12) % 12 == mon % 12
  {
    Arith.DivModUnique(mon + 12, 12, mon / 12 + 1, mon % 12);
  }

  /** The moment that the fields mean, whatever their ranges. */
  ghost function Moment(t: Tm): int
    reads t
  {
    Seconds(Civil(NormalYear(t.year, t.mon), t.mon % 12, t.mday, t.hour, t.min, t.sec))
  }

  lemma WrapStep(a: int, k: nat, b: int)
    ensures U32(U32(a) * k + b) == U32(a * k + b)
  {
    var q := a / TWO32;
    assert a * k + b == (U32(a) * k + b) + (q * k) * TWO32 by {
      assert a == q * TWO32 + U32(a);
      assert (q * TWO32) * k == (q * k) * TWO32;
    }
    Arith.ModCancel(U32(a) * k + b, q * k, TWO32);
  }

  /** The month and year that the first steps arrive at. */
  method NormalMonth(t: Tm) returns (month: int, year: int)
    requires -0x8000 <= t.mon < 0x8000 && -0x8000 < NormalYear(t.year, t.mon) < 0x7fff
    ensures month == t.mon % 12 && year == NormalYear(t.year, t.mon)
  {
    hide TruncDiv, TruncMod;
    month := Short(t.mon);
    TruncIsFloor(month, 12);
    if t.year < 70 {
      year := Short(t.year + TruncDiv(month, 12) + 2000);
    } else {
      year := Short(t.year + TruncDiv(month, 12) + 1900);
    }
    month := Short(TruncMod(month, 12));
    if month < 0 {
      year := Short(year - 1);
      month := Short(month + 12);
    }
  }

  /** Days from the Epoch to a month, from the closed form with its three constants. */
  lemma MonthDayIs(y: int, m: nat)
    requires m < 12
    ensures var y' := if m <= 1 then y - 1 else y;
      (y - 1970) * 365 + YDAY[0][m] + (y' - 1968) / 4 - (y' - 1900) / 100 + (y' - 1600) / 400 == MonthDay(y, m)
  {
    hide MonthStart, YearStart, Leap;
    var y' := if m <= 1 then y - 1 else y;
    assert (y' - 1968) / 4 - (y' - 1900) / 100 + (y' - 1600) / 400 == Leaps(y') - Leaps(1969);
    hide Leaps;
    YearStartClosed(y);
    LeapsStep(y);
    TableIsMonthStart(y, m);
  }

  lemma MomentIs(t: Tm)
    requires 0 <= t.mon < 12 && 0 <= t.year
    ensures Moment(t) == Seconds(Civil((if t.year < 70 then 2000 else 1900) + t.year, t.mon, t.mday, t.hour, t.min, t.sec))
    ensures Slip(LeapYears(t.year, t.mon)) == 0
  {
    hide Seconds;
    YearRule(t.year, t.mon);
  }

  /** The year up to whose end the leap days are counted. */
  function LeapYears(year: int, mon: int): int {
    if mon % 12 <= 1 then NormalYear(year, mon) - 1 else NormalYear(year, mon)
  }

  /** Days by which the truncating divisions miss the calendar, in years before their constants. */
  function Slip(y: int): int {
    (if y < 1968 && y % 4 != 0 then 1 else 0) - (if y < 1900 && y % 100 != 0 then 1 else 0)
      + if y < 1600 && y % 400 != 0 then 1 else 0
  }

  /** The reckoning of mktime, its slips included. */
  method Reckon(t: Tm) returns (res: nat)
    requires -0x8000 <= t.mon < 0x8000 && -0x8000 < NormalYear(t.year, t.mon) < 0x7fff
    ensures res == U32(Moment(t) + Slip(LeapYears(t.year, t.mon)) * SECS_PER_DAY)
  {
    hide MonthDay, U32, Leap, TruncDiv, Slip;
    var month, year := NormalMonth(t);
    MonthDayIs(year, month);
    TableIsMonthStart(year, month);
    ghost var days := MonthDay(year, month);
    ghost var start := (year - 1970) * 365 + YDAY[0][month];
    res := U32((year - 1970) * 365 + YDAY[0][month]);
    if month <= 1 {
      year := year - 1;
    }
    LeapTerms(year);
    res := AddLeaps(start, year, res);
    res := AddTime(days + Slip(year), t, res);
  }

  /** mktime: the moment the fields mean, as far as 32 bits hold it, exactly when the divisions do not slip; they
      never do from 1968 on. */
  method MkTime(t: Tm) returns (res: nat)
    requires -0x8000 <= t.mon < 0x8000 && -0x8000 < NormalYear(t.year, t.mon) < 0x7fff
    ensures res == U32(Moment(t) + Slip(LeapYears(t.year, t.mon)) * SECS_PER_DAY)
    ensures res == U32(Moment(t)) <==> Slip(LeapYears(t.year, t.mon)) == 0
    ensures 0 <= t.mon < 12 && 0 <= t.year < 70 ==>
      res == U32(Seconds(Civil(2000 + t.year, t.mon, t.mday, t.hour, t.min, t.sec)))
    ensures 0 <= t.mon < 12 && 70 <= t.year ==>
      res == U32(Seconds(Civil(1900 + t.year, t.mon, t.mday, t.hour, t.min, t.sec)))
  {
    hide Seconds, U32, Slip, Moment;
    res := Reckon(t);
    LeapTerms(LeapYears(t.year, t.mon));
    SlipShows(Moment(t), Slip(LeapYears(t.year, t.mon)));
    if 0 <= t.mon < 12 && 0 <= t.year { MomentIs(t); }
  }

  lemma SlipShows(m: int, slip: int)
    requires -1 <= slip <= 1
    ensures U32(m + slip * SECS_PER_DAY) == U32(m) <==> slip == 0
  {
    if slip != 0 {
      var q, r := m / TWO32, m % TWO32;
      assert m == q * TWO32 + r && m + slip * SECS_PER_DAY == q * TWO32 + (r + slip * SECS_PER_DAY);
      if r + slip * SECS_PER_DAY < 0 {
        Arith.DivModUnique(m + slip * SECS_PER_DAY, TWO32, q - 1, r + slip * SECS_PER_DAY + TWO32);
      } else if r + slip * SECS_PER_DAY >= TWO32 {
        Arith.DivModUnique(m + slip * SECS_PER_DAY, TWO32, q + 1, r + slip * SECS_PER_DAY - TWO32);
      } else {
        Arith.DivModUnique(m + slip * SECS_PER_DAY, TWO32, q, r + slip * SECS_PER_DAY);
      }
    }
  }

  /** Three wrapping additions. */
  method AddLeaps(ghost days: int, year: int, start: nat) returns (res: nat)
    requires start == U32(days)
    ensures res == U32(days + TruncDiv(year - 1968, 4) - TruncDiv(year - 1900, 100) + TruncDiv(year - 1600, 400))
  {
    hide U32, TruncDiv;
    WrapStep(days, 1, TruncDiv(year - 1968, 4));
    res := U32(start + TruncDiv(year - 1968, 4));
    ghost var v := days + TruncDiv(year - 1968, 4);
    WrapStep(v, 1, -TruncDiv(year - 1900, 100));
    res := U32(res - TruncDiv(year - 1900, 100));
    WrapStep(v - TruncDiv(year - 1900, 100), 1, TruncDiv(year - 1600, 400));
    res := U32(res + TruncDiv(year - 1600, 400));
  }

  /** Day of the month and time of day, each step wrapping. */
  method AddTime(ghost days: int, t: Tm, start: nat) returns (res: nat)
    requires start == U32(days)
    ensures res == U32((days + t.mday - 1) * SECS_PER_DAY + t.hour * 3600 + t.min * 60 + t.sec)
  {
    hide U32;
    res := start;
    WrapStep(days, 1, t.mday);
    res := U32(res + t.mday);
    WrapStep(days + t.mday, 1, -1);
    res := U32(res - 1);
    ghost var v := days + t.mday - 1;
    WrapStep(v, 24, 0);
    res := U32(res * 24);
    WrapStep(v * 24, 1, t.hour);
    res := U32(res + t.hour);
    WrapStep(v * 24 + t.hour, 60, 0);
    res := U32(res * 60);
    v := (v * 24 + t.hour) * 60;
    WrapStep(v, 1, t.min);
    res := U32(res + t.min);
    WrapStep(v + t.min, 60, 0);
    res := U32(res * 60);
    WrapStep((v + t.min) * 60, 1, t.sec);
    res := U32(res + t.sec);
  }

  lemma LeapTerms(y: int)
    ensures TruncDiv(y - 1968, 4) - TruncDiv(y - 1900, 100) + TruncDiv(y - 1600, 400)
         == (y - 1968) / 4 - (y - 1900) / 100 + (y - 1600) / 400 + Slip(y)
    ensures -1 <= Slip(y) <= 1 && (y >= 1968 ==> Slip(y) == 0)
  {
    TruncSlips(y, 1968, 4);
    TruncSlips(y, 1900, 100);
    TruncSlips(y, 1600, 400);
    hide TruncDiv;
    Multiples(y);
  }

  lemma TruncSlips(y: int, base: int, m: int)
    requires m > 1 && base % m == 0
    ensures TruncDiv(y - base, m) == (y - base) / m + if y < base && y % m != 0 then 1 else 0
  {
    var q := base / m;
    assert y - base == y - q * m;
    Arith.ModCancel(y - base, q, m);
    TruncIsFloor(y - base, m);
  }

  // ----- round trips -----

  /** Every 32-bit time comes back. */
  method TimeRoundTrip(t: nat) returns (res: nat)
    requires t < TWO32
    ensures res == t
  {
    hide YearStart, MonthStart, Leap, MonthLength;
    var tp := new Tm();
    var ok := GetTime(t, tp);
    res := MkTime(tp);
  }

  lemma FromEpoch(c: Civil)
    requires ValidCivil(c) && EPOCH <= c.year
    ensures 0 <= Seconds(c)
  {
    hide YearStart, MonthStart, Leap;
    InYear(c);
    YearStartClosed(EPOCH);
    if c.year > EPOCH { YearsApart(EPOCH, c.year); }
  }

  /** The date that the fields mean when the month is in range. */
  ghost function Meant(d: Tm): Civil
    reads d
  {
    d.Date().(year := d.year + if d.year < 70 then 2000 else 1900)
  }

  /** Every valid date and time from 1970 on that 32 bits hold comes back, with two-digit years below 70 read
      as 2000 and later. */
  method DateRoundTrip(d: Tm, tp: Tm) returns (ok: int)
    requires d != tp && EPOCH <= Meant(d).year && ValidCivil(Meant(d)) && Seconds(Meant(d)) < TWO32
    modifies tp
    ensures ok == 1 && tp.Date() == Meant(d)
    ensures tp.year == (if d.year < 70 then d.year + 100 else d.year) && tp.mon == d.mon && tp.mday == d.mday
    ensures tp.hour == d.hour && tp.min == d.min && tp.sec == d.sec
  {
    YearRule(d.year, d.mon);
    hide YearStart, MonthStart, Leap, Day, MonthLength;
    ghost var c := Meant(d);
    FromEpoch(c);
    YearRange(c);
    var res := MkTime(d);
    ok := GetTime(res, tp);
    SecondsInjective(tp.Date(), c);
  }

  /** The POSIX.1-2017 formula (Base Definitions, section 4.16) names the same moment. */
  lemma PosixFormula(c: Civil)
    requires ValidCivil(c) && EPOCH <= c.year
    ensures var y, yday := c.year - 1900, Day(c) - YearStart(c.year);
      Seconds(c) == c.sec + c.min * 60 + c.hour * 3600 + yday * 86400 + (y - 70) * 31536000
        + ((y - 69) / 4) * 86400 - ((y - 1) / 100) * 86400 + ((y + 299) / 400) * 86400
  {
    hide YearStart, MonthStart, Leap, MonthLength, Day, Leaps;
    YearStartClosed(c.year);
    PosixLeaps(c.year);
  }

  lemma PosixLeaps(year: int)
    ensures (year - 1969) / 4 - (year - 1901) / 100 + (year - 1601) / 400 == Leaps(year - 1) - Leaps(EPOCH - 1)
  {
    Arith.DivModUnique(year - 1969, 4, (year - 1) / 4 - 492, (year - 1) % 4);
    Arith.DivModUnique(year - 1901, 100, (year - 1) / 100 - 19, (year - 1) % 100);
    Arith.DivModUnique(year - 1601, 400, (year - 1) / 400 - 4, (year - 1) % 400);
  }
}
