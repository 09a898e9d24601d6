// Seconds since 1970 to calendar fields and back: localtime_r, and the date
// sum of read_cmos.

module Calendar {
  import opened Arith
  import opened Bytes

  const DAY := 86400

  /** The first instant of 2038: no later year ends within a signed 32-bit count. */
  const START_2038 := 2145916800

  // ----- C arithmetic -----

  function CDiv(a: int, b: int): int
    requires b > 0
  {
    if a >= 0 then a / b else -(-a / b)
  }

  function CMod(a: int, b: int): int
    requires b > 0
  {
    a - CDiv(a, b) * b
  }

  /** Division cuts off towards zero, and the remainder has the sign of the dividend. */
  lemma Truncates(a: int, b: int)
    requires b > 0
    ensures CDiv(a, b) * b + CMod(a, b) == a
    ensures if a >= 0 then 0 <= CMod(a, b) < b else -b < CMod(a, b) <= 0
  {
    DivModParts(if a >= 0 then a else -a, b);
  }

  // ----- the calendar -----

  predicate Leap(y: int) {
    y % 4 == 0 && (y % 100 != 0 || y % 400 == 0)
  }

  function YearDays(y: int): int {
    if Leap(y) then 366 else 365
  }

  /** As the source has it: December has no entry. */
  function DaysInMonth(month: int, y: int): nat {
    match month
    case 11 => 30
    case 10 => 31
    case 9 => 30
    case 8 => 31
    case 7 => 31
    case 6 => 30
    case 5 => 31
    case 4 => 30
    case 3 => 31
    case 2 => if Leap(y) then 29 else 28
    case 1 => 31
    case _ => 0
  }

  /** Days from the start of 1970 to the start of y. */
  function DaysBeforeYear(y: int): nat {
    if y <= 1970 then 0 else DaysBeforeYear(y - 1) + YearDays(y - 1)
  }

  /** Days from the start of the year to the start of the month. */
  function DaysBeforeMonth(month: int, y: int): nat {
    if month <= 1 then 0 else DaysBeforeMonth(month - 1, y) + DaysInMonth(month - 1, y)
  }

  function YearStart(y: int): int {
    DaysBeforeYear(y) * DAY
  }

  function MonthStart(month: int, y: int): int {
    YearStart(y) + DaysBeforeMonth(month, y) * DAY
  }

  /** Negative counts belong to 1970. */
  ghost predicate InYear(t: int, y: int) {
    1970 <= y && (y == 1970 || YearStart(y) <= t) && t < YearStart(y + 1)
  }

  /** Between 1970 and 2100 every fourth year is leap. */
  lemma {:induction false} YearClosed(y: int)
    requires 1970 <= y <= 2100
    ensures DaysBeforeYear(y) == 365 * (y - 1970) + (y - 1969) / 4
  {
    if y > 1970 {
      YearClosed(y - 1);
      assert Leap(y - 1) <==> (y - 1) % 4 == 0;
    }
  }

  lemma {:induction false} DaysGrow(y: int, y': int)
    requires y <= y'
    ensures DaysBeforeYear(y) <= DaysBeforeYear(y')
    decreases y' - y
  {
    if y < y' {
      DaysGrow(y, y' - 1);
    }
  }

  lemma {:induction false} MonthsGrow(m: int, m': int, y: int)
    ensures m <= m' ==> DaysBeforeMonth(m, y) <= DaysBeforeMonth(m', y)
    ensures DaysBeforeMonth(1, y) == 0
    decreases m' - m
  {
    if m < m' {
      MonthsGrow(m, m' - 1, y);
    }
  }

  lemma MonthLengths(y: int)
    ensures forall m :: 1 <= m <= 11 ==> DaysInMonth(m, y) > 0
    ensures DaysInMonth(12, y) == 0
  {
  }

  lemma YearUnique(t: int, y: int, y': int)
    requires InYear(t, y) && InYear(t, y')
    ensures y == y'
  {
    if y < y' {
      DaysGrow(y + 1, y');
    } else if y' < y {
      DaysGrow(y' + 1, y);
    }
  }

  // ----- fields -----

  class Tm {
    var sec: int
    var min: int
    var hour: int
    var mday: int
    var mon: int
    var year: int
    var wday: int
    var yday: int
    var isdst: int

    constructor () { }
  }

  /** The count that calendar fields stand for. */
  function Stamp(year: int, month: int, day: int, hour: int, min: int, sec: int): int {
    MonthStart(month, year) + (day - 1) * DAY + hour * 3600 + min * 60 + sec
  }

  ghost function StampOf(tm: Tm): int
    reads tm
  {
    Stamp(tm.year + 1900, tm.mon + 1, tm.mday, tm.hour, tm.min, tm.sec)
  }

  ghost predicate InRange(tm: Tm)
    reads tm
  {
    && 0 <= tm.mon <= 10 && 1 <= tm.mday <= DaysInMonth(tm.mon + 1, tm.year + 1900)
    && 0 <= tm.hour <= 23 && tm.min <= 60 && tm.sec <= 59
  }

  lemma Minutes(x: int)
    requires x <= 3600
    ensures CDiv(x, 60) * 60 + CMod(x, 60) == x && CDiv(x, 60) <= 60 && CMod(x, 60) <= 59
    ensures 0 <= x ==> 0 <= CDiv(x, 60) && 0 <= CMod(x, 60)
    ensures x <= 0 ==> CDiv(x, 60) <= 0 && -60 < CMod(x, 60) <= 0
    ensures CDiv(x, 60) == 60 <==> x == 3600
  {
  }

  lemma WholeHour(h: int, x: int)
    requires 0 < x <= 3600
    ensures (h * 3600 + x) % 3600 == 0 <==> x == 3600
  {
    if x < 3600 {
      DivModUnique(h * 3600 + x, h, 3600, x);
    } else {
      DivModUnique(h * 3600 + x, h + 1, 3600, 0);
    }
  }

  /** The hour loop, from the start of a day. */
  method FindHour(t: int, start: int, yearSec: int, tm: Tm) returns (found: bool)
    requires start < t || t <= yearSec <= start
    modifies tm
    ensures found <==> t <= start + DAY
    ensures tm.year == old(tm.year) && tm.mon == old(tm.mon) && tm.mday == old(tm.mday)
    ensures found ==> 0 <= tm.hour <= 23 && start + tm.hour * 3600 + tm.min * 60 + tm.sec == t
    ensures found ==> tm.min <= 60 && tm.sec <= 59 && (start <= t ==> 0 <= tm.min && 0 <= tm.sec)
    ensures found ==> (tm.min == 60 <==> start < t && (t - start) % 3600 == 0)
    ensures found ==> start < t ==> tm.min * 60 + tm.sec > 0
    ensures found ==> t <= start ==> tm.hour == 0 && tm.min <= 0 && -60 < tm.sec <= 0
    ensures found ==> tm.wday == CMod(CDiv(t, DAY) + 4, 7) && tm.yday == CDiv(t - yearSec, DAY)
  {
    hide CDiv, CMod;
    var seconds := start;
    for hour := 1 to 25
      invariant seconds == start + (hour - 1) * 3600 && (hour == 1 || seconds < t)
      invariant tm.year == old(tm.year) && tm.mon == old(tm.mon) && tm.mday == old(tm.mday)
    {
      if seconds + 3600 >= t {
        var remaining := t - seconds;
        Minutes(remaining);
        if start < t {
          WholeHour(hour - 1, remaining);
        }
        tm.hour := hour - 1;
        tm.min := CDiv(remaining, 60);
        tm.sec := CMod(remaining, 60);
        tm.wday := CMod(CDiv(t, DAY) + 4, 7);
        tm.yday := CDiv(t - yearSec, DAY);
        tm.isdst := 0;
        return true;
      }
      seconds := seconds + 3600;
    }
    return false;
  }

  /** The day loop, from the start of a month. */
  method FindDay(t: int, start: int, yearSec: int, tm: Tm, month: int, year: int) returns (found: bool)
    requires start < t || t <= yearSec == start
    modifies tm
    ensures found <==> t <= start + DaysInMonth(month, year) * DAY && DaysInMonth(month, year) > 0
    ensures tm.year == old(tm.year) && tm.mon == old(tm.mon)
    ensures found ==> 1 <= tm.mday <= DaysInMonth(month, year) && FieldsFrom(t, start, yearSec, tm)
  {
    hide CDiv, CMod;
    var seconds := start;
    for day := 1 to DaysInMonth(month, year) + 1
      invariant seconds == start + (day - 1) * DAY && (day == 1 || seconds < t)
      invariant tm.year == old(tm.year) && tm.mon == old(tm.mon)
    {
      if seconds + DAY >= t {
        tm.mday := day;
        found := FindHour(t, seconds, yearSec, tm);
        HourOf(t - start, day - 1);
        return;
      }
      seconds := seconds + DAY;
    }
    return false;
  }

  /** What the hour and day loops leave, for a month that begins at start. */
  ghost predicate FieldsFrom(t: int, start: int, yearSec: int, tm: Tm)
    reads tm
  {
    && start + (tm.mday - 1) * DAY + tm.hour * 3600 + tm.min * 60 + tm.sec == t
    && 0 <= tm.hour <= 23 && tm.min <= 60 && tm.sec <= 59 && (start <= t ==> 0 <= tm.min && 0 <= tm.sec)
    && (tm.min == 60 <==> start < t && (t - start) % 3600 == 0) && (start < t ==> tm.min * 60 + tm.sec > 0)
    && (t <= start ==> tm.mday == 1 && tm.hour == 0 && tm.min <= 0 && -60 < tm.sec <= 0)
    && tm.wday == CMod(CDiv(t, DAY) + 4, 7) && tm.yday == CDiv(t - yearSec, DAY)
  }

  /** The month loop, from the start of a year. */
  method FindMonth(t: int, year: int, tm: Tm) returns (found: bool)
    requires InYear(t, year) && tm.year == year - 1900
    modifies tm
    ensures found <==> t <= MonthStart(12, year)
    ensures tm.year == year - 1900
    ensures found ==> StampOf(tm) == t && InRange(tm)
    ensures found ==> FieldsFrom(t, MonthStart(tm.mon + 1, year), YearStart(year), tm)
    ensures found ==> MonthStart(tm.mon + 1, year) < t || (t <= YearStart(year) && tm.mon == 0)
  {
    hide CDiv, CMod, DaysBeforeYear, DaysInMonth;
    MonthLengths(year);
    var seconds := YearStart(year);
    for month := 1 to 13
      invariant seconds == MonthStart(month, year) && (month == 1 || seconds < t)
      invariant tm.year == year - 1900
    {
      var secs := DaysInMonth(month, year) * DAY;
      if seconds + secs >= t {
        tm.mon := month - 1;
        MonthsGrow(month + 1, 12, year);
        found := FindDay(t, seconds, YearStart(year), tm, month, year);
        return;
      }
      seconds := seconds + secs;
    }
    return false;
  }

  /** On a whole hour the fields say minute 60 of the hour before, except at the start of the year; on a midnight the
      day of the year runs ahead of the month and day. */
  lemma WholeHours(t: int, year: int, tm: Tm)
    requires InRange(tm) && FieldsFrom(t, MonthStart(tm.mon + 1, year), YearStart(year), tm)
    requires MonthStart(tm.mon + 1, year) < t || (t <= YearStart(year) && tm.mon == 0)
    ensures tm.min == 60 <==> YearStart(year) < t && t % 3600 == 0
    ensures YearStart(year) <= t ==>
      (tm.yday == DaysBeforeMonth(tm.mon + 1, year) + tm.mday - 1 <==> t == YearStart(year) || t % DAY != 0)
  {
    hide DaysBeforeYear, DaysBeforeMonth, DaysInMonth, CMod, CDiv;
    MonthsGrow(1, 1, year);
    HourOf(t, DaysBeforeYear(year) + DaysBeforeMonth(tm.mon + 1, year));
    var days := DaysBeforeMonth(tm.mon + 1, year) + tm.mday - 1;
    if YearStart(year) <= t {
      assert MonthStart(tm.mon + 1, year) <= t;
      Midnight(t, DaysBeforeYear(year), days, tm.hour * 3600 + tm.min * 60 + tm.sec);
    }
  }

  lemma HourOf(t: int, days: int)
    ensures (t - days * DAY) % 3600 == t % 3600
  {
    DivModUnique(t - days * DAY, t / 3600 - 24 * days, 3600, t % 3600);
  }

  lemma Midnight(t: int, y: int, days: int, rest: int)
    requires days >= 0 && t == (y + days) * DAY + rest && 0 <= rest <= DAY && y * DAY <= t && (rest > 0 || t == y * DAY)
    ensures CDiv(t - y * DAY, DAY) == days <==> t == y * DAY || t % DAY != 0
  {
    if rest < DAY {
      DivModUnique(t, y + days, DAY, rest);
      DivModUnique(t - y * DAY, days, DAY, rest);
    } else {
      DivModUnique(t, y + days + 1, DAY, 0);
      DivModUnique(t - y * DAY, days + 1, DAY, 0);
    }
  }

  /** localtime_r: fails exactly after the first instant of a December. */
  method LocalTime(t: int, tm: Tm) returns (found: bool)
    requires -0x8000_0000 <= t < START_2038
    modifies tm
    ensures InYear(t, tm.year + 1900)
    ensures found <==> t <= MonthStart(12, tm.year + 1900)
    ensures found ==> StampOf(tm) == t && InRange(tm)
    ensures found && 0 <= t ==> 0 <= tm.min && 0 <= tm.sec && tm.wday == (t / DAY + 4) % 7
    ensures t < 0 ==> found && tm.year == 70 && tm.mon == 0 && tm.mday == 1 && tm.hour == 0
    ensures t < 0 ==> tm.min * 60 + tm.sec == t && tm.min <= 0 && -60 < tm.sec <= 0
    ensures found ==> tm.wday == CMod(CDiv(t, DAY) + 4, 7)
    ensures found ==> (tm.min == 60 <==> YearStart(tm.year + 1900) < t && t % 3600 == 0)
    ensures found && 0 <= t ==>
      (tm.yday == DaysBeforeMonth(tm.mon + 1, tm.year + 1900) + tm.mday - 1 <==>
          t == YearStart(tm.year + 1900) || t % DAY != 0)
  {
    hide DaysBeforeYear, DaysBeforeMonth, DaysInMonth;
    var seconds := 0;
    YearClosed(1970);
    for year := 1970 to 2100
      invariant seconds == YearStart(year) && (year == 1970 || seconds <= t)
    {
      var secs := YearDays(year) * DAY;
      YearStep(year);
      if seconds + secs >= t + 1 {
        EndFits(t, year);
        MonthsGrow(1, 12, year);
        tm.year := year - 1900;
        found := FindMonth(t, year, tm);
        if found {
          WholeHours(t, year, tm);
        }
        return;
      }
      seconds := seconds + secs;
    }
    YearClosed(2100);
    assert false;
  }

  lemma YearStep(y: int)
    requires y >= 1970
    ensures YearStart(y + 1) == YearStart(y) + YearDays(y) * DAY
  {
  }

  /** The sum compared against the time never leaves a signed 32-bit long. */
  lemma EndFits(t: int, y: int)
    requires 1970 <= y < 2100 && t < START_2038 && (y == 1970 || YearStart(y) <= t)
    ensures YearStart(y + 1) <= START_2038 < 0x8000_0000
  {
    YearClosed(y);
    YearClosed(y + 1);
  }

  // ----- the date sum -----

  lemma ModMul(a: int, k: int)
    ensures (a % U32 * k) % U32 == (a * k) % U32
  {
    var q, x := a / U32, a % U32 * k;
    assert a * k == q * U32 * k + x;
    DivModUnique(a * k, x / U32 + q * k, U32, x % U32);
  }

  lemma ModAdd(a: int, b: int)
    ensures (a % U32 + b) % U32 == (a + b) % U32
  {
    DivModUnique(a + b, (a % U32 + b) / U32 + a / U32, U32, (a % U32 + b) % U32);
  }

  /** Counts down from the given year; years before 1970 count nothing. */
  method SecsOfYears(years: int) returns (r: int)
    ensures r == YearStart(years + 2001) % U32
  {
    var y, days := years + 2000, 0;
    while y > 1969
      invariant y == years + 2000 || (y <= years + 2000 && y >= 1969)
      invariant days == (DaysBeforeYear(years + 2001) - DaysBeforeYear(y + 1)) % U32
    {
      ghost var done := DaysBeforeYear(years + 2001) - DaysBeforeYear(y + 1);
      ModAdd(done, 365);
      ModAdd(done + 365, 1);
      days := (days + 365) % U32;
      if y % 4 == 0 {
        if y % 100 == 0 {
          if y % 400 == 0 {
            days := (days + 1) % U32;
          }
        } else {
          days := (days + 1) % U32;
        }
      }
      y := y - 1;
    }
    ModMul(DaysBeforeYear(years + 2001), DAY);
    r := days * DAY % U32;
  }

  /** The running totals of the months, which the date sum has its own table for. */
  lemma MonthTable(y: int)
    ensures DaysBeforeMonth(1, y) == 0 && DaysBeforeMonth(2, y) == 31
    ensures var f := if Leap(y) then 60 else 59;
            && DaysBeforeMonth(3, y) == f && DaysBeforeMonth(4, y) == f + 31 && DaysBeforeMonth(5, y) == f + 61
            && DaysBeforeMonth(6, y) == f + 92 && DaysBeforeMonth(7, y) == f + 122 && DaysBeforeMonth(8, y) == f + 153
            && DaysBeforeMonth(9, y) == f + 184 && DaysBeforeMonth(10, y) == f + 214
            && DaysBeforeMonth(11, y) == f + 245 && DaysBeforeMonth(12, y) == f + 275
  {
  }

  /** The switch falls through from the given month down to the first. */
  method SecsOfMonth(months: int, year: int) returns (r: int)
    ensures r == if 1 <= months <= 11 then DaysBeforeMonth(months + 1, year + 2000) * DAY else 0
  {
    hide DaysBeforeMonth, DaysInMonth;
    var y, days := year + 2000, 0;
    MonthTable(y);
    if 1 <= months <= 11 {
      if months >= 11 { days := days + 30; }
      if months >= 10 { days := days + 31; }
      if months >= 9 { days := days + 30; }
      if months >= 8 { days := days + 31; }
      if months >= 7 { days := days + 31; }
      if months >= 6 { days := days + 30; }
      if months >= 5 { days := days + 31; }
      if months >= 4 { days := days + 30; }
      if months >= 3 { days := days + 31; }
      if months >= 2 {
        days := days + 28;
        if y % 4 == 0 && (y % 100 != 0 || y % 400 == 0) { days := days + 1; }
      }
      days := days + 31;
    }
    r := days * DAY;
  }

  /** The sum of read_cmos in 32-bit arithmetic, from decoded fields; the year counts from 2000, and a month past
      December counts as the first. */
  method DateSum(year: int, month: int, day: int, hour: int, min: int, sec: int) returns (r: int)
    ensures r == Stamp(year + 2000, if month <= 12 then month else 1, day, hour, min, sec) % U32
  {
    var ys := SecsOfYears(year - 1);
    var ms := SecsOfMonth(month - 1, year);
    ghost var rest := ms + (day - 1) * DAY + hour * 3600 + min * 60 + sec;
    ModAdd(YearStart(year + 2000), rest);
    r := (ys + ms + (day - 1) * DAY + hour * 3600 + min * 60 + sec) % U32;
  }

  /** Where localtime_r answers, the date sum of its fields is the time it was given. */
  method RoundTrip(t: int) returns (found: bool, r: int)
    requires 0 <= t < START_2038
    ensures found <==> exists y :: InYear(t, y) && t <= MonthStart(12, y)
    ensures found ==> r == t
  {
    hide DaysBeforeYear, DaysBeforeMonth, DaysInMonth, CDiv, CMod, Stamp, MonthStart, YearStart, InYear;
    var tm := new Tm();
    found := LocalTime(t, tm);
    ghost var y := tm.year + 1900;
    assert forall y' :: InYear(t, y') ==> y' == y by {
      forall y' | InYear(t, y')
        ensures y' == y
      {
        YearUnique(t, y, y');
      }
    }
    r := 0;
    if found {
      r := DateSum(tm.year - 100, tm.mon + 1, tm.mday, tm.hour, tm.min, tm.sec);
    }
  }
}
