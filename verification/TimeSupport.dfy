/** Shifting and comparing broken-down times (crypto/time_support.c). An int that overflows wraps around. */
module TimeSupport {
  import opened Arith
  import opened Calendar

  /** struct tm, as far as it is used: years from 1900, months from 0. */
  class Tm {
    var year: int
    var mon: int
    var mday: int
    var hour: int
    var min: int
    var sec: int

    constructor ()
      ensures year == mon == mday == hour == min == sec == 0
    {
      year, mon, mday, hour, min, sec := 0, 0, 0, 0, 0, 0;
    }

    /** A day that date_to_julian takes without overflow, and a time of day with at most one leap second. */
    ghost predicate InRange()
      reads this
    {
      && FIRST_YEAR <= year + 1900 <= LAST_YEAR && 0 <= mon <= 11 && 1 <= mday <= 31
      && 0 <= hour <= 23 && 0 <= min <= 59 && 0 <= sec <= 60
    }

    function Day(): int
      reads this
    {
      ToJulian(year + 1900, mon + 1, mday)
    }

    function SecondOfDay(): int
      reads this
    {
      hour * 3600 + min * 60 + sec
    }

    /** Seconds since day number 0. */
    function Instant(): int
      reads this
    {
      Day() * SECS_PER_DAY + SecondOfDay()
    }

    /** A date of the calendar and a time without leap second. */
    ghost predicate Normal()
      reads this
    {
      ValidDate(Date(year + 1900, mon + 1, mday)) && 0 <= hour <= 23 && 0 <= min <= 59 && 0 <= sec <= 59
    }
  }

  /** None of the int products of date_to_julian overflows on the years allowed. */
  lemma NoOverflow(y: int, m: int, d: int)
    requires FIRST_YEAR <= y <= LAST_YEAR && 1 <= m <= 12 && 1 <= d <= 31
    ensures 0 <= 1461 * (y + 4800 + TDiv(m - 14, 12)) <= INT_MAX
    ensures 0 <= 3 * TDiv(y + 4900 + TDiv(m - 14, 12), 100) <= INT_MAX
    ensures ToInt(ToJulian(y, m, d)) == ToJulian(y, m, d)
  {
    MonthShift(m);
    JulianParts(y, m, d);
    PlainDivisions(y + 4800 + TDiv(m - 14, 12), m);
  }

  /** How many days a shift moves: the whole days asked for, and those the seconds carry over. */
  function DayShift(second: int, offDay: int, offsetSec: int): int {
    offDay + (second + offsetSec) / SECS_PER_DAY
  }

  /** However large the offset, the int arithmetic gets the seconds right, and the days modulo 2^32. */
  lemma SplitOffset(offsetSec: int)
    ensures var q := ToInt(TDiv(offsetSec, SECS_PER_DAY));
            ToInt(offsetSec - ToInt(q * SECS_PER_DAY)) == TRem(offsetSec, SECS_PER_DAY)
  {
    hide TDiv;
    var t := TDiv(offsetSec, SECS_PER_DAY);
    TRemBounds(offsetSec, SECS_PER_DAY);
    var k1 := ToIntMultiple(t);
    var k2 := ToIntMultiple(ToInt(t) * SECS_PER_DAY);
    ToIntShift(TRem(offsetSec, SECS_PER_DAY), SECS_PER_DAY * k1 + k2);
  }

  lemma CarryDays(second: int, offsetSec: int)
    requires 0 <= second <= SECS_PER_DAY
    ensures var q, s := TDiv(offsetSec, SECS_PER_DAY), second + TRem(offsetSec, SECS_PER_DAY);
            0 - SECS_PER_DAY < s < 2 * SECS_PER_DAY &&
            (second + offsetSec) / SECS_PER_DAY == q + (if s >= SECS_PER_DAY then 1 else if s < 0 then 0 - 1 else 0) &&
            (second + offsetSec) % SECS_PER_DAY ==
            s + (if s >= SECS_PER_DAY then 0 - SECS_PER_DAY else if s < 0 then SECS_PER_DAY else 0)
  {
  }

  /** julian_adj. */
  method JulianAdj(tm: Tm, offDay: int, offsetSec: int) returns (ok: bool, pday: int, psec: int)
    requires tm.InRange() && ToInt(offDay) == offDay
    ensures pday == tm.Day() + ToInt(DayShift(tm.SecondOfDay(), offDay, offsetSec))
    ensures psec == (tm.SecondOfDay() + offsetSec) % SECS_PER_DAY
    ensures ok <==> pday >= 0
  {
    hide ToJulian, TDiv, TRem, ToInt;
    var offsetDay := ToInt(TDiv(offsetSec, SECS_PER_DAY));
    var offsetHms := ToInt(offsetSec - ToInt(offsetDay * SECS_PER_DAY));
    ghost var q := TDiv(offsetSec, SECS_PER_DAY);
    SplitOffset(offsetSec);
    CarryDays(tm.SecondOfDay(), offsetSec);
    ToIntAdd(q, offDay);
    offsetDay := ToInt(offsetDay + offDay);
    offsetHms := offsetHms + tm.hour * 3600 + tm.min * 60 + tm.sec;
    if offsetHms >= SECS_PER_DAY {
      ToIntAdd(q + offDay, 1);
      offsetDay := ToInt(offsetDay + 1);
      offsetHms := offsetHms - SECS_PER_DAY;
    } else if offsetHms < 0 {
      ToIntAdd(q + offDay, -1);
      offsetDay := ToInt(offsetDay - 1);
      offsetHms := offsetHms + SECS_PER_DAY;
    }
    pday := ToJulian(tm.year + 1900, tm.mon + 1, tm.mday);
    pday := pday + offsetDay;
    psec := offsetHms;
    ok := pday >= 0;
  }

  /** The year that a day number falls in, or a year out of range when there is none. */
  function YearOf(jd: int): int {
    if jd < 0 then FIRST_YEAR else ToDate(jd).y
  }

  /** OPENSSL_gmtime_adj. It fails exactly when the day it reaches lies outside the years 1900 to 9999. When it
      succeeds the result is a proper date and time, and the instant has moved by exactly the offset if and
      only if the number of days moved fits in an int. */
  method GmtimeAdj(tm: Tm, offDay: int, offsetSec: int) returns (r: bool)
    requires tm.InRange() && ToInt(offDay) == offDay
    modifies tm
    ensures r <==> 1900 <= YearOf(old(tm.Day() + ToInt(DayShift(tm.SecondOfDay(), offDay, offsetSec)))) <= 9999
    ensures !r ==> unchanged(tm)
    ensures r ==> tm.InRange() && tm.Normal() && 0 <= tm.year <= 8099
    ensures r ==> (tm.Instant() == old(tm.Instant()) + offDay * SECS_PER_DAY + offsetSec <==>
                   -0x8000_0000 <= old(DayShift(tm.SecondOfDay(), offDay, offsetSec)) <= INT_MAX)
  {
    hide ToJulian, ToDate;
    ghost var shift, second := DayShift(tm.SecondOfDay(), offDay, offsetSec), tm.SecondOfDay();
    var ok, jd, time := JulianAdj(tm, offDay, offsetSec);
    if !ok {
      return false;
    }
    var date := ToDate(jd);
    if date.y < 1900 || date.y > 9999 {
      return false;
    }
    JulianRoundTrip(jd);
    SplitTime(time);
    Moved(tm.Day(), second, offDay, offsetSec);
    tm.year := date.y - 1900;
    tm.mon := date.m - 1;
    tm.mday := date.d;
    tm.hour := time / 3600;
    tm.min := time / 60 % 60;
    tm.sec := time % 60;
    r := true;
  }

  lemma SplitTime(time: int)
    requires 0 <= time < SECS_PER_DAY
    ensures 0 <= time / 3600 <= 23 && 0 <= time / 60 % 60 <= 59 && 0 <= time % 60 <= 59
    ensures time / 3600 * 3600 + time / 60 % 60 * 60 + time % 60 == time
  {
  }

  lemma Moved(day: int, second: int, offDay: int, offsetSec: int)
    ensures var shift := DayShift(second, offDay, offsetSec);
            var instant := (day + ToInt(shift)) * SECS_PER_DAY + (second + offsetSec) % SECS_PER_DAY;
            instant == day * SECS_PER_DAY + second + offDay * SECS_PER_DAY + offsetSec <==>
            -0x8000_0000 <= shift <= INT_MAX
  {
  }

  /** A shift of 2^32 days in seconds is taken for no shift at all. */
  lemma ShiftLost(second: int)
    requires 0 <= second < SECS_PER_DAY
    ensures ToInt(DayShift(second, 0, 0x1_0000_0000 * SECS_PER_DAY)) == 0
  {
  }

  /** When the target day is a date of the years 1900 to 9999 and the days fit in an int, the call succeeds. */
  lemma AdjReaches(day: int, shift: int, target: Date)
    requires ValidDate(target) && 1900 <= target.y <= 9999 && Julian(target) == day + shift
    requires -0x8000_0000 <= shift <= INT_MAX
    ensures 1900 <= YearOf(day + ToInt(shift)) <= 9999
  {
    hide ToJulian, ToDate;
    DateRoundTrip(target);
    JulianParts(target.y, target.m, target.d);
    ToIntShift(shift, 0);
  }

  /** OPENSSL_gmtime_diff: the two parts add up to the true difference and do not have opposite signs. */
  method GmtimeDiff(from: Tm, to: Tm) returns (r: bool, day: int, sec: int)
    requires from.InRange() && to.InRange()
    ensures r <==> from.Instant() >= 0 && to.Instant() >= 0
    ensures r ==> day * SECS_PER_DAY + sec == to.Instant() - from.Instant()
    ensures r ==> 0 - SECS_PER_DAY < sec < SECS_PER_DAY && !(day > 0 && sec < 0) && !(day < 0 && sec > 0)
  {
    hide ToJulian;
    day, sec := 0, 0;
    var ok, fromJd, fromSec := JulianAdj(from, 0, 0);
    if !ok {
      return false, 0, 0;
    }
    var toJd, toSec;
    ok, toJd, toSec := JulianAdj(to, 0, 0);
    if !ok {
      return false, 0, 0;
    }
    day := toJd - fromJd;
    sec := toSec - fromSec;
    if day > 0 && sec < 0 {
      day := day - 1;
      sec := sec + SECS_PER_DAY;
    }
    if day < 0 && sec > 0 {
      day := day + 1;
      sec := sec - SECS_PER_DAY;
    }
    NoOverflow(from.year + 1900, from.mon + 1, from.mday);
    NoOverflow(to.year + 1900, to.mon + 1, to.mday);
    r := true;
  }

  /** Those conditions leave one answer, and its sign is the order of the instants. */
  lemma DifferenceUnique(day1: int, sec1: int, day2: int, sec2: int)
    requires day1 * SECS_PER_DAY + sec1 == day2 * SECS_PER_DAY + sec2
    requires 0 - SECS_PER_DAY < sec1 < SECS_PER_DAY && !(day1 > 0 && sec1 < 0) && !(day1 < 0 && sec1 > 0)
    requires 0 - SECS_PER_DAY < sec2 < SECS_PER_DAY && !(day2 > 0 && sec2 < 0) && !(day2 < 0 && sec2 > 0)
    ensures day1 == day2 && sec1 == sec2
  {
  }
}
