/** Day numbers and the shifting of broken-down times (crypto/time_support.c). C's int is 32 bits and wraps
    around, C's long is 64 bits, and C's division truncates. */
module Calendar {
  import opened Arith

  const SECS_PER_DAY := 86400

  /** The Gregorian calendar. Years before 1 are counted astronomically. */
  datatype Date = Date(y: int, m: int, d: int)

  predicate Leap(y: int) {
    y % 4 == 0 && (y % 100 != 0 || y % 400 == 0)
  }

  function MonthDays(y: int, m: int): int
    requires 1 <= m <= 12
  {
    if m == 2 then (if Leap(y) then 29 else 28)
    else if m == 4 || m == 6 || m == 9 || m == 11 then 30
    else 31
  }

  predicate ValidDate(t: Date) {
    1 <= t.m <= 12 && 1 <= t.d <= MonthDays(t.y, t.m)
  }

  function Tomorrow(t: Date): (r: Date)
    requires ValidDate(t)
    ensures ValidDate(r)
  {
    if t.d < MonthDays(t.y, t.m) then t.(d := t.d + 1)
    else if t.m < 12 then Date(t.y, t.m + 1, 1)
    else Date(t.y + 1, 1, 1)
  }

  /** The first year for which date_to_julian never divides a negative number but (m - 14), and the last for
      which none of its int products overflows. */
  const FIRST_YEAR := -4799
  const LAST_YEAR := 1_465_000

  // ---------------------------------------------------------------- day numbers

  /** date_to_julian. */
  function ToJulian(y: int, m: int, d: int): int {
    TDiv(1461 * (y + 4800 + TDiv(m - 14, 12)), 4) +
    TDiv(367 * (m - 2 - 12 * TDiv(m - 14, 12)), 12) -
    TDiv(3 * TDiv(y + 4900 + TDiv(m - 14, 12), 100), 4) + d - 32075
  }

  function Julian(t: Date): int {
    ToJulian(t.y, t.m, t.d)
  }

  /** julian_to_date. */
  function ToDate(jd: int): Date {
    var L0 := jd + 68569;
    var n := TDiv(4 * L0, 146097);
    var L1 := L0 - TDiv(146097 * n + 3, 4);
    var i := TDiv(4000 * (L1 + 1), 1461001);
    var L2 := L1 - TDiv(1461 * i, 4) + 31;
    var j := TDiv(80 * L2, 2447);
    var L3 := TDiv(j, 11);
    Date(100 * (n - 49) + i + L3, j + 2 - 12 * L3, L2 - TDiv(2447 * j, 80))
  }

  /** A year counted from March, its 400-year cycle c, century q and year s within the century, and its
      month mm. */
  datatype March = March(c: nat, q: nat, s: nat, mm: nat)
  {
    predicate Valid() {
      q < 4 && s < 100 && 1 <= mm <= 12
    }
  }

  function MarchYear(y: int, m: int): (r: March)
    requires y >= FIRST_YEAR && 1 <= m <= 12
    ensures r.Valid()
  {
    var a := if m <= 2 then 1 else 0;
    var Y := y + 4800 - a;
    March(Y / 400, Y / 100 % 4, Y % 100, m - 2 + 12 * a)
  }

  lemma MonthShift(m: int)
    requires 1 <= m <= 12
    ensures TDiv(m - 14, 12) == if m <= 2 then -1 else 0
  {
  }

  lemma Hundreds(Y: nat)
    ensures Y == 400 * (Y / 400) + 100 * (Y / 100 % 4) + Y % 100
    ensures (Y + 100) / 100 == 4 * (Y / 400) + Y / 100 % 4 + 1
  {
  }

  lemma CenturyDays(c: nat, q: nat, s: nat)
    requires q < 4
    ensures (1461 * (400 * c + 100 * q + s)) / 4 == 146100 * c + 36525 * q + (1461 * s) / 4
    ensures (3 * (4 * c + q + 1)) / 4 == 3 * c + q
  {
  }

  /** date_to_julian, with the four-hundred-year cycle, the century and the March month taken apart. */
  lemma JulianParts(y: int, m: int, d: int)
    requires y >= FIRST_YEAR && 1 <= m <= 12
    ensures var r := MarchYear(y, m);
            ToJulian(y, m, d) ==
            146097 * r.c + 36524 * r.q + (1461 * r.s) / 4 + (367 * r.mm) / 12 + d - 32075
  {
    hide ToJulian;
    var a := if m <= 2 then 1 else 0;
    var Y := y + 4800 - a;
    PlainJulian(y, m, d);
    Hundreds(Y);
    CenturyDays(Y / 400, Y / 100 % 4, Y % 100);
  }

  lemma PlainJulian(y: int, m: int, d: int)
    requires y >= FIRST_YEAR && 1 <= m <= 12
    ensures var a := if m <= 2 then 1 else 0;
            var Y := y + 4800 - a;
            ToJulian(y, m, d) ==
            (1461 * Y) / 4 + (367 * (m - 2 + 12 * a)) / 12 - (3 * ((Y + 100) / 100)) / 4 + d - 32075
  {
    hide TDiv;
    MonthShift(m);
    var a := if m <= 2 then 1 else 0;
    PlainDivisions(y + 4800 - a, m - 2 + 12 * a);
  }

  lemma PlainDivisions(Y: nat, mm: nat)
    ensures TDiv(1461 * Y, 4) == (1461 * Y) / 4 && TDiv(367 * mm, 12) == (367 * mm) / 12
    ensures TDiv(Y + 100, 100) == (Y + 100) / 100 && TDiv(3 * ((Y + 100) / 100), 4) == (3 * ((Y + 100) / 100)) / 4
  {
  }

  // ---------------------------------------------------------------- date_to_julian counts days

  /** Day numbers count days: the next day of the Gregorian calendar has the next number. */
  lemma JulianCounts(t: Date)
    requires ValidDate(t) && t.y >= FIRST_YEAR
    ensures Julian(Tomorrow(t)) == Julian(t) + 1
  {
    hide ToJulian;
    var n := Tomorrow(t);
    JulianParts(t.y, t.m, t.d);
    JulianParts(n.y, n.m, n.d);
    if n.d == 1 {
      if t.m == 2 {
        LeapParts(t.y);
      }
      MonthEnds(t.y, t.m);
    }
  }

  /** The last day of February is the last of a March year. */
  lemma LeapParts(y: int)
    requires y >= FIRST_YEAR
    ensures var r, n := MarchYear(y, 2), MarchYear(y, 3);
            Leap(y) == (r.s % 4 == 3 && (r.s != 99 || r.q == 3)) &&
            146097 * n.c + 36524 * n.q + (1461 * n.s) / 4 ==
            146097 * r.c + 36524 * r.q + (1461 * r.s) / 4 + (if Leap(y) then 366 else 365)
  {
    var Y := y + 4799;
    SameResidues(y);
    NextYear(Y);
    YearLength(Y / 400, Y / 100 % 4, Y % 100);
  }

  lemma SameResidues(y: int)
    ensures y % 4 == (y + 4800) % 4 && y % 100 == (y + 4800) % 100 && y % 400 == (y + 4800) % 400
  {
    EuclidUnique(y + 4800, 4, y / 4 + 1200, y % 4);
    EuclidUnique(y + 4800, 100, y / 100 + 48, y % 100);
    EuclidUnique(y + 4800, 400, y / 400 + 12, y % 400);
  }

  lemma YearLength(c: nat, q: nat, s: nat)
    requires q < 4 && s < 100
    ensures var s', q', c' := if s == 99 then 0 else s + 1, if s < 99 then q else if q < 3 then q + 1 else 0,
                              if s == 99 && q == 3 then c + 1 else c;
            146097 * c' + 36524 * q' + (1461 * s') / 4 ==
            146097 * c + 36524 * q + (1461 * s) / 4 + (if s % 4 == 3 && (s != 99 || q == 3) then 366 else 365)
  {
  }

  lemma NextYear(Y: nat)
    ensures var s, q, c := Y % 100, Y / 100 % 4, Y / 400;
            && ((Y + 1) % 4 == 0 <==> s % 4 == 3)
            && ((Y + 1) % 100 == 0 <==> s == 99)
            && ((Y + 1) % 400 == 0 <==> s == 99 && q == 3)
            && (Y + 1) % 100 == (if s == 99 then 0 else s + 1)
            && (Y + 1) / 100 % 4 == (if s < 99 then q else if q < 3 then q + 1 else 0)
            && (Y + 1) / 400 == (if s == 99 && q == 3 then c + 1 else c)
  {
    Hundreds(Y);
    Hundreds(Y + 1);
  }

  lemma MonthEnds(y: int, m: int)
    requires y >= FIRST_YEAR && 1 <= m <= 12
    ensures m != 2 && m != 12 ==>
              (367 * MarchYear(y, m).mm) / 12 + MonthDays(y, m) == (367 * MarchYear(y, m + 1).mm) / 12 &&
              MarchYear(y, m + 1) == MarchYear(y, m).(mm := MarchYear(y, m).mm + 1)
    ensures m == 12 ==>
              (367 * MarchYear(y, m).mm) / 12 + MonthDays(y, m) == (367 * MarchYear(y + 1, 1).mm) / 12 &&
              MarchYear(y + 1, 1) == MarchYear(y, 12).(mm := 11)
    ensures m == 2 ==> (367 * MarchYear(y, 2).mm) / 12 == 367 && (367 * MarchYear(y, 3).mm) / 12 == 30
  {
  }

  // ---------------------------------------------------------------- julian_to_date

  /** Days of a March year, from 0, and the quotients that julian_to_date takes. */
  lemma CenturyQuotient(c: nat, q: nat, s: nat, e: nat)
    requires q < 4 && s < 100 && e <= 365 && (e == 365 ==> s % 4 == 3 && (s != 99 || q == 3))
    ensures var L := 146097 * c + 36524 * q + (1461 * s) / 4 + e + 36525;
            var n := 4 * c + q + 1;
            (4 * L) / 146097 == n && L - (146097 * n + 3) / 4 == (1461 * s) / 4 + e
  {
  }

  lemma YearQuotient(s: nat, e: nat)
    requires s < 100 && e <= 365 && (e == 365 ==> s % 4 == 3)
    ensures (4000 * ((1461 * s) / 4 + e + 1)) / 1461001 == s
  {
  }

  lemma MonthQuotient(mm: nat, d: nat)
    requires 1 <= mm <= 12 && 1 <= d <= (if mm == 12 then 29 else (367 * (mm + 1)) / 12 - (367 * mm) / 12)
    ensures (80 * ((367 * mm) / 12 + d)) / 2447 == mm && (2447 * mm) / 80 == (367 * mm) / 12
  {
  }

  /** julian_to_date inverts date_to_julian on every valid date from the first year on. */
  lemma DateRoundTrip(t: Date)
    requires ValidDate(t) && t.y >= FIRST_YEAR
    ensures ToDate(Julian(t)) == t
  {
    hide ToJulian, ToDate, MonthDays, Leap;
    JulianParts(t.y, t.m, t.d);
    var r := MarchYear(t.y, t.m);
    DayOfMarchYear(t);
    var e := (367 * r.mm) / 12 - 30 + t.d - 1;
    CenturyQuotient(r.c, r.q, r.s, e);
    YearQuotient(r.s, e);
    MonthQuotient(r.mm, t.d);
    ToDateFrom(Julian(t), r, t.d, e);
    Hundreds(if t.m <= 2 then t.y + 4799 else t.y + 4800);
  }

  lemma DayOfMarchYear(t: Date)
    requires ValidDate(t) && t.y >= FIRST_YEAR
    ensures var r := MarchYear(t.y, t.m);
            var e := (367 * r.mm) / 12 - 30 + t.d - 1;
            && 1 <= t.d <= (if r.mm == 12 then 29 else (367 * (r.mm + 1)) / 12 - (367 * r.mm) / 12)
            && 0 <= e <= 365 && (e == 365 ==> r.s % 4 == 3 && (r.s != 99 || r.q == 3))
  {
    if t.m == 2 {
      LeapParts(t.y);
    } else {
      MonthEnds(t.y, t.m);
    }
  }

  lemma ToDateFrom(jd: int, r: March, d: int, e: nat)
    requires r.Valid() && e == (367 * r.mm) / 12 - 30 + d - 1 && d >= 1
    requires jd + 68569 == 146097 * r.c + 36524 * r.q + (1461 * r.s) / 4 + e + 36525
    requires var L, n := jd + 68569, 4 * r.c + r.q + 1;
             (4 * L) / 146097 == n && L - (146097 * n + 3) / 4 == (1461 * r.s) / 4 + e
    requires (4000 * ((1461 * r.s) / 4 + e + 1)) / 1461001 == r.s
    requires (80 * (e + 31)) / 2447 == r.mm && (2447 * r.mm) / 80 == (367 * r.mm) / 12
    ensures ToDate(jd) == var l := if r.mm >= 11 then 1 else 0;
                          Date(100 * (4 * r.c + r.q + 1 - 49) + r.s + l, r.mm + 2 - 12 * l, d)
  {
    hide TDiv, Abs;
    var L, n := jd + 68569, 4 * r.c + r.q + 1;
    PlainTDiv(4 * L, 146097);
    PlainTDiv(146097 * n + 3, 4);
    PlainTDiv(4000 * ((1461 * r.s) / 4 + e + 1), 1461001);
    PlainTDiv(1461 * r.s, 4);
    PlainTDiv(80 * (e + 31), 2447);
    PlainTDiv(r.mm, 11);
    PlainTDiv(2447 * r.mm, 80);
  }

  lemma PlainTDiv(x: nat, k: nat)
    requires k > 0
    ensures TDiv(x, k) == x / k
  {
  }

  /** Every day number from the first day on belongs to a date. */
  lemma {:induction false} DateExists(jd: int) returns (t: Date)
    requires jd >= Julian(Date(FIRST_YEAR, 1, 1))
    ensures ValidDate(t) && t.y >= FIRST_YEAR && Julian(t) == jd
    decreases jd - Julian(Date(FIRST_YEAR, 1, 1))
  {
    hide ToJulian;
    var first := Date(FIRST_YEAR, 1, 1);
    if jd == Julian(first) {
      t := first;
    } else {
      var before := DateExists(jd - 1);
      JulianCounts(before);
      t := Tomorrow(before);
    }
  }

  /** julian_to_date yields the one valid date with that number. */
  lemma JulianRoundTrip(jd: int)
    requires jd >= 0
    ensures ValidDate(ToDate(jd)) && ToDate(jd).y >= FIRST_YEAR && Julian(ToDate(jd)) == jd
  {
    assert Julian(Date(FIRST_YEAR, 1, 1)) < 0;
    var t := DateExists(jd);
    DateRoundTrip(t);
  }
}
