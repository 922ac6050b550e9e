/** UTCTime strings: parsing, printing and comparing (crypto/asn1/a_utctm.c). */
module UtcTime {
  import opened Arith
  import opened Bytes
  import opened Calendar
  import opened TimeSupport

  // ---------------------------------------------------------------- the accepted strings

  function DigitValue(c: char): int {
    c as int - '0' as int
  }

  /** Two digits at o, or -1. */
  function Pair(s: string, o: nat): (r: int)
    ensures -1 <= r <= 99
  {
    if o + 1 < |s| && IsDigit(s[o]) && IsDigit(s[o + 1])
    then DigitValue(s[o]) * 10 + DigitValue(s[o + 1]) else -1
  }

  function Least(i: nat): nat {
    if i == 1 || i == 2 then 1 else 0
  }

  function Most(i: nat): nat {
    if i == 0 then 99 else if i == 1 then 12 else if i == 2 then 31 else if i == 3 then 23 else
    if i == 6 then 12 else 59
  }

  /** Field number i at o, or -1 when it is missing or out of range. */
  function Field(s: string, o: nat, i: nat): (r: int)
    ensures r != -1 ==> Least(i) <= r <= Most(i) && o + 1 < |s|
  {
    if Least(i) <= Pair(s, o) <= Most(i) then Pair(s, o) else -1
  }

  predicate Signed(s: string, o: nat) {
    o < |s| && (s[o] == '+' || s[o] == '-')
  }

  predicate StartsZone(s: string, o: nat) {
    Signed(s, o) || (o < |s| && s[o] == 'Z')
  }

  /** The zone at o, which ends the string: nothing, Z, or a signed hour and minute. */
  function Zone(s: string, o: nat): Option<int> {
    if o == |s| || (o + 1 == |s| && s[o] == 'Z') then Some(0)
    else if Signed(s, o) && o + 5 == |s| && Field(s, o + 1, 6) >= 0 && Field(s, o + 3, 7) >= 0 then
      var seconds := Field(s, o + 1, 6) * 3600 + Field(s, o + 3, 7) * 60;
      Some(if s[o] == '-' then 0 - seconds else seconds)
    else None
  }

  datatype Stamp = Stamp(year: int, mon: int, mday: int, hour: int, min: int, sec: int, zone: int)

  predicate FieldsThere(s: string) {
    && |s| >= 11 && Field(s, 0, 0) >= 0 && Field(s, 2, 1) >= 0 && Field(s, 4, 2) >= 0 && Field(s, 6, 3) >= 0
    && Field(s, 8, 4) >= 0 && (StartsZone(s, 10) || Field(s, 10, 5) >= 0)
  }

  /** Two-digit years below 50 belong to this century. */
  function FullYear(yy: int): int {
    if yy < 50 then yy + 100 else yy
  }

  /** What a UTCTime string says, if it is one: YYMMDDhhmm, the seconds unless a zone follows at once, the
      zone. */
  function Reading(s: string): Option<Stamp> {
    if !FieldsThere(s) then None
    else
      var zone := Zone(s, if StartsZone(s, 10) then 10 else 12);
      if zone.None? then None
      else Some(Stamp(FullYear(Field(s, 0, 0)), Field(s, 2, 1) - 1, Field(s, 4, 2), Field(s, 6, 3), Field(s, 8, 4),
                      if StartsZone(s, 10) then 0 else Field(s, 10, 5), zone.value))
  }

  function StampInstant(t: Stamp): int {
    ToJulian(t.year + 1900, t.mon + 1, t.mday) * SECS_PER_DAY + (t.hour * 3600 + t.min * 60 + t.sec) + t.zone
  }

  /** The instant that X.680 gives the string: a local time is ahead of UTC by its offset. */
  function NamedInstant(t: Stamp): int {
    StampInstant(t.(zone := 0)) - t.zone
  }

  // ---------------------------------------------------------------- parsing

  /** One field of the main loop: two digits in range, or an error. */
  method ReadField(s: string, start: nat, i: nat) returns (n: int)
    ensures n == Field(s, start, i)
  {
    var o := start;
    if o >= |s| || !IsDigit(s[o]) {
      return -1;
    }
    n := DigitValue(s[o]);
    o := o + 1;
    if o >= |s| || !IsDigit(s[o]) {
      return -1;
    }
    n := n * 10 + DigitValue(s[o]);
    if n < Least(i) || n > Most(i) {
      return -1;
    }
  }

  /** The main loop of asn1_utctime_to_tm: up to six fields, the seconds being optional. */
  method ReadFields(tm: Tm, s: string) returns (ok: bool, o: nat)
    requires |s| >= 11
    modifies tm
    ensures ok <==> FieldsThere(s)
    ensures ok ==> o == (if StartsZone(s, 10) then 10 else 12) <= |s|
    ensures ok ==> tm.year == FullYear(Field(s, 0, 0)) && tm.mon == Field(s, 2, 1) - 1
    ensures ok ==> tm.mday == Field(s, 4, 2) && tm.hour == Field(s, 6, 3) && tm.min == Field(s, 8, 4)
    ensures ok ==> tm.sec == if StartsZone(s, 10) then 0 else Field(s, 10, 5)
  {
    hide Field, StartsZone;
    o := 0;
    var i := 0;
    while i < 6
      invariant 0 <= i <= 6 && o == 2 * i <= |s|
      invariant i == 6 ==> !StartsZone(s, 10)
      invariant i > 0 ==> Field(s, 0, 0) >= 0 && tm.year == FullYear(Field(s, 0, 0))
      invariant i > 1 ==> Field(s, 2, 1) >= 0 && tm.mon == Field(s, 2, 1) - 1
      invariant i > 2 ==> Field(s, 4, 2) >= 0 && tm.mday == Field(s, 4, 2)
      invariant i > 3 ==> Field(s, 6, 3) >= 0 && tm.hour == Field(s, 6, 3)
      invariant i > 4 ==> Field(s, 8, 4) >= 0 && tm.min == Field(s, 8, 4)
      invariant i > 5 ==> Field(s, 10, 5) >= 0 && tm.sec == Field(s, 10, 5)
    {
      if i == 5 && StartsZone(s, o) {
        tm.sec := 0;
        return true, o;
      }
      var n := ReadField(s, o, i);
      if n == -1 {
        return false, o;
      }
      Store(tm, i, n);
      o := o + 2;
      i := i + 1;
    }
    ok := true;
  }

  method Store(tm: Tm, i: nat, n: int)
    modifies tm
    ensures tm.year == if i == 0 then FullYear(n) else old(tm.year)
    ensures tm.mon == if i == 1 then n - 1 else old(tm.mon)
    ensures tm.mday == if i == 2 then n else old(tm.mday)
    ensures tm.hour == if i == 3 then n else old(tm.hour)
    ensures tm.min == if i == 4 then n else old(tm.min)
    ensures tm.sec == if i == 5 then n else old(tm.sec)
  {
    match i
    case 0 => tm.year := if n < 50 then n + 100 else n;
    case 1 => tm.mon := n - 1;
    case 2 => tm.mday := n;
    case 3 => tm.hour := n;
    case 4 => tm.min := n;
    case 5 => tm.sec := n;
    case _ =>
  }

  /** The zone part of asn1_utctime_to_tm: the offset is added to what the fields say. */
  method ReadZone(tm: Tm, s: string, start: nat) returns (r: bool)
    requires start <= |s| && tm.InRange() && 50 <= tm.year < 150 && tm.sec <= 59
    modifies tm
    ensures r <==> Zone(s, start).Some?
    ensures r ==> tm.InRange() && tm.Instant() == old(tm.Instant()) + Zone(s, start).value
    ensures r && Zone(s, start).value == 0 ==> unchanged(tm)
  {
    hide ToJulian, YearOf, Field;
    var o := start;
    if o < |s| && s[o] == 'Z' {
      o := o + 1;
    } else if o < |s| && (s[o] == '+' || s[o] == '-') {
      var sign := if s[o] == '-' then 0 - 1 else 1;
      o := o + 1;
      if o + 4 > |s| {
        return false;
      }
      var h := ReadField(s, o, 6);
      if h == -1 {
        return false;
      }
      var m := ReadField(s, o + 2, 7);
      if m == -1 {
        return false;
      }
      var offset := h * 3600 + m * 60;
      o := o + 4;
      if offset != 0 {
        ZoneStays(tm, offset * sign);
        var adjusted := GmtimeAdj(tm, 0, offset * sign);
        if !adjusted {
          return false;
        }
      }
    }
    r := o == |s|;
  }

  /** asn1_utctime_to_tm: it accepts exactly the strings above, and the instant it yields has the zone added; so
      it is the one that the string names if and only if there is no offset. */
  method ToTm(tm: Tm, s: string) returns (r: bool)
    modifies tm
    ensures r <==> Reading(s).Some?
    ensures r ==> tm.InRange() && tm.Instant() == StampInstant(Reading(s).value)
    ensures r ==> (tm.Instant() == NamedInstant(Reading(s).value) <==> Reading(s).value.zone == 0)
    ensures r && Reading(s).value.zone == 0 ==>
              Stamp(tm.year, tm.mon, tm.mday, tm.hour, tm.min, tm.sec, 0) == Reading(s).value
  {
    hide ToJulian, Zone, Pair;
    if |s| < 11 {
      return false;
    }
    var ok, o := ReadFields(tm, s);
    if !ok {
      return false;
    }
    r := ReadZone(tm, s, o);
  }

  /** Applying a zone of less than a day to a two-digit year never leaves the years that gmtime_adj accepts. */
  lemma ZoneStays(tm: Tm, offset: int)
    requires tm.InRange() && 50 <= tm.year < 150 && 0 - SECS_PER_DAY < offset < SECS_PER_DAY && tm.sec <= 59
    ensures var shift := DayShift(tm.SecondOfDay(), 0, offset);
            -1 <= shift <= 1 && 1900 <= YearOf(tm.Day() + ToInt(shift)) <= 9999
  {
    hide ToJulian, ToDate;
    var shift := DayShift(tm.SecondOfDay(), 0, offset);
    assert 0 <= tm.SecondOfDay() < SECS_PER_DAY;
    ToIntShift(shift, 0);
    DayBounds(tm.year + 1900, tm.mon + 1, tm.mday);
    JulianRoundTrip(tm.Day() + shift);
    YearBounds(ToDate(tm.Day() + shift));
  }

  lemma DayBounds(y: int, m: int, d: int)
    requires 1950 <= y <= 2049 && 1 <= m <= 12 && 1 <= d <= 31
    ensures 2_432_000 <= ToJulian(y, m, d) <= 2_471_000
  {
    hide ToJulian;
    JulianParts(y, m, d);
    Hundreds(if m <= 2 then y + 4799 else y + 4800);
  }

  lemma YearBounds(t: Date)
    requires ValidDate(t) && t.y >= FIRST_YEAR && 2_431_000 <= Julian(t) <= 2_472_000
    ensures 1900 <= t.y <= 9999
  {
    hide ToJulian;
    JulianParts(t.y, t.m, t.d);
    Hundreds(if t.m <= 2 then t.y + 4799 else t.y + 4800);
  }

  // ---------------------------------------------------------------- printing

  /** %02d for a number of at most two digits. */
  function TwoDigits(n: nat): (s: string)
    requires n < 100
    ensures |s| == 2
  {
    [DigitChar(n / 10), DigitChar(n % 10)]
  }

  /** What ASN1_UTCTIME_adj prints. */
  function Print(t: Stamp): (s: string)
    requires 0 <= t.mon < 99 && 0 <= t.mday < 100 && 0 <= t.hour < 100 && 0 <= t.min < 100 && 0 <= t.sec < 100
    ensures |s| == 13
  {
    TwoDigits(t.year % 100) + TwoDigits(t.mon + 1) + TwoDigits(t.mday) + TwoDigits(t.hour) + TwoDigits(t.min) +
    TwoDigits(t.sec) + "Z"
  }

  lemma PairOfDigits(s: string, o: nat, n: nat)
    requires n < 100 && o + 2 <= |s| && s[o..o + 2] == TwoDigits(n)
    ensures Pair(s, o) == n
  {
  }

  /** Reading back what was printed: every field of every time of the years 1950 to 2049 without a leap
      second. */
  lemma PrintReads(t: Stamp)
    requires 50 <= t.year < 150 && 0 <= t.mon <= 11 && 1 <= t.mday <= 31
    requires 0 <= t.hour <= 23 && 0 <= t.min <= 59 && 0 <= t.sec <= 60
    ensures Reading(Print(t)) == if t.sec <= 59 then Some(t.(zone := 0)) else None
  {
    hide TwoDigits, Pair;
    var s := Print(t);
    assert s[0..2] == TwoDigits(t.year % 100) && s[2..4] == TwoDigits(t.mon + 1) && s[4..6] == TwoDigits(t.mday);
    assert s[6..8] == TwoDigits(t.hour) && s[8..10] == TwoDigits(t.min) && s[10..12] == TwoDigits(t.sec);
    assert s[12] == 'Z';
    PairOfDigits(s, 0, t.year % 100);
    PairOfDigits(s, 2, t.mon + 1);
    PairOfDigits(s, 4, t.mday);
    PairOfDigits(s, 6, t.hour);
    PairOfDigits(s, 8, t.min);
    PairOfDigits(s, 10, t.sec);
    SecondsNotZone(s, t.sec);
  }

  lemma SecondsNotZone(s: string, n: nat)
    requires n < 100 && 12 <= |s| && s[10..12] == TwoDigits(n)
    ensures !StartsZone(s, 10)
  {
  }

  function StampOf(tm: Tm): Stamp
    reads tm
  {
    Stamp(tm.year, tm.mon, tm.mday, tm.hour, tm.min, tm.sec, 0)
  }

  /** ASN1_UTCTIME_adj, ts being what gmtime made of the time. It fails exactly when the shifted time cannot be
      reached or is not of the years 1950 to 2049; the string it prints is read back as the shifted time. */
  method Adj(ts: Tm, offsetDay: int, offsetSec: int) returns (r: Option<string>)
    requires ts.InRange() && ts.sec <= 59 && ToInt(offsetDay) == offsetDay
    modifies ts
    ensures ts.InRange() && ts.sec <= 59
    ensures offsetDay == 0 && offsetSec == 0 ==> unchanged(ts) && (r.Some? <==> 50 <= ts.year < 150)
    ensures r.Some? ==> r.value == Print(StampOf(ts)) && Reading(r.value) == Some(StampOf(ts))
    ensures -0x8000_0000 <= old(DayShift(ts.SecondOfDay(), offsetDay, offsetSec)) <= INT_MAX && r.Some? ==>
              StampInstant(Reading(r.value).value) == old(ts.Instant()) + offsetDay * SECS_PER_DAY + offsetSec
    ensures r.None? && 50 <= ts.year < 150 ==>
              !(1900 <= YearOf(old(ts.Day() + ToInt(DayShift(ts.SecondOfDay(), offsetDay, offsetSec)))) <= 9999)
  {
    hide ToJulian, YearOf, Reading, Print;
    if offsetDay != 0 || offsetSec != 0 {
      var ok := GmtimeAdj(ts, offsetDay, offsetSec);
      if !ok {
        return None;
      }
    }
    if ts.year < 50 || ts.year >= 150 {
      return None;
    }
    PrintReads(StampOf(ts));
    r := Some(Print(StampOf(ts)));
  }

  // ---------------------------------------------------------------- comparing

  /** ASN1_UTCTIME_cmp_time_t, ttm being what gmtime made of the time: the order of the two instants, or -2 for
      a string that is no UTCTime or an instant before day 0. */
  method CmpTime(s: string, ttm: Tm) returns (r: int)
    requires ttm.InRange()
    ensures Reading(s).None? || ttm.Instant() < 0 ==> r == -2
    ensures Reading(s).Some? && ttm.Instant() >= 0 ==>
              var d := StampInstant(Reading(s).value) - ttm.Instant();
              r == if d > 0 then 1 else if d < 0 then -1 else 0
  {
    hide ToJulian, Reading;
    var stm := new Tm();
    var parsed := ToTm(stm, s);
    if !parsed {
      return -2;
    }
    var ok, day, sec := GmtimeDiff(ttm, stm);
    ReadingPositive(s);
    if !ok {
      return -2;
    }
    if day > 0 {
      return 1;
    }
    if day < 0 {
      return -1;
    }
    if sec > 0 {
      return 1;
    }
    if sec < 0 {
      return -1;
    }
    r := 0;
  }

  lemma ReadingPositive(s: string)
    requires Reading(s).Some?
    ensures StampInstant(Reading(s).value) > 0
  {
    hide ToJulian, Pair;
    var t := Reading(s).value;
    DayBounds(t.year + 1900, t.mon + 1, t.mday);
  }

  /** X.680 makes 8201020700-0500 the same instant as 8201021200Z; the code, which adds the signed offset
      instead of taking it away, reads it as ten hours earlier. */
  lemma OffsetSign()
    ensures Reading("8201020700-0500").Some? && Reading("8201021200Z").Some?
    ensures NamedInstant(Reading("8201020700-0500").value) == NamedInstant(Reading("8201021200Z").value)
    ensures StampInstant(Reading("8201020700-0500").value) ==
            StampInstant(Reading("8201021200Z").value) - 10 * 3600
  {
    hide ToJulian;
    var a, b := "8201020700-0500", "8201021200Z";
    assert Pair(a, 0) == 82 && Pair(a, 2) == 1 && Pair(a, 4) == 2 && Pair(a, 6) == 7 && Pair(a, 8) == 0;
    assert Pair(a, 11) == 5 && Pair(a, 13) == 0;
    assert Pair(b, 0) == 82 && Pair(b, 2) == 1 && Pair(b, 4) == 2 && Pair(b, 6) == 12 && Pair(b, 8) == 0;
  }

  /** A string of twelve digits is taken without any zone. */
  lemma NoZoneAccepted()
    ensures Reading("820102070000") == Reading("820102070000Z")
  {
    var a, b := "820102070000", "820102070000Z";
    assert forall o: nat :: o < 11 ==> Pair(a, o) == Pair(b, o);
  }
}
