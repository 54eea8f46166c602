/** time_gmtime of src/fast_time.c: the Gregorian date of a POSIX time. */
module GmTime {

  const SECONDS_PER_DAY := 86400
  const UINT32 := 0x1_0000_0000

  // ---------- the Gregorian calendar ----------

  predicate IsLeap(y: int)
  {
    y % 4 == 0 && (y % 100 != 0 || y % 400 == 0)
  }

  function MonthLength(y: int, m: int): nat
  {
    if m == 2 then (if IsLeap(y) then 29 else 28) else if m in {4, 6, 9, 11} then 30 else 31
  }

  /** The days of year `y` in front of month `m`. */
  function DaysBefore(y: int, m: int): nat
    requires 1 <= m <= 12
  {
    if m == 1 then 0 else DaysBefore(y, m - 1) + MonthLength(y, m - 1)
  }

  predicate ValidDate(y: int, m: int, d: int)
  {
    1 <= m <= 12 && 1 <= d <= MonthLength(y, m)
  }

  /** Seconds since the Epoch as section 4.16 of the Base Definitions of POSIX.1-2017 defines
      them; `y` counts from 1 BC on and `yday` from the first of January. */
  function PosixSeconds(y: int, yday: int, hour: int, min: int, sec: int): int
    requires y >= 1970
  {
    sec + min * 60 + hour * 3600 + PosixDays(y, yday) * SECONDS_PER_DAY
  }

  function PosixDays(y: int, yday: int): int
    requires y >= 1970
  {
    yday + (y - 1970) * 365 + (y - 1969) / 4 - (y - 1901) / 100 + (y - 1601) / 400
  }

  /** The day of the week from the date alone, Sunday 0, by Sakamoto's rule. */
  function Weekday(y: int, m: int, d: int): int
    requires 1 <= m <= 12
  {
    var z := if m < 3 then y - 1 else y;
    (z + z / 4 - z / 100 + z / 400 + [0, 3, 2, 5, 0, 3, 5, 1, 4, 6, 2, 4][m - 1] + d) % 7
  }

  // ---------- years that start in March ----------

  /** The days from the first of March of 1 BC to the first of March of year `y`. */
  function MarchFirst(y: int): int
  {
    365 * y + y / 4 - y / 100 + y / 400
  }

  lemma MarchFirstIsNearMean(y: int)
    ensures 400 * MarchFirst(y) == 146097 * y - 100 * (y % 4) + 4 * (y % 100) - y % 400
  {
  }

  lemma MarchYearLength(y: int)
    ensures MarchFirst(y) - MarchFirst(y - 1) == 365 + if IsLeap(y) then 1 else 0
  {
    Carry(y);
  }

  lemma Carry(y: int)
    ensures y / 4 - (y - 1) / 4 == if y % 4 == 0 then 1 else 0
    ensures y / 100 - (y - 1) / 100 == if y % 100 == 0 then 1 else 0
    ensures y / 400 - (y - 1) / 400 == if y % 400 == 0 then 1 else 0
  {
  }

  /** The year estimate is the year or the one after it, for every day count. */
  lemma EstimateIsClose(days: nat, y: int)
    requires y == (days + 2) * 400 / 146097
    ensures MarchFirst(y - 1) <= days < MarchFirst(y + 1)
  {
    MarchFirstIsNearMean(y - 1);
    MarchFirstIsNearMean(y + 1);
  }

  /** `y` is the year that `days` lies in. */
  predicate InMarchYear(days: int, y: int)
  {
    MarchFirst(y) <= days < MarchFirst(y + 1)
  }

  // ---------- months that start in March ----------

  /** The days in front of month `mon`, counted from 1 for March. */
  function MarchMonth(mon: int): int
  {
    367 * mon / 12 - 30
  }

  lemma MonthFormula(yday: int)
    requires 0 <= yday <= 365
    ensures var mon := (yday + 31) * 10 / 306;
      1 <= mon <= 12 && MarchMonth(mon) <= yday && (mon < 12 ==> yday < MarchMonth(mon + 1)) && (mon > 10 <==> yday >= 306)
  {
    var mon := (yday + 31) * 10 / 306;
    assert mon in {1, 2, 3, 4, 5, 6, 7, 8, 9, 10, 11, 12};
  }

  lemma MonthsAgree(y: int, m: int)
    requires 1 <= m <= 12
    ensures m >= 3 ==> DaysBefore(y, m) == 59 + (if IsLeap(y) then 1 else 0) + MarchMonth(m - 2)
    ensures m < 3 ==> DaysBefore(y, m) == MarchMonth(m + 10) - 306
  {
    assert DaysBefore(y, 2) == 31;
    assert DaysBefore(y, 3) == 31 + MonthLength(y, 2);
    if m > 3 {
      MonthsAgree(y, m - 1);
      assert m in {4, 5, 6, 7, 8, 9, 10, 11, 12};
    }
  }

  // ---------- the broken-down time ----------

  class Tm {
    var sec: int
    var min: int
    var hour: int
    var mday: int
    var mon: int
    var year: int
    var wday: int
    constructor () {}

    ghost function Now(): Fields
      reads this
    {
      Fields(sec, min, hour, mday, mon, year, wday)
    }
  }

  datatype Fields = Fields(sec: int, min: int, hour: int, mday: int, mon: int, year: int, wday: int)

  /** A valid date and time whose POSIX seconds are `t`, with the weekday of the date. */
  ghost predicate Denotes(f: Fields, t: nat)
  {
    && f.year >= 1970 && ValidDate(f.year, f.mon, f.mday)
    && 0 <= f.hour < 24 && 0 <= f.min < 60 && 0 <= f.sec < 60
    && PosixSeconds(f.year, DaysBefore(f.year, f.mon) + f.mday - 1, f.hour, f.min, f.sec) == t
    && f.wday == Weekday(f.year, f.mon, f.mday)
  }

  /** The date of the day `days` days after the first of March of 1 BC. */
  ghost predicate IsDate(days: int, y: int, m: int, d: int)
  {
    && ValidDate(y, m, d)
    && days == MarchFirst(y - 1) + 306 + DaysBefore(y, m) + d - 1
  }

  lemma DateFound(days: int, y: int, yday: int)
    requires InMarchYear(days, y) && yday == days - MarchFirst(y)
    ensures 0 <= yday <= 365
    ensures var mon := (yday + 31) * 10 / 306;
      var mday := yday - MarchMonth(mon) + 1;
      if yday >= 306 then IsDate(days, y + 1, mon - 10, mday) else IsDate(days, y, mon + 2, mday)
  {
    hide MarchFirst;
    MarchYearLength(y);
    MarchYearLength(y + 1);
    MonthFormula(yday);
    var mon := (yday + 31) * 10 / 306;
    if yday >= 306 {
      MonthsAgree(y + 1, mon - 10);
      LengthsAgree(y + 1, mon, yday);
    } else {
      MonthsAgree(y, mon + 2);
      LengthsAgree(y, mon, yday);
    }
  }

  lemma LengthsAgree(y: int, mon: int, yday: int)
    requires 1 <= mon <= 12 && MarchMonth(mon) <= yday && (mon < 12 ==> yday < MarchMonth(mon + 1))
    requires yday <= 364 + if IsLeap(y) then 1 else 0
    ensures yday - MarchMonth(mon) < MonthLength(y, if mon <= 10 then mon + 2 else mon - 10)
  {
    assert mon in {1, 2, 3, 4, 5, 6, 7, 8, 9, 10, 11, 12};
  }

  /** The weekday of a date and the remainder of its day count. */
  lemma WeekdayAgrees(days: int, y: int, m: int, d: int)
    requires IsDate(days, y, m, d)
    ensures Weekday(y, m, d) == (days + 3) % 7
  {
    var z, k := if m < 3 then y - 1 else y, if m < 3 then m + 10 else m - 2;
    DaysFromMarch(days, y, m, d, z, k);
    var t := [0, 3, 2, 5, 0, 3, 5, 1, 4, 6, 2, 4][m - 1];
    MonthOffset(m, k);
    var q := 52 * z + (MarchMonth(k) + 2 - t) / 7;
    SameRemainder(days + 3, z + z / 4 - z / 100 + z / 400 + t + d, q);
  }

  lemma DaysFromMarch(days: int, y: int, m: int, d: int, z: int, k: int)
    requires IsDate(days, y, m, d)
    requires if m < 3 then z == y - 1 && k == m + 10 else z == y && k == m - 2
    ensures days + 3 == MarchFirst(z) + 2 + MarchMonth(k) + d
  {
    hide MarchFirst;
    MonthsAgree(y, m);
    MarchYearLength(y);
  }

  lemma MonthOffset(m: int, k: int)
    requires 1 <= m <= 12 && k == if m < 3 then m + 10 else m - 2
    ensures (MarchMonth(k) + 2 - [0, 3, 2, 5, 0, 3, 5, 1, 4, 6, 2, 4][m - 1]) % 7 == 0
  {
    assert m in {1, 2, 3, 4, 5, 6, 7, 8, 9, 10, 11, 12};
  }

  lemma SameRemainder(x: int, y: int, q: int)
    requires x == y + 7 * q
    ensures x % 7 == y % 7
  {
  }

  /** The Epoch is day 719468, and the POSIX rule counts the same days. */
  lemma PosixAgrees(days: int, y: int, m: int, d: int)
    requires y >= 1970 && IsDate(days, y, m, d)
    ensures PosixDays(y, DaysBefore(y, m) + d - 1) == days - 719468
  {
    assert (y - 1969) / 4 == (y - 1) / 4 - 492 && (y - 1901) / 100 == (y - 1) / 100 - 19 && (y - 1601) / 400 == (y - 1) / 400 - 4;
  }

  /** The calculation of time_gmtime in unbounded integers, for any non-negative time. */
  method Broken(t: nat, tp: Tm)
    modifies tp
    ensures Denotes(tp.Now(), t)
  {
    hide MarchFirst, IsLeap, DaysBefore, ValidDate, Weekday, PosixDays, MarchMonth, InMarchYear, IsDate;
    var n, days := t, t / 86400;
    var wday := (4 + days) % 7;
    n := n % 86400;
    var hour := n / 3600;
    n := n % 3600;
    var min := n / 60;
    var sec := n % 60;
    days := days - (31 + 28) + 719527;
    var year, mon, mday := CivilDate(days);
    WeekdayAgrees(days, year, mon, mday);
    PosixAgrees(days, year, mon, mday);
    DateIsValid(days, year, mon, mday);
    tp.sec, tp.min, tp.hour := sec, min, hour;
    tp.mday, tp.mon, tp.year, tp.wday := mday, mon, year, wday;
  }

  lemma DateIsValid(days: int, y: int, m: int, d: int)
    requires IsDate(days, y, m, d)
    ensures ValidDate(y, m, d)
  {
  }

  lemma MarchFirstIs(y: int)
    ensures MarchFirst(y) == 365 * y + y / 4 - y / 100 + y / 400
  {
  }

  lemma MarchMonthIs(mon: int)
    ensures MarchMonth(mon) == 367 * mon / 12 - 30
  {
  }

  /** The date of a day on or after the Epoch, by Gauss' formula. */
  method CivilDate(days: nat) returns (year: int, mon: int, mday: int)
    requires days >= 719468
    ensures IsDate(days, year, mon, mday) && year >= 1970
  {
    hide IsDate, MarchFirst, MarchMonth;
    year := (days + 2) * 400 / (365 * 400 + 100 - 4 + 1);
    EstimateIsClose(days, year);
    MarchYearLength(year);
    MarchFirstIs(year);
    var yday := days - (365 * year + year / 4 - year / 100 + year / 400);
    if yday < 0 {
      var leap := if year % 4 == 0 && (year % 100 != 0 || year % 400 == 0) then 1 else 0;
      yday := 365 + leap + yday;
      year := year - 1;
    }
    DateFound(days, year, yday);
    MarchMonthIs((yday + 31) * 10 / 306);
    mon := (yday + 31) * 10 / 306;
    mday := yday - (367 * mon / 12 - 30) + 1;
    if yday >= 306 {
      year := year + 1;
      mon := mon - 10;
    } else {
      mon := mon + 2;
    }
    SinceEpoch(days, year, mon, mday);
  }

  lemma SinceEpoch(days: int, y: int, m: int, d: int)
    requires days >= 719468 && IsDate(days, y, m, d)
    ensures y >= 1970
  {
    MonthsAgree(y, m);
    MarchFirstIsNearMean(y - 1);
  }

  // ---------- the calculation in 32 bits ----------

  /** The value of an unsigned 32-bit expression. */
  function U32(x: int): (r: int)
    ensures 0 <= r < UINT32 && (0 <= x < UINT32 ==> r == x)
  {
    x % UINT32
  }

  /** The conversion of an unsigned value to a 32-bit int. */
  function I32(x: int): (r: int)
    requires 0 <= x < UINT32
    ensures (x - r) % UINT32 == 0 && -UINT32 / 2 <= r < UINT32 / 2
  {
    if x < UINT32 / 2 then x else x - UINT32
  }

  /** A wrapped subtraction, added to, comes back into range. */
  lemma WrapAdd(x: int, y: int)
    requires 0 <= x + y < UINT32
    ensures U32(U32(x) + y) == x + y
  {
    WrapTwice(x, y);
  }

  lemma WrapTwice(x: int, y: int)
    ensures U32(U32(x) + y) == U32(x + y)
  {
    var q := x / UINT32;
    assert x == q * UINT32 + U32(x);
    AddMultiple(U32(x) + y, q);
  }

  lemma AddMultiple(x: int, q: int)
    ensures U32(x + q * UINT32) == U32(x)
  {
    var k := x / UINT32;
    assert x + q * UINT32 == (k + q) * UINT32 + U32(x);
  }

  /** An int survives the way through an unsigned expression. */
  lemma ThroughUnsigned(x: int)
    requires -UINT32 / 2 <= x < UINT32 / 2
    ensures I32(U32(x)) == x
  {
    AddMultiple(x, 1);
  }

  /** The products and sums of the year that must not wrap stay below 2^32. */
  lemma NoOverflow(t: nat)
    requires t < UINT32
    ensures var days := t / 86400 - 59 + 719527; var year := (days + 2) * 400 / 146097;
      (days + 2) * 400 < UINT32 && 0 <= year && 365 * year + year / 4 < UINT32
      && 0 <= 365 * year + year / 4 - year / 100
  {
  }

  /** The days from 1 BC to the first of March of `year`, term by term in 32 bits. */
  method YearStart32(year: int) returns (r: int)
    requires 0 <= year && 365 * year + year / 4 < UINT32 && 0 <= 365 * year + year / 4 - year / 100
    ensures r == U32(MarchFirst(year))
  {
    r := U32(U32(U32(U32(365 * year) + year / 4) - year / 100) + year / 400);
  }

  /** The date of a day between the Epoch and the last 32-bit time, every operation in 32 bits. */
  method CivilDate32(days: int) returns (year: int, mon: int, mday: int)
    requires 719468 <= days <= 719468 + UINT32 / 86400
    ensures IsDate(days, year, mon, mday) && year >= 1970
  {
    hide IsDate, MarchFirst, MarchMonth, U32, I32, IsLeap;
    year := U32(U32(days + 2) * 400) / (365 * 400 + 100 - 4 + 1);
    NoOverflow((days - 719468) * 86400);
    EstimateIsClose(days, year);
    MarchYearLength(year);
    MarchYearLength(year + 1);
    var start := YearStart32(year);
    ghost var before := days - MarchFirst(year);
    var yday := I32(U32(days - start));
    WrapMinus(days, MarchFirst(year));
    ThroughUnsigned(before);
    assert yday == before;
    if yday < 0 {
      var leap := if IsLeap(year) then 1 else 0;
      yday := I32(U32(U32(365 + leap) + U32(yday)));
      WrapAdd(before, 365 + leap);
      ThroughUnsigned(before + 365 + leap);
      year := U32(year - 1);
    }
    DateFound(days, year, yday);
    MonthFormula(yday);
    mon, mday := MonthDay32(yday);
    if yday >= 306 {
      year := U32(year + 1);
      mon := U32(mon - 10);
    } else {
      mon := U32(mon + 2);
    }
    SinceEpoch(days, year, mon, mday);
  }

  /** The month of a March year that the day `yday` is in, and the day of the month. */
  method MonthDay32(yday: int) returns (mon: int, mday: int)
    requires 0 <= yday <= 365
    ensures mon == (yday + 31) * 10 / 306 && mday == yday - MarchMonth(mon) + 1
  {
    hide U32;
    mon := U32((yday + 31) * 10 / 306);
    MonthFormula(yday);
    mday := U32(U32(yday - U32(U32(367 * mon) / 12 - 30)) + 1);
  }

  lemma WrapMinus(x: int, y: int)
    ensures U32(x - U32(y)) == U32(x - y)
  {
    var q := y / UINT32;
    assert y == q * UINT32 + U32(y);
    AddMultiple(x - y, q);
  }

  /** time_gmtime, with every operation in the 32 bits of the source: `tp` becomes a valid date and
      time whose POSIX seconds are the time cut to 32 bits, with the weekday of that date. */
  method TimeGmtime(t: int, tp: Tm)
    modifies tp
    ensures Denotes(tp.Now(), U32(t))
  {
    hide MarchFirst, IsLeap, DaysBefore, ValidDate, Weekday, PosixDays, MarchMonth, InMarchYear, IsDate, U32;
    var n := U32(t);
    var days := n / 86400;
    var wday := U32(4 + days) % 7;
    ghost var day := days;
    n := n % 86400;
    var hour := n / 3600;
    n := n % 3600;
    var min := n / 60;
    var sec := n % 60;
    days := U32(U32(days - (31 + 28)) + 719527);
    WrapAdd(day - 59, 719527);
    var year, mon, mday := CivilDate32(days);
    WeekdayAgrees(days, year, mon, mday);
    PosixAgrees(days, year, mon, mday);
    DateIsValid(days, year, mon, mday);
    tp.sec, tp.min, tp.hour := sec, min, hour;
    tp.mday, tp.mon, tp.year, tp.wday := mday, mon, year, wday;
  }

  // ---------- one time, one set of fields ----------

  lemma {:induction false} YearsGrow(x: int, y: int)
    requires x < y
    ensures MarchFirst(x) + 365 + (if IsLeap(x + 1) then 1 else 0) <= MarchFirst(y)
    decreases y - x
  {
    hide MarchFirst, IsLeap;
    MarchYearLength(x + 1);
    if x + 1 < y {
      YearsGrow(x + 1, y);
    }
  }

  lemma {:induction false} MonthsGrow(y: int, m: int, k: int)
    requires 1 <= m < k <= 13
    ensures DaysUpTo(y, m) + MonthLength(y, m) <= DaysUpTo(y, k)
    decreases k - m
  {
    hide IsLeap;
    if m + 1 < k {
      MonthsGrow(y, m, k - 1);
    }
  }

  /** The days of year `y` in front of month `m`, where month 13 is the end of the year. */
  function DaysUpTo(y: int, m: int): (n: int)
    requires 1 <= m <= 13
    ensures m <= 12 ==> n == DaysBefore(y, m)
  {
    if m == 1 then 0 else DaysUpTo(y, m - 1) + MonthLength(y, m - 1)
  }

  lemma YearLength(y: int)
    ensures DaysUpTo(y, 13) == 365 + if IsLeap(y) then 1 else 0
  {
    MonthsAgree(y, 12);
  }

  /** A day has one date. */
  lemma DateIsUnique(days: int, y: int, m: int, d: int, z: int, k: int, e: int)
    requires IsDate(days, y, m, d) && IsDate(days, z, k, e)
    ensures y == z && m == k && d == e
  {
    hide MarchFirst, IsLeap, DaysBefore;
    if y < z {
      LaterYear(days, y, m, d, z, k, e);
      assert false;
    }
    if z < y {
      LaterYear(days, z, k, e, y, m, d);
      assert false;
    }
    if m < k { MonthsGrow(y, m, k); }
    if k < m { MonthsGrow(y, k, m); }
  }

  lemma LaterYear(days: int, y: int, m: int, d: int, z: int, k: int, e: int)
    requires IsDate(days, y, m, d) && ValidDate(z, k, e) && y < z
    ensures days < MarchFirst(z - 1) + 306 + DaysBefore(z, k) + e - 1
  {
    hide MarchFirst, IsLeap, DaysBefore;
    YearsGrow(y - 1, z - 1);
    YearLength(y);
    MonthsGrow(y, m, 13);
  }

  /** A time has one set of fields: the calculation in 32 bits gives what the one in unbounded
      integers gives. */
  lemma FieldsAreUnique(f: Fields, g: Fields, t: nat)
    requires Denotes(f, t) && Denotes(g, t)
    ensures f == g
  {
    hide ValidDate, DaysBefore, PosixDays, Weekday, IsDate;
    DaysOf(f, t);
    DaysOf(g, t);
    DateIsUnique(t / 86400 + 719468, f.year, f.mon, f.mday, g.year, g.mon, g.mday);
  }

  lemma DaysOf(f: Fields, t: nat)
    requires Denotes(f, t)
    ensures IsDate(t / 86400 + 719468, f.year, f.mon, f.mday)
    ensures f.hour == t % 86400 / 3600 && f.min == t % 3600 / 60 && f.sec == t % 60
  {
    hide DaysBefore, PosixDays, Weekday, MarchFirst;
    var days := MarchFirst(f.year - 1) + 306 + DaysBefore(f.year, f.mon) + f.mday - 1;
    assert IsDate(days, f.year, f.mon, f.mday);
    PosixAgrees(days, f.year, f.mon, f.mday);
    Split(days - 719468, f.hour, f.min, f.sec, t);
  }

  lemma Split(days: int, hour: int, min: int, sec: int, t: int)
    requires 0 <= hour < 24 && 0 <= min < 60 && 0 <= sec < 60 && sec + min * 60 + hour * 3600 + days * 86400 == t
    ensures t / 86400 == days && t % 86400 / 3600 == hour && t % 3600 / 60 == min && t % 60 == sec
  {
    var rest := sec + min * 60 + hour * 3600;
    SplitOne(t, 86400, days, rest);
    SplitOne(rest, 3600, hour, sec + min * 60);
    SplitOne(t, 3600, days * 24 + hour, sec + min * 60);
    SplitOne(sec + min * 60, 60, min, sec);
    SplitOne(t, 60, days * 1440 + hour * 60 + min, sec);
  }

  lemma SplitOne(t: int, d: int, q: int, r: int)
    requires d > 0 && t == q * d + r && 0 <= r < d
    ensures t / d == q && t % d == r
  {
    var k := t / d;
    assert t == k * d + t % d;
    if q < k { Scale(q + 1, k, d); }
    if k < q { Scale(k + 1, q, d); }
  }

  lemma Scale(a: int, b: int, d: int)
    requires a <= b && d > 0
    ensures a * d <= b * d
  {
  }
}
