/** Calendar arithmetic behind `getWeekOfYear` (lib/workspace.ts).

    Every instant the week computation touches is midnight UTC, so it is
    modelled on whole day numbers: day 0 is 1970-01-01, as in ECMAScript's
    Day(t). Years are proleptic Gregorian and unbounded. */
module Calendar {

  /** A calendar date as the source reads it: full year, month 1..12, day of month. */
  datatype Date = Date(year: int, month: int, day: int)

  predicate IsLeapYear(y: int) {
    y % 4 == 0 && (y % 100 != 0 || y % 400 == 0)
  }

  function DaysInYear(y: int): (r: int)
    ensures r == 365 || r == 366
    ensures r == 366 <==> IsLeapYear(y)
  {
    if IsLeapYear(y) then 366 else 365
  }

  function DaysInMonth(y: int, m: int): (r: int)
    requires 1 <= m <= 12
    ensures 28 <= r <= 31
    ensures r == 29 <==> m == 2 && IsLeapYear(y)
  {
    if m == 2 then (if IsLeapYear(y) then 29 else 28)
    else if m == 4 || m == 6 || m == 9 || m == 11 then 30
    else 31
  }

  predicate ValidDate(d: Date) {
    1 <= d.month <= 12 && 1 <= d.day <= DaysInMonth(d.year, d.month)
  }

  /** Days of year y that precede the first of month m (ECMAScript's month table). */
  function DaysBeforeMonth(y: int, m: int): int
    requires 1 <= m <= 12
  {
    var common :=
      if m == 1 then 0 else if m == 2 then 31 else if m == 3 then 59
      else if m == 4 then 90 else if m == 5 then 120 else if m == 6 then 151
      else if m == 7 then 181 else if m == 8 then 212 else if m == 9 then 243
      else if m == 10 then 273 else if m == 11 then 304 else 334;
    if m > 2 && IsLeapYear(y) then common + 1 else common
  }

  /** The month table is the running sum of the month lengths, and the twelve
      months fill the year exactly. */
  lemma DaysBeforeMonthIsRunningSum(y: int, m: int)
    requires 1 <= m <= 12
    ensures m == 1 ==> DaysBeforeMonth(y, m) == 0
    ensures m < 12 ==> DaysBeforeMonth(y, m + 1) == DaysBeforeMonth(y, m) + DaysInMonth(y, m)
    ensures m == 12 ==> DaysBeforeMonth(y, m) + DaysInMonth(y, m) == DaysInYear(y)
  {
  }

  /** Day number of January 1st of year y (ECMAScript's DayFromYear). */
  function YearStart(y: int): int {
    365 * (y - 1970) + (y - 1969) / 4 - (y - 1901) / 100 + (y - 1601) / 400
  }

  /** Consecutive years are DaysInYear apart. */
  lemma YearStartStep(y: int)
    ensures YearStart(y + 1) == YearStart(y) + DaysInYear(y)
  {
    LeapDay(y);
  }

  /** The three floor terms of DayFromYear grow by one together exactly in a
      leap year. */
  lemma LeapDay(y: int)
    ensures ((y - 1968) / 4 - (y - 1969) / 4)
          - ((y - 1900) / 100 - (y - 1901) / 100)
          + ((y - 1600) / 400 - (y - 1601) / 400)
         == if IsLeapYear(y) then 1 else 0
  {
    FloorStep4(y);
    FloorStep100(y);
    FloorStep400(y);
    if y % 400 == 0 {
      Div400Div100(y);
      Div100Div4(y);
    } else if y % 100 == 0 {
      Div100Div4(y);
    }
  }

  lemma Div400Div100(y: int)
    requires y % 400 == 0
    ensures y % 100 == 0
  {
    assert y == 100 * (4 * (y / 400));
  }

  lemma Div100Div4(y: int)
    requires y % 100 == 0
    ensures y % 4 == 0
  {
    assert y == 4 * (25 * (y / 100));
  }

  lemma FloorStep4(y: int)
    ensures (y - 1968) / 4 - (y - 1969) / 4 == if y % 4 == 0 then 1 else 0
  {
  }

  lemma FloorStep100(y: int)
    ensures (y - 1900) / 100 - (y - 1901) / 100 == if y % 100 == 0 then 1 else 0
  {
  }

  lemma FloorStep400(y: int)
    ensures (y - 1600) / 400 - (y - 1601) / 400 == if y % 400 == 0 then 1 else 0
  {
  }

  /** Years start in increasing order, each at least a common year after the last. */
  lemma {:induction false} YearStartMonotone(a: int, b: int)
    requires a < b
    ensures YearStart(a) + 365 * (b - a) <= YearStart(b)
    decreases b - a
  {
    YearStartStep(b - 1);
    if a < b - 1 {
      YearStartMonotone(a, b - 1);
    }
  }

  /** Day z falls in (UTC) year y. */
  predicate InYear(z: int, y: int) {
    YearStart(y) <= z < YearStart(y + 1)
  }

  /** A day falls in exactly one year, so `getUTCFullYear` is well defined. */
  lemma YearIsUnique(z: int, a: int, b: int)
    requires InYear(z, a) && InYear(z, b)
    ensures a == b
  {
    if a < b {
      YearStartMonotone(a + 1, b + 1);
      YearStartMonotone(a + 1, b);
    } else if b < a {
      YearStartMonotone(b + 1, a + 1);
      YearStartMonotone(b + 1, a);
    }
  }

  /** `getUTCFullYear` of day z, which is known to lie within a year of `near`. */
  function YearNear(z: int, near: int): (y: int)
    requires YearStart(near - 1) <= z < YearStart(near + 2)
    ensures InYear(z, y)
    ensures near - 1 <= y <= near + 1
  {
    if z < YearStart(near) then near - 1
    else if z < YearStart(near + 1) then near
    else near + 1
  }

  /** ECMAScript MakeDay for a month in range and any (possibly overflowing)
      day of month: the day number of the date. */
  function MakeDay(y: int, m: int, dd: int): int
    requires 1 <= m <= 12
  {
    YearStart(y) + DaysBeforeMonth(y, m) + dd - 1
  }

  /** The day number of a date lies in the date's own year. */
  function DayNumber(d: Date): (z: int)
    requires ValidDate(d)
    ensures InYear(z, d.year)
    ensures z - YearStart(d.year) == DaysBeforeMonth(d.year, d.month) + d.day - 1
  {
    YearStartStep(d.year);
    MonthFitsInYear(d.year, d.year, d.month, d.day);
    MakeDay(d.year, d.month, d.day)
  }

  /** A day of month that is valid in year y stays inside year y' when the same
      month and day are read in year y' (at most one day past February). */
  lemma MonthFitsInYear(y: int, y': int, m: int, dd: int)
    requires 1 <= m <= 12 && 1 <= dd <= DaysInMonth(y, m)
    ensures 0 <= DaysBeforeMonth(y', m) + dd - 1 < DaysInYear(y')
  {
    if m < 12 {
      DaysBeforeMonthIsRunningSum(y', m);
    } else {
      DaysBeforeMonthIsRunningSum(y', 12);
    }
  }

  /** ECMAScript WeekDay: 0 is Sunday, 6 is Saturday; day 0 was a Thursday. */
  function UtcDay(z: int): (r: int)
    ensures 0 <= r < 7
  {
    (z + 4) % 7
  }

  /** `getUTCDay() || 7`: the ISO 8601 weekday, Monday 1 through Sunday 7. */
  function IsoWeekday(z: int): (r: int)
    ensures 1 <= r <= 7
    ensures r % 7 == UtcDay(z)
  {
    var w := UtcDay(z);
    if w == 0 then 7 else w
  }

  /** The source's shifted `d`: the Thursday of the Monday-to-Sunday week holding z. */
  function ThursdayOf(z: int): (t: int)
    ensures UtcDay(t) == 4
    ensures z - 3 <= t <= z + 3
    ensures t - 3 <= z <= t + 3
  {
    z + 4 - IsoWeekday(z)
  }

  /** `Math.ceil(a / 7)` for an integer a: the least r with a <= 7r. */
  function Ceil7(a: int): (r: int)
    ensures 7 * (r - 1) < a <= 7 * r
  {
    (a + 6) / 7
  }

  /** The year `getWeekOfYear` counts from, for day z of year y: the year of
      the shifted Thursday, that is, the ISO 8601 week-numbering year. */
  function IsoYearOfDay(z: int, y: int): (ty: int)
    requires InYear(z, y)
    ensures InYear(ThursdayOf(z), ty)
    ensures y - 1 <= ty <= y + 1
  {
    YearStartStep(y - 1);
    YearStartStep(y + 1);
    YearNear(ThursdayOf(z), y)
  }

  /** The body of `getWeekOfYear` on day z of year y: days from the start of
      the Thursday's year, plus one, divided by seven and rounded up. */
  function WeekOfDay(z: int, y: int): (w: int)
    requires InYear(z, y)
    ensures 1 <= w <= 53
    ensures w == (ThursdayOf(z) - YearStart(IsoYearOfDay(z, y))) / 7 + 1
  {
    var thu := ThursdayOf(z);
    var ty := IsoYearOfDay(z, y);
    YearStartStep(ty);
    Ceil7(thu - YearStart(ty) + 1)
  }

  function IsoYear(d: Date): (y: int)
    requires ValidDate(d)
    ensures InYear(ThursdayOf(DayNumber(d)), y)
    ensures d.year - 1 <= y <= d.year + 1
  {
    IsoYearOfDay(DayNumber(d), d.year)
  }

  /** `getWeekOfYear(date)`: the ISO 8601 week number of the date. */
  function WeekOfYear(d: Date): (w: int)
    requires ValidDate(d)
    ensures 1 <= w <= 53
    ensures w == (ThursdayOf(DayNumber(d)) - YearStart(IsoYear(d))) / 7 + 1
  {
    WeekOfDay(DayNumber(d), d.year)
  }

  // ---------------------------------------------------------------------
  // An independent definition of the ISO week: week 1 is the week holding
  // January 4th, weeks start on Monday.

  /** The Monday on or before day x. */
  function MondayOnOrBefore(x: int): (r: int)
    ensures IsoWeekday(r) == 1
    ensures x - 6 <= r <= x
  {
    x - (IsoWeekday(x) - 1)
  }

  /** The Monday of ISO week 1 of year y: the Monday on or before January 4th. */
  function Week1Monday(y: int): (r: int)
    ensures IsoWeekday(r) == 1
    ensures YearStart(y) - 3 <= r <= YearStart(y) + 3
  {
    MondayOnOrBefore(YearStart(y) + 3)
  }

  /** The ISO week-numbering year of day z of year y by the January 4th rule. */
  function WeekYearByJan4OfDay(z: int, y: int): int {
    if z < Week1Monday(y) then y - 1
    else if z >= Week1Monday(y + 1) then y + 1
    else y
  }

  /** The ISO week-numbering year of d by the January 4th rule. */
  function WeekYearByJan4(d: Date): int
    requires ValidDate(d)
  {
    WeekYearByJan4OfDay(DayNumber(d), d.year)
  }

  /** The ISO week number of d by the January 4th rule. */
  function WeekByJan4(d: Date): int
    requires ValidDate(d)
  {
    (DayNumber(d) - Week1Monday(WeekYearByJan4(d))) / 7 + 1
  }

  /** Two days with the same weekday are a whole number of weeks apart. */
  lemma SameWeekday(a: int, b: int)
    requires UtcDay(a) == UtcDay(b)
    ensures a - b == 7 * ((a + 4) / 7 - (b + 4) / 7)
  {
  }

  /** Splitting a day difference into whole weeks and a remainder. */
  lemma WeeksAndRest(q: int, r: int)
    requires 0 <= r < 7
    ensures (7 * q + r) / 7 == q
    ensures (7 * q + r) % 7 == r
  {
  }

  /** Day z lies at or after a Monday m exactly when its Thursday lies at or
      after the Thursday m + 3, and the whole-week distance is the same
      either way. */
  lemma CompareWithMonday(z: int, m: int)
    requires IsoWeekday(m) == 1
    ensures UtcDay(m + 3) == 4
    ensures z >= m <==> ThursdayOf(z) >= m + 3
    ensures (z - m) / 7 == (ThursdayOf(z) - m - 3) / 7
  {
    var u, qz, qm := UtcDay(z), (z + 4) / 7, (m + 4) / 7;
    assert z + 4 == 7 * qz + u;
    assert m + 4 == 7 * qm + 1;
    WeeksAndRest(qm, 4);
    assert m + 3 + 4 == 7 * qm + 4;
    // the whole weeks from the Monday m to the Monday of z's week
    var q := if u == 0 then qz - qm - 1 else qz - qm;
    assert z - m == 7 * q + (IsoWeekday(z) - 1);
    assert ThursdayOf(z) - m - 3 == 7 * q;
    WeeksAndRest(q, IsoWeekday(z) - 1);
    WeeksAndRest(q, 0);
  }

  /** Among the Thursdays on or after day s, the first one, ft, is at most
      six days after s; every later Thursday is a whole number of weeks
      after it. */
  lemma FirstThursdayOnOrAfter(t: int, s: int, ft: int)
    requires UtcDay(t) == 4 && UtcDay(ft) == 4
    requires s <= ft <= s + 6 && t >= s
    ensures t >= ft
    ensures (t - s) / 7 == (t - ft) / 7
  {
    SameWeekday(t, ft);
    var q := (t + 4) / 7 - (ft + 4) / 7;
    assert t - s == 7 * q + (ft - s);
    WeeksAndRest(q, ft - s);
    WeeksAndRest(q, 0);
  }

  /** ISO week 1 of a year starts after ISO week 1 of the year before. */
  lemma Week1MondayIncreasing(y: int)
    ensures Week1Monday(y) < Week1Monday(y + 1)
  {
    YearStartStep(y);
  }

  /** Day z lies in the ISO weeks of the year of its Thursday: on or after
      that year's week 1 and before the next year's. */
  lemma InIsoWeeksOfThursdayYear(z: int, ty: int)
    requires InYear(ThursdayOf(z), ty)
    ensures Week1Monday(ty) <= z < Week1Monday(ty + 1)
    ensures (ThursdayOf(z) - YearStart(ty)) / 7 == (z - Week1Monday(ty)) / 7
  {
    var thu, m0, m1 := ThursdayOf(z), Week1Monday(ty), Week1Monday(ty + 1);
    CompareWithMonday(z, m0);
    FirstThursdayOnOrAfter(thu, YearStart(ty), m0 + 3);
    CompareWithMonday(z, m1);
  }

  /** On days, the year of the Thursday is the year the January 4th rule picks. */
  lemma IsoYearOfDayByJan4(z: int, y: int)
    requires InYear(z, y)
    ensures IsoYearOfDay(z, y) == WeekYearByJan4OfDay(z, y)
  {
    var ty := IsoYearOfDay(z, y);
    InIsoWeeksOfThursdayYear(z, ty);
    var m0, m1 := Week1Monday(y), Week1Monday(y + 1);
    if ty == y - 1 {
      // z is before the Monday of week 1 of ty + 1 == y
      assert z < m0;
    } else if ty == y {
      assert m0 <= z < m1;
    } else {
      // z is on or after the Monday of week 1 of ty == y + 1, past that of y
      Week1MondayIncreasing(y);
      assert m0 < m1 <= z;
    }
  }

  /** The nearest-Thursday computation of the source agrees with the
      January 4th definition of ISO 8601, on the week and on its year. */
  lemma WeekOfYearIsIsoWeek(d: Date)
    requires ValidDate(d)
    ensures IsoYear(d) == WeekYearByJan4(d)
    ensures WeekOfYear(d) == WeekByJan4(d)
  {
    var z := DayNumber(d);
    IsoYearOfDayByJan4(z, d.year);
    InIsoWeeksOfThursdayYear(z, IsoYear(d));
  }

  /** January 4th is always in week 1 of its own year. */
  lemma January4IsWeek1(y: int)
    ensures ValidDate(Date(y, 1, 4))
    ensures WeekOfYear(Date(y, 1, 4)) == 1
    ensures IsoYear(Date(y, 1, 4)) == y
  {
    var d := Date(y, 1, 4);
    var z := DayNumber(d);
    YearStartStep(y);
    assert InYear(ThursdayOf(z), y);
    YearIsUnique(ThursdayOf(z), y, IsoYear(d));
  }

  /** Near a year boundary the ISO year differs from the nominal year:
      Monday 2024-12-30 is in week 1 of 2025. */
  lemma LateDecemberRollsOver()
    ensures ValidDate(Date(2024, 12, 30))
    ensures WeekOfYear(Date(2024, 12, 30)) == 1
    ensures IsoYear(Date(2024, 12, 30)) == 2025
  {
    assert YearStart(2024) == 19723;
    assert YearStart(2025) == 20089;
    assert DayNumber(Date(2024, 12, 30)) == 20087;
    assert UtcDay(20087) == 1;
    assert ThursdayOf(20087) == 20090;
  }

  /** Friday 2021-01-01 is in week 53 of 2020. */
  lemma EarlyJanuaryRollsBack()
    ensures ValidDate(Date(2021, 1, 1))
    ensures WeekOfYear(Date(2021, 1, 1)) == 53
    ensures IsoYear(Date(2021, 1, 1)) == 2020
  {
    assert YearStart(2020) == 18262;
    assert YearStart(2021) == 18628;
    assert DayNumber(Date(2021, 1, 1)) == 18628;
    assert UtcDay(18628) == 5;
    assert ThursdayOf(18628) == 18627;
  }

  // ---------------------------------------------------------------------
  // The source as written: `Date.UTC` reads a year 0..99 as 1900..1999.

  /** ECMAScript MakeFullYear, applied by `Date.UTC` to its year argument. */
  function UtcYear(y: int): (r: int)
    ensures (0 <= y <= 99) == (r != y)
  {
    if 0 <= y <= 99 then 1900 + y else y
  }

  /** `getWeekOfYear` exactly as written, with both `Date.UTC` calls remapping
      two-digit years. Outside the first century (years -1 to 100 are where
      a remap can fire) it computes the ISO week. */
  function WeekOfYearAsWritten(d: Date): (w: int)
    requires ValidDate(d)
    ensures d.year >= 101 || d.year <= -2 ==> w == WeekOfYear(d)
  {
    var y := UtcYear(d.year);
    MonthFitsInYear(d.year, y, d.month, d.day);
    var z := MakeDay(y, d.month, d.day);
    var thu := ThursdayOf(z);
    YearStartStep(y - 1);
    YearStartStep(y);
    YearStartStep(y + 1);
    var ty := YearNear(thu, y);
    RemapNeverFires(d);
    Ceil7(thu - MakeDay(UtcYear(ty), 1, 1) + 1)
  }

  /** Outside the first century neither `Date.UTC` call remaps its year: the
      date keeps its day number and the Thursday's year is the ISO year. */
  lemma RemapNeverFires(d: Date)
    requires ValidDate(d)
    ensures YearStart(d.year - 1) <= ThursdayOf(DayNumber(d)) < YearStart(d.year + 2)
    ensures d.year >= 101 || d.year <= -2 ==>
      && UtcYear(d.year) == d.year
      && MakeDay(d.year, d.month, d.day) == DayNumber(d)
      && YearNear(ThursdayOf(DayNumber(d)), d.year) == IsoYear(d)
      && UtcYear(IsoYear(d)) == IsoYear(d)
      && MakeDay(IsoYear(d), 1, 1) == YearStart(IsoYear(d))
  {
    YearStartStep(d.year - 1);
    YearStartStep(d.year);
    YearStartStep(d.year + 1);
  }

  /** Friday 0100-01-01 belongs to week 53 of year 99; the shifted Thursday
      0099-12-31 makes the code measure from 1999-01-01 instead, giving a
      large negative week. */
  lemma AsWrittenFailsOnYear100()
    ensures ValidDate(Date(100, 1, 1))
    ensures WeekOfYear(Date(100, 1, 1)) == 53
    ensures WeekOfYearAsWritten(Date(100, 1, 1)) == -99085
  {
    assert YearStart(99) == -683368;
    assert YearStart(100) == -683003;
    assert YearStart(101) == -682638;
    assert YearStart(1999) == 10592;
    assert DayNumber(Date(100, 1, 1)) == -683003;
    assert UtcDay(-683003) == 5;
    assert ThursdayOf(-683003) == -683004;
    assert IsoYear(Date(100, 1, 1)) == 99;
    assert (-683004 - YearStart(99)) / 7 + 1 == 53;
    // as written: the date is read in year 100 (no remapping), but the
    // Thursday's year 99 is remapped to 1999
    assert UtcYear(100) == 100 && UtcYear(99) == 1999;
    assert MakeDay(1999, 1, 1) == 10592;
    assert Ceil7(-683004 - 10592 + 1) == -99085;
  }
}
