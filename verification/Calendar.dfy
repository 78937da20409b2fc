/**
  The proleptic Gregorian calendar, counted the slow way: one year, one month, one day at a time.
  Everything in `Systime` is measured against these definitions.
 */
module Gregorian {
  import opened Arithmetic

  const SECONDS_PER_DAY := 86400

  predicate IsLeap(y: int) {
    y % 4 == 0 && (y % 100 != 0 || y % 400 == 0)
  }

  function YearLength(y: int): int {
    if IsLeap(y) then 366 else 365
  }

  /** Length of month `m` (January is 0). */
  function MonthLength(y: int, m: int): int {
    if m == 1 then if IsLeap(y) then 29 else 28
    else if m == 3 || m == 5 || m == 8 || m == 10 then 30
    else 31
  }

  /** Days from 1970-01-01 to January 1st of year `y`, walking year by year in either direction. */
  function YearStart(y: int): int
    decreases if y < 1970 then 1970 - y else y - 1970
  {
    if y == 1970 then 0
    else if y > 1970 then YearStart(y - 1) + YearLength(y - 1)
    else YearStart(y + 1) - YearLength(y)
  }

  /** Days from January 1st to the first of month `m`. */
  function MonthStart(y: int, m: nat): int {
    if m == 0 then 0 else MonthStart(y, m - 1) + MonthLength(y, m - 1)
  }

  /** Days from 1970-01-01 to the given civil date (`mday` counts from 1 and may overflow its month). */
  function DayNumber(y: int, m: nat, mday: int): int {
    YearStart(y) + MonthStart(y, m) + mday - 1
  }

  function CivilSeconds(y: int, m: nat, mday: int, hour: int, min: int, sec: int): int {
    DayNumber(y, m, mday) * SECONDS_PER_DAY + hour * 3600 + min * 60 + sec
  }

  ghost predicate ValidDate(y: int, m: int, mday: int) {
    0 <= m < 12 && 1 <= mday <= MonthLength(y, m)
  }

  ghost predicate ValidClock(hour: int, min: int, sec: int) {
    0 <= hour < 24 && 0 <= min < 60 && 0 <= sec < 60
  }

  /** Leap days in the years 1 to n, floor division. */
  function Leaps(n: int): int {
    n / 4 - n / 100 + n / 400
  }

  lemma DivStep(y: int, n: int)
    requires n > 1
    ensures y / n - (y - 1) / n == if y % n == 0 then 1 else 0
  {
    var q, r := y / n, y % n;
    if r == 0 {
      assert y - 1 == n * (q - 1) + (n - 1);
      Quotient(y - 1, n, q - 1, n - 1);
    } else {
      Quotient(y - 1, n, q, r - 1);
    }
  }

  lemma LeapsStep(y: int)
    ensures Leaps(y) - Leaps(y - 1) == if IsLeap(y) then 1 else 0
  {
    DivStep(y, 4);
    DivStep(y, 100);
    DivStep(y, 400);
    if y % 100 == 0 {
      Quotient(y, 4, 25 * (y / 100), 0);
    }
    if y % 400 == 0 {
      Quotient(y, 100, 4 * (y / 400), 0);
    }
  }

  lemma {:induction false} YearStartClosedForm(y: int)
    ensures YearStart(y) == 365 * (y - 1970) + Leaps(y - 1) - Leaps(1969)
    decreases if y < 1970 then 1970 - y else y - 1970
  {
    if y > 1970 {
      YearStartClosedForm(y - 1);
      LeapsStep(y - 1);
    } else if y < 1970 {
      YearStartClosedForm(y + 1);
      LeapsStep(y);
    }
  }

  lemma {:induction false} YearStartStep(y: int)
    ensures YearStart(y + 1) == YearStart(y) + YearLength(y)
  {
    YearStartClosedForm(y);
    YearStartClosedForm(y + 1);
    LeapsStep(y);
  }

  /** The calendar repeats every 400 years, which are 146097 days. */
  lemma FourCenturies(y: int, k: int)
    ensures YearStart(y + 400 * k) == YearStart(y) + 146097 * k
    ensures IsLeap(y + 400 * k) == IsLeap(y)
  {
    YearStartClosedForm(y);
    YearStartClosedForm(y + 400 * k);
    DivShift(y - 1, 4, 100 * k);
    DivShift(y - 1, 100, 4 * k);
    DivShift(y - 1, 400, k);
    DivShift(y, 4, 100 * k);
    DivShift(y, 100, 4 * k);
    DivShift(y, 400, k);
    assert y + 400 * k - 1 == y - 1 + 400 * k;
  }

  lemma {:induction false} YearStartMonotone(y: int, z: int)
    requires y <= z
    ensures YearStart(y) + 365 * (z - y) <= YearStart(z)
    decreases z - y
  {
    if y < z {
      YearStartMonotone(y, z - 1);
      YearStartStep(z - 1);
    }
  }

  /** A day number determines the year and the day within it. */
  lemma YearAndDayUnique(y: int, yday: int, z: int, zday: int)
    requires 0 <= yday < YearLength(y) && 0 <= zday < YearLength(z)
    requires YearStart(y) + yday == YearStart(z) + zday
    ensures y == z && yday == zday
  {
    if y < z {
      YearStartStep(y);
      YearStartMonotone(y + 1, z);
    } else if z < y {
      YearStartStep(z);
      YearStartMonotone(z + 1, y);
    }
  }

  lemma MonthTable(y: int)
    ensures MonthStart(y, 0) == 0 && MonthStart(y, 1) == 31
    ensures var l := if IsLeap(y) then 1 else 0;
            && MonthStart(y, 2) == 59 + l && MonthStart(y, 3) == 90 + l && MonthStart(y, 4) == 120 + l
            && MonthStart(y, 5) == 151 + l && MonthStart(y, 6) == 181 + l && MonthStart(y, 7) == 212 + l
            && MonthStart(y, 8) == 243 + l && MonthStart(y, 9) == 273 + l && MonthStart(y, 10) == 304 + l
            && MonthStart(y, 11) == 334 + l && MonthStart(y, 12) == 365 + l
  {
    var f := (m: nat) => MonthStart(y, m);
    assert f(1) == 31 && f(2) == f(1) + MonthLength(y, 1) && f(3) == f(2) + 31 && f(4) == f(3) + 30;
    assert f(5) == f(4) + 31 && f(6) == f(5) + 30 && f(7) == f(6) + 31 && f(8) == f(7) + 31;
    assert f(9) == f(8) + 30 && f(10) == f(9) + 31 && f(11) == f(10) + 30 && f(12) == f(11) + 31;
  }

  lemma {:induction false} MonthStartMonotone(y: int, m: nat, n: nat)
    requires m <= n
    ensures MonthStart(y, m) <= MonthStart(y, n)
  {
    if m < n {
      MonthStartMonotone(y, m, n - 1);
    }
  }

  /** A day of the year determines the month and the day of the month. */
  lemma MonthAndDayUnique(y: int, m: int, d: int, n: int, e: int)
    requires ValidDate(y, m, d) && ValidDate(y, n, e)
    requires MonthStart(y, m) + d == MonthStart(y, n) + e
    ensures m == n && d == e
  {
    if m < n {
      MonthStartMonotone(y, m + 1, n);
    } else if n < m {
      MonthStartMonotone(y, n + 1, m);
    }
  }

  lemma DayOfYearInRange(y: int, m: int, d: int)
    requires ValidDate(y, m, d)
    ensures 0 <= MonthStart(y, m) + d - 1 < YearLength(y)
  {
    MonthTable(y);
  }

  /** Two valid civil dates and times naming the same second are the same. */
  lemma CivilUnique(y: int, m: int, d: int, hour: int, min: int, sec: int,
                    y': int, m': int, d': int, hour': int, min': int, sec': int)
    requires ValidDate(y, m, d) && ValidClock(hour, min, sec)
    requires ValidDate(y', m', d') && ValidClock(hour', min', sec')
    requires CivilSeconds(y, m, d, hour, min, sec) == CivilSeconds(y', m', d', hour', min', sec')
    ensures (y, m, d, hour, min, sec) == (y', m', d', hour', min', sec')
  {
    assert DayNumber(y, m, d) == DayNumber(y', m', d');
    DayOfYearInRange(y, m, d);
    DayOfYearInRange(y', m', d');
    YearAndDayUnique(y, MonthStart(y, m) + d - 1, y', MonthStart(y', m') + d' - 1);
    MonthAndDayUnique(y, m, d, m', d');
  }
}
