/**
  UTC broken-down time: `GmTimeR` with its lookup-table path and its four-century path, and `TimeGM`.
  Fixed-width arithmetic is written over `int`; every narrowing in the source has an assertion that
  the value fits, or an explicit wrap where it need not.
 */
module Systime {
  import opened Arithmetic
  import opened Gregorian

  const STRUCT_TM_BASE_YEAR := 1900
  const UNIX_TIME_BASE_YEAR := 1970
  const FOUR_CENTURY_YEARS := 400
  const FOUR_CENTURY_DAYS := 146097
  const FOUR_CENTURY_SECONDS := FOUR_CENTURY_DAYS * SECONDS_PER_DAY

  const TWO_TO_THE_16 := 0x1_0000
  const TWO_TO_THE_31 := 0x8000_0000
  const TWO_TO_THE_32 := 0x1_0000_0000
  const TWO_TO_THE_63 := 0x8000_0000_0000_0000

  predicate InI32(x: int) { -TWO_TO_THE_31 <= x < TWO_TO_THE_31 }
  predicate InU32(x: int) { 0 <= x < TWO_TO_THE_32 }
  predicate InI64(x: int) { -TWO_TO_THE_63 <= x < TWO_TO_THE_63 }

  /** Conversion of a 64-bit value to a 32-bit signed one. */
  function WrapI32(x: int): (r: int)
    ensures InI32(r) && (InI32(x) <==> r == x)
  {
    (x + TWO_TO_THE_31) % TWO_TO_THE_32 - TWO_TO_THE_31
  }

  /** The `%` of C, which truncates toward zero. */
  function TruncMod(a: int, n: int): int
    requires n > 0
  {
    if a >= 0 then a % n else -(-a % n)
  }

  predicate IsLeapYear(year: int)
    ensures IsLeapYear(year) == IsLeap(year)
  {
    if year % 4 != 0 then false
    else if year % 100 != 0 then true
    else year % 400 == 0
  }

  function YearSize(year: int): int {
    if IsLeapYear(year) then 366 else 365
  }

  function LeapYearCount(years: nat): nat {
    years / 4 - years / 100 + years / 400
  }

  /** Day on which year `years + 1` starts, counted from January 1st of year 1. */
  lemma CycleYearStart(years: nat)
    ensures YearStart(years + 1) - YearStart(1) == years * 365 + LeapYearCount(years)
    ensures LeapYearCount(years) <= years / 4
  {
    YearStartClosedForm(1);
    YearStartClosedForm(years + 1);
  }

  /** The guess `dayno / 365` is the year or the one after it. */
  lemma GuessIsClose(dayno: int)
    requires 0 <= dayno < FOUR_CENTURY_DAYS
    ensures var years := dayno / 365;
            var diff := years * 365 + LeapYearCount(years);
            && 0 <= years <= FOUR_CENTURY_YEARS && InU32(diff)
            && dayno - 365 < diff <= dayno + 365
            && (diff <= dayno ==> years < FOUR_CENTURY_YEARS) && (diff > dayno ==> years > 0)
  {
    var years := dayno / 365;
    assert 365 * years <= dayno < 365 * years + 365;
    assert 0 <= LeapYearCount(years) <= 100;
    assert LeapYearCount(400) == 97 && LeapYearCount(0) == 0;
  }

  /** Splits a day of the 400-year cycle starting in year 1 into a year of the cycle and a day of that year. */
  method FindYearWithin4Centuries(dayno: int) returns (years: int, rest: int)
    requires 0 <= dayno < FOUR_CENTURY_DAYS
    ensures 0 <= years < FOUR_CENTURY_YEARS
    ensures 0 <= rest < YearLength(years + 1)
    ensures YearStart(years + 1) - YearStart(1) + rest == dayno
  {
    hide YearStart, IsLeap, LeapYearCount;
    years := dayno / 365;
    var diff := years * 365 + LeapYearCount(years);
    GuessIsClose(dayno);
    CycleYearStart(years);
    YearStartStep(years);
    YearStartStep(years + 1);
    if diff <= dayno {
      rest := dayno - diff;
    } else {
      rest := dayno - (diff - YearSize(years));
      years := years - 1;
    }
  }

  const MONTH_TO_DAYS: seq<int> := [0, 31, 59, 90, 120, 151, 181, 212, 243, 273, 304, 334]
  const MONTH_TO_DAYS_LEAP: seq<int> := [0, 31, 60, 91, 121, 152, 182, 213, 244, 274, 305, 335]

  /** The multiply-and-shift month formula. */
  method DayOfYearToMonth(yearDay: int, leapYear: bool, ghost year: int) returns (month: int, rest: int)
    requires leapYear == IsLeap(year)
    requires 0 <= yearDay < YearLength(year)
    ensures 0 <= month < 12
    ensures 0 <= rest < MonthLength(year, month)
    ensures MonthStart(year, month) + rest == yearDay
  {
    MonthTable(year);
    var leap := if leapYear then 1 else 0;
    var day := yearDay;
    if day >= 31 + 28 + leap {
      day := day + 2 - leap;
    }
    month := (day * 67 + 35) / 2048;
    rest := day - (month * 489 + 8) / 16;
  }

  const TABLE_SIZE := 128
  const START_YEAR := 1970
  const MIN_TIMESTAMP := 0
  const MAX_TIMESTAMP := TABLE_SIZE * 366 * SECONDS_PER_DAY - 1

  lemma {:induction false} YearStartUpper(i: nat)
    ensures YearStart(START_YEAR + i) <= 366 * i
  {
    if i > 0 {
      YearStartUpper(i - 1);
    }
  }

  /** Over the whole table range the day lies in year 1970 + days / 366 or in the year after it. */
  lemma MissesByAtMostOne(days: int)
    requires 0 <= days < TABLE_SIZE * 366
    ensures YearStart(START_YEAR + days / 366) <= days < YearStart(START_YEAR + days / 366 + 2)
  {
    var i := days / 366;
    YearStartMonotone(START_YEAR, START_YEAR + i + 2);
    YearStartUpper(i);
  }

  /** `TDayNoToYearLookupTable`: entry i is the number of days from 1970-01-01 to the end of year 1970 + i. */
  class LookupTable {
    const daysSinceEpoch: array<int>

    ghost predicate Valid()
      reads this, daysSinceEpoch
    {
      && daysSinceEpoch.Length == TABLE_SIZE
      && forall i :: 0 <= i < TABLE_SIZE ==> daysSinceEpoch[i] == YearStart(START_YEAR + i + 1)
    }

    constructor ()
      ensures Valid()
      ensures fresh(daysSinceEpoch)
    {
      var table := new int[TABLE_SIZE];
      var daysAccumulated := 0;
      for year := START_YEAR to START_YEAR + TABLE_SIZE
        invariant daysAccumulated == YearStart(year)
        invariant forall i :: 0 <= i < year - START_YEAR ==> table[i] == YearStart(START_YEAR + i + 1)
      {
        daysAccumulated := daysAccumulated + YearSize(year);
        YearStartStep(year);
        YearStartClosedForm(year + 1);
        assert 0 <= daysAccumulated < TWO_TO_THE_16;
        table[year - START_YEAR] := daysAccumulated;
      }
      daysSinceEpoch := table;
    }

    /** Finds the year of a day number; dividing by 366 misses the table index by at most one. */
    method FindYear(days: int) returns (year: int, rest: int)
      requires Valid()
      requires 0 <= days < TABLE_SIZE * 366
      ensures 0 <= rest < YearLength(year)
      ensures YearStart(year) + rest == days
      ensures year == START_YEAR + days / 366 || year == START_YEAR + days / 366 + 1
    {
      var yearIndex := days / 366;
      MissesByAtMostOne(days);
      var diff := daysSinceEpoch[yearIndex];
      YearStartStep(START_YEAR + yearIndex);
      YearStartStep(START_YEAR + yearIndex + 1);
      if diff <= days {
        return yearIndex + START_YEAR + 1, days - diff;
      }
      rest := days;
      if yearIndex > 0 {
        rest := rest - daysSinceEpoch[yearIndex - 1];
      }
      year := yearIndex + START_YEAR;
    }
  }

  /** The value of a `struct tm`, without the constant fields of a UTC time. */
  datatype TmFields = TmFields(sec: int, min: int, hour: int, mday: int, mon: int, year: int, wday: int, yday: int)

  class Tm {
    var sec: int
    var min: int
    var hour: int
    var mday: int
    var mon: int
    var year: int
    var wday: int
    var yday: int

    constructor () {}

    function Fields(): TmFields
      reads this
    {
      TmFields(sec, min, hour, mday, mon, year, wday, yday)
    }
  }

  /** `f` is the UTC date and time of second `time`, which falls in `year` (`f.year` may have wrapped). */
  ghost predicate IsGmTime(time: int, year: int, f: TmFields) {
    && ValidDate(year, f.mon, f.mday)
    && ValidClock(f.hour, f.min, f.sec)
    && CivilSeconds(year, f.mon, f.mday, f.hour, f.min, f.sec) == time
    && f.yday == MonthStart(year, f.mon) + f.mday - 1
    && f.wday == (DayNumber(year, f.mon, f.mday) + 4) % 7
    && f.year == WrapI32(year - STRUCT_TM_BASE_YEAR)
  }

  /** Every second has at most one UTC date and time. */
  lemma GmTimeUnique(time: int, y: int, f: TmFields, z: int, g: TmFields)
    requires IsGmTime(time, y, f) && IsGmTime(time, z, g)
    ensures y == z && f == g
  {
    CivilUnique(y, f.mon, f.mday, f.hour, f.min, f.sec, z, g.mon, g.mday, g.hour, g.min, g.sec);
  }

  /** What the two year-finding paths of `GmTimeR` leave for the code after them. */
  datatype YearSplit = YearSplit(year: int, dayOfYear: int, dayClock: int, wday: int, leap: bool)

  ghost predicate SplitsTime(time: int, s: YearSplit) {
    && 0 <= s.dayClock < SECONDS_PER_DAY
    && 0 <= s.dayOfYear < YearLength(s.year)
    && (YearStart(s.year) + s.dayOfYear) * SECONDS_PER_DAY + s.dayClock == time
    && s.wday == (YearStart(s.year) + s.dayOfYear + 4) % 7
    && s.leap == IsLeap(s.year)
  }

  lemma SplitUnique(time: int, s: YearSplit, t: YearSplit)
    requires SplitsTime(time, s) && SplitsTime(time, t)
    ensures s == t
  {
    assert YearStart(s.year) + s.dayOfYear == YearStart(t.year) + t.dayOfYear;
    YearAndDayUnique(s.year, s.dayOfYear, t.year, t.dayOfYear);
  }

  method TablePath(table: LookupTable, time: int) returns (s: YearSplit)
    requires table.Valid()
    requires MIN_TIMESTAMP <= time <= MAX_TIMESTAMP
    ensures SplitsTime(time, s)
  {
    var dayClock := time % SECONDS_PER_DAY;
    var days := time / SECONDS_PER_DAY;
    var wday := (days + 4) % 7;
    var year, rest := table.FindYear(days);
    s := YearSplit(year, rest, dayClock, wday, IsLeapYear(year));
  }

  lemma StartOfYearOne()
    ensures YearStart(1) == -719162
  {
    hide YearStart;
    YearStartClosedForm(1);
  }

  /** The years of the proleptic calendar from 1601 on, `k` cycles of 400 years and `yearDiff` years later. */
  lemma CycleOf1601(k: int, yearDiff: int)
    ensures YearStart(1601 + 400 * k + yearDiff) == YearStart(yearDiff + 1) - YearStart(1) - 134774 + 146097 * k
    ensures IsLeap(1601 + 400 * k + yearDiff) == IsLeap(yearDiff + 1)
  {
    hide YearStart, IsLeap;
    FourCenturies(yearDiff + 1, k + 4);
    assert yearDiff + 1 + 400 * (k + 4) == 1601 + 400 * k + yearDiff;
    StartOfYearOne();
  }

  lemma Moving1969Back(cycles: int)
    requires cycles <= 0
    ensures var r := TruncMod(1969 + 400 * cycles, 400); r == 369 || r == -31
  {
    if 1969 + 400 * cycles >= 0 {
      Quotient(1969 + 400 * cycles, 400, 4 + cycles, 369);
    } else {
      Quotient(-1969 - 400 * cycles, 400, -cycles - 5, 31);
    }
  }

  /** Moving a time by whole 400-year cycles moves its day number and keeps its clock and weekday. */
  lemma CycleShift(timer: int, time: int, cycles: int)
    requires time == timer - cycles * FOUR_CENTURY_SECONDS
    ensures (time / SECONDS_PER_DAY + 146097 * cycles) * SECONDS_PER_DAY + time % SECONDS_PER_DAY == timer
    ensures (time / SECONDS_PER_DAY + 146097 * cycles + 4) % 7 == (time / SECONDS_PER_DAY + 4) % 7
  {
    DivShift(time / SECONDS_PER_DAY + 4, 7, 20871 * cycles);
    assert time / SECONDS_PER_DAY + 4 + 7 * (20871 * cycles) == time / SECONDS_PER_DAY + 146097 * cycles + 4;
  }

  /** Negative times are moved up by whole cycles until they are not negative. */
  method MakeNonNegative(timer: int) returns (time: int, year: int, ghost cycles: int)
    requires -TWO_TO_THE_63 + FOUR_CENTURY_SECONDS <= timer < TWO_TO_THE_63
    ensures -TWO_TO_THE_31 * 1000 <= cycles <= 0 && 0 <= time < TWO_TO_THE_63
    ensures time == timer - cycles * FOUR_CENTURY_SECONDS
    ensures year == UNIX_TIME_BASE_YEAR + 400 * cycles
  {
    time, year, cycles := timer, UNIX_TIME_BASE_YEAR, 0;
    if time < 0 {
      var shift := (-time - 1) / FOUR_CENTURY_SECONDS + 1;
      assert InI64(shift * FOUR_CENTURY_DAYS * SECONDS_PER_DAY);
      time := time + shift * FOUR_CENTURY_DAYS * SECONDS_PER_DAY;
      year := year - shift * FOUR_CENTURY_YEARS;
      cycles := -shift;
    }
  }

  method FourCenturyPath(timer: int) returns (s: YearSplit)
    requires -TWO_TO_THE_63 + FOUR_CENTURY_SECONDS <= timer < TWO_TO_THE_63
    ensures SplitsTime(timer, s)
  {
    var time, year, cycles := MakeNonNegative(timer);
    var dayClock := time % SECONDS_PER_DAY;
    var dayNo := time / SECONDS_PER_DAY;
    var wday := (dayNo + 4) % 7;
    CycleShift(timer, time, cycles);
    ghost var days := dayNo + 146097 * cycles;

    var shiftYears := TruncMod(year - 1, FOUR_CENTURY_YEARS);
    Moving1969Back(cycles);
    if shiftYears != 0 {
      if shiftYears < 0 {
        shiftYears := shiftYears + FOUR_CENTURY_YEARS;
      }
      year := year - shiftYears;
      dayNo := dayNo + shiftYears * 365 + LeapYearCount(shiftYears);
    }
    assert year == 1601 + 400 * cycles && dayNo == days - 146097 * cycles + 134774;

    ghost var k := cycles;
    if dayNo >= FOUR_CENTURY_DAYS {
      k := cycles + dayNo / FOUR_CENTURY_DAYS;
      year := year + FOUR_CENTURY_YEARS * (dayNo / FOUR_CENTURY_DAYS);
      dayNo := dayNo % FOUR_CENTURY_DAYS;
    }
    assert InI64(year) && year == 1601 + 400 * k && dayNo == days + 134774 - 146097 * k;

    var yearDiff, rest := FindYearWithin4Centuries(dayNo);
    year := year + yearDiff;
    CycleOf1601(k, yearDiff);
    s := YearSplit(year, rest, dayClock, wday, IsLeapYear(yearDiff + 1));
  }

  /** On the table range both paths give the same answer, for every time. */
  method BothPathsAgree(table: LookupTable, time: int) returns (viaTable: YearSplit, viaCycles: YearSplit)
    requires table.Valid()
    requires MIN_TIMESTAMP <= time <= MAX_TIMESTAMP
    ensures viaTable == viaCycles && SplitsTime(time, viaTable)
  {
    viaTable := TablePath(table, time);
    viaCycles := FourCenturyPath(time);
    SplitUnique(time, viaTable, viaCycles);
  }

  lemma ClockParts(dayClock: int)
    requires 0 <= dayClock < SECONDS_PER_DAY
    ensures ValidClock(dayClock / 3600, dayClock % 3600 / 60, dayClock % 60)
    ensures dayClock / 3600 * 3600 + dayClock % 3600 / 60 * 60 + dayClock % 60 == dayClock
  {
    Quotient(dayClock, 60, dayClock / 3600 * 60 + dayClock % 3600 / 60, dayClock % 3600 % 60);
  }

  lemma YearOfTableTime(time: int, s: YearSplit)
    requires MIN_TIMESTAMP <= time <= MAX_TIMESTAMP && SplitsTime(time, s)
    ensures 1970 <= s.year <= 2100
  {
    if s.year < 1970 {
      YearStartStep(s.year);
      YearStartMonotone(s.year + 1, 1970);
    } else if s.year > 2100 {
      YearStartMonotone(1970, s.year);
    }
  }

  /** `GmTimeR`: fills `tmbuf` for any time away from the low end of int64; fails only when the year does not fit. */
  method GmTimeR(table: LookupTable, timer: int, tmbuf: Tm) returns (ok: bool, ghost civilYear: int)
    requires table.Valid()
    requires -TWO_TO_THE_63 + FOUR_CENTURY_SECONDS <= timer < TWO_TO_THE_63
    modifies tmbuf
    ensures IsGmTime(timer, civilYear, tmbuf.Fields())
    ensures ok <==> InI32(civilYear - STRUCT_TM_BASE_YEAR)
  {
    ok := true;
    var s;
    if MIN_TIMESTAMP <= timer <= MAX_TIMESTAMP {
      s := TablePath(table, timer);
      YearOfTableTime(timer, s);
      tmbuf.year := s.year - STRUCT_TM_BASE_YEAR;
    } else {
      s := FourCenturyPath(timer);
      tmbuf.year := WrapI32(s.year - STRUCT_TM_BASE_YEAR);
      if s.year - STRUCT_TM_BASE_YEAR != tmbuf.year {
        ok := false;
      }
    }
    civilYear := s.year;
    tmbuf.wday := s.wday;
    tmbuf.sec := s.dayClock % 60;
    tmbuf.min := s.dayClock % 3600 / 60;
    tmbuf.hour := s.dayClock / 3600;
    ClockParts(s.dayClock);
    tmbuf.yday := s.dayOfYear;
    var month, day := DayOfYearToMonth(s.dayOfYear, s.leap, s.year);
    tmbuf.mon := month;
    tmbuf.mday := day + 1;
  }

  /** `TimeGM` computes with `int` days: the sums below must not overflow for its result to be defined. */
  ghost predicate IntArithmeticFits(t: TmFields) {
    t.year >= 70 && 0 <= t.mon < 12 ==>
      && InI32(YearStart(1900 + t.year))
      && InI32(YearStart(1900 + t.year) + MonthStart(1900 + t.year, t.mon))
      && InI32(t.mday - 1)
      && InI32(DayNumber(1900 + t.year, t.mon, t.mday))
      && InI32(t.hour * 3600) && InI32(t.min * 60) && InI32(t.sec)
  }

  lemma LeapDaysSince1970(tmYear: int)
    requires tmYear >= 70
    ensures YearStart(1900 + tmYear) ==
      365 * (tmYear - 70) + ((tmYear - 1 - 68) / 4 - (tmYear - 1) / 100 + (tmYear - 1 + 300) / 400)
  {
    YearStartClosedForm(1900 + tmYear);
    DivShift(tmYear - 69, 4, 492);
    DivShift(tmYear - 1, 100, 19);
    DivShift(tmYear + 299, 400, 4);
  }

  /** `TimeGM`, the inverse of gmtime for years from 1970 on. Fields out of their usual range carry over. */
  method TimeGM(t: TmFields) returns (time: int)
    requires InI32(t.year) && IntArithmeticFits(t)
    ensures time ==
      if t.year < 70 || t.mon < 0 || t.mon >= 12 then -1
      else CivilSeconds(1900 + t.year, t.mon, t.mday, t.hour, t.min, t.sec)
  {
    hide YearStart, IsLeap, MonthStart, MonthLength;
    if t.year < 70 {
      return -1;
    }
    var days := 365 * (t.year - 70);
    days := days + ((t.year - 1 - 68) / 4 - (t.year - 1) / 100 + (t.year - 1 + 300) / 400);
    if t.mon < 0 || t.mon >= 12 {
      return -1;
    }
    LeapDaysSince1970(t.year);
    assert days == YearStart(1900 + t.year);
    MonthTable(1900 + t.year);
    if IsLeapYear(1900 + t.year) {
      days := days + MONTH_TO_DAYS_LEAP[t.mon];
    } else {
      days := days + MONTH_TO_DAYS[t.mon];
    }
    days := days + (t.mday - 1);
    time := days * 86400 + t.hour * 3600 + t.min * 60 + t.sec;
    assert InI64(time);
  }

  lemma YearOfEpochTime(time: int, year: int, f: TmFields)
    requires 0 <= time < TWO_TO_THE_31 * SECONDS_PER_DAY && IsGmTime(time, year, f)
    ensures year >= 1970 && f.year == year - 1900 && IntArithmeticFits(f)
  {
    DayOfYearInRange(year, f.mon, f.mday);
    if year < 1970 {
      YearStartStep(year);
      YearStartMonotone(year + 1, 1970);
    } else {
      YearStartMonotone(1970, year);
      MonthTable(year);
    }
  }

  /** Breaking a time down and putting it back together gives the time, as long as its day number fits an int. */
  method TimeGMInvertsGmTimeR(table: LookupTable, time: int) returns (back: int)
    requires table.Valid()
    requires 0 <= time < TWO_TO_THE_31 * SECONDS_PER_DAY
    ensures back == time
  {
    var tm := new Tm();
    var ok, year := GmTimeR(table, time, tm);
    YearOfEpochTime(time, year, tm.Fields());
    back := TimeGM(tm.Fields());
  }

  /** Putting normalised fields from 1970 on together and breaking the time down again gives the fields. */
  method GmTimeRInvertsTimeGM(table: LookupTable, f: TmFields) returns (g: TmFields)
    requires table.Valid()
    requires 70 <= f.year < TWO_TO_THE_31 && ValidDate(1900 + f.year, f.mon, f.mday) && ValidClock(f.hour, f.min, f.sec)
    requires InI32(DayNumber(1900 + f.year, f.mon, f.mday))
    ensures g.(wday := f.wday, yday := f.yday) == f
    ensures g.yday == MonthStart(1900 + f.year, f.mon) + f.mday - 1
    ensures g.wday == (DayNumber(1900 + f.year, f.mon, f.mday) + 4) % 7
  {
    var days := DayNumber(1900 + f.year, f.mon, f.mday);
    var full := f.(yday := MonthStart(1900 + f.year, f.mon) + f.mday - 1, wday := (days + 4) % 7);
    YearStartMonotone(1970, 1900 + f.year);
    MonthTable(1900 + f.year);
    var time := TimeGM(full);
    assert IsGmTime(time, 1900 + f.year, full);
    var tm := new Tm();
    var ok, year := GmTimeR(table, time, tm);
    GmTimeUnique(time, 1900 + f.year, full, year, tm.Fields());
    g := tm.Fields();
  }
}

/** `TDateTimeFields` of the date parser. */
module DateTimeFields {
  import opened Gregorian
  import opened Systime

  datatype Fields = Fields(year: nat, month: nat, day: nat, hour: nat, minute: nat, second: nat,
                           microSecond: nat, zoneOffsetMinutes: int)
  {
    predicate IsOk() {
      if year < 1970 then false
      else if month < 1 || month > 12 then false
      else
        var maxMonthDay :=
          if month == 4 || month == 6 || month == 9 || month == 11 then 30
          else if month == 2 then if year % 4 == 0 && (year % 100 != 0 || year % 400 == 0) then 29 else 28
          else 31;
        if day > maxMonthDay then false
        else if hour > 23 then false
        else if minute > 59 then false
        else if second > 60 then false
        else if microSecond > 999999 then false
        else if year == 1970 && month == 1 && day == 1 then
          3600 * hour + 60 * minute + second >= 60 * zoneOffsetMinutes
        else true
    }

    function ToTm(): TmFields {
      TmFields(second, minute, hour, day, month - 1, year - 1900, 0, 0)
    }

    /** Seconds from the epoch to these fields read as UTC. */
    ghost function Civil(): int
      requires 1 <= month <= 12
    {
      CivilSeconds(year, month - 1, day, hour, minute, second)
    }
  }

  ghost predicate ZoneWithinADay(f: Fields) {
    -1440 <= f.zoneOffsetMinutes <= 1440
  }

  /** What is accepted, by the calendar: day 0 and the leap second are. */
  lemma OkIff(f: Fields)
    ensures f.IsOk() <==>
      && f.year >= 1970 && 1 <= f.month <= 12 && f.day <= MonthLength(f.year, f.month - 1)
      && f.hour <= 23 && f.minute <= 59 && f.second <= 60 && f.microSecond <= 999999
      && (f.year == 1970 && f.month == 1 && f.day == 1 ==> f.Civil() >= 60 * f.zoneOffsetMinutes)
  {
  }

  /** A civil date and time from 1970 on with an offset within a day. */
  ghost predicate IsCivil(f: Fields) {
    && f.year >= 1970 && 1 <= f.month && ValidDate(f.year, f.month - 1, f.day) && ValidClock(f.hour, f.minute, f.second)
    && f.microSecond <= 999999 && ZoneWithinADay(f)
  }

  lemma LaterDay(f: Fields)
    requires IsCivil(f) && !(f.year == 1970 && f.month == 1 && f.day == 1)
    ensures DayNumber(f.year, f.month - 1, f.day) >= 1
  {
    MonthTable(f.year);
    if f.year > 1970 {
      YearStartMonotone(1971, f.year);
      YearStartStep(1970);
    }
  }

  /** Such fields are accepted exactly when they name no time before the epoch. */
  lemma CivilIsOk(f: Fields)
    requires IsCivil(f)
    ensures f.IsOk() <==> f.Civil() >= 60 * f.zoneOffsetMinutes
  {
    MonthTable(f.year);
    YearStartMonotone(1970, f.year);
    var days := DayNumber(f.year, f.month - 1, f.day);
    assert days >= 0;
    if !(f.year == 1970 && f.month == 1 && f.day == 1) {
      LaterDay(f);
    }
  }

  /** The only accepted fields that name a time before the epoch are those of the zeroth of January 1970. */
  ghost predicate BeforeEpoch(f: Fields) {
    && f.year == 1970 && f.month == 1 && f.day == 0
    && 3600 * f.hour + 60 * f.minute + f.second < 86400 + 60 * f.zoneOffsetMinutes
  }

  /** Exactly when accepted fields with a zone offset within a day name a time at or after the epoch. */
  lemma AcceptedCivil(f: Fields)
    requires f.IsOk()
    ensures ZoneWithinADay(f) ==> (f.Civil() - 60 * f.zoneOffsetMinutes >= 0 <==> !BeforeEpoch(f))
    ensures f.day >= 1 ==> f.Civil() >= 0
  {
    MonthTable(f.year);
    YearStartMonotone(1970, f.year);
  }

  method ToTimeT(f: Fields, defaultValue: int) returns (tt: int)
    requires f.year < TWO_TO_THE_31
    requires InI32(60 * f.zoneOffsetMinutes)
    requires f.IsOk() ==> IntArithmeticFits(f.ToTm())
    ensures !f.IsOk() ==> tt == defaultValue
    ensures f.IsOk() ==> tt == if f.Civil() == -1 then defaultValue else f.Civil() - 60 * f.zoneOffsetMinutes
    ensures f.IsOk() && ZoneWithinADay(f) && f.day >= 1 ==> tt == f.Civil() - 60 * f.zoneOffsetMinutes >= 0
    ensures IsCivil(f) ==>
              tt == var time := f.Civil() - 60 * f.zoneOffsetMinutes; if time >= 0 then time else defaultValue
  {
    if IsCivil(f) {
      CivilIsOk(f);
    }
    if !f.IsOk() {
      return defaultValue;
    }
    AcceptedCivil(f);
    tt := TimeGM(f.ToTm());
    if tt == -1 {
      return defaultValue;
    }
    tt := tt - f.zoneOffsetMinutes * 60;
  }

  /** `IsOk` takes day 0, so an accepted value can name a time before the epoch. */
  lemma DayZeroIsAccepted()
    ensures var f := Fields(1970, 1, 0, 0, 0, 0, 0, 0); f.IsOk() && f.Civil() == -86400
  {
  }
}
