/**
 mktime and localtime_r (server/ulibc/time.c), against the Gregorian calendar counted
 year by year and month by month; section 4.16 of the Base Definitions of IEEE Std
 1003.1-2017 relates the two for years from 1970 on. Integers are unbounded here.
 */
module Calendar {
  import opened Arithmetic

  const SECSPERMIN := 60
  const SECSPERHOUR := 3600
  const SECSPERDAY := 86400
  const DAYSPERNYEAR := 365
  const DAYSPERWEEK := 7
  const TM_YEAR_BASE := 1900
  const EPOCH_YEAR := 1970
  const EPOCH_LEAP := 1968
  const EPOCH_WDAY := 4
  const BASE_TO_EPOCH_YEAR := EPOCH_YEAR - TM_YEAR_BASE

  const DAYS_TO_MONTH: seq<int> := [0, 31, 59, 90, 120, 151, 181, 212, 243, 273, 304, 334, 365]
  const DAYS_TO_MONTH_LEAP: seq<int> := [0, 31, 60, 91, 121, 152, 182, 213, 244, 274, 305, 335, 366]

  datatype Tm = Tm(sec: int, min: int, hour: int, mday: int, mon: int, year: int, wday: int, yday: int)

  // ----- the calendar

  predicate IsLeap(y: int) {
    y % 4 == 0 && (y % 100 != 0 || y % 400 == 0)
  }

  function YearLength(y: int): int {
    if IsLeap(y) then 366 else 365
  }

  function MonthLength(y: int, m: int): int {
    if m == 1 then (if IsLeap(y) then 29 else 28)
    else if m == 3 || m == 5 || m == 8 || m == 10 then 30
    else 31
  }

  /** Days from 1 January 1970 to 1 January of year y. */
  function DaysBefore(y: int): int
    requires y >= EPOCH_YEAR
    decreases y
  {
    if y == EPOCH_YEAR then 0 else DaysBefore(y - 1) + YearLength(y - 1)
  }

  /** Days from 1 January to the first of month m. */
  function MonthStart(y: int, m: int): int
    requires 0 <= m <= 12
    decreases m
  {
    if m == 0 then 0 else MonthStart(y, m - 1) + MonthLength(y, m - 1)
  }

  /** Day `days` after the epoch is in year y. */
  ghost predicate InYear(days: int, y: int) {
    y >= EPOCH_YEAR && DaysBefore(y) <= days < DaysBefore(y) + YearLength(y)
  }

  /** The year of a day, counting on from 1 January of year y. */
  function YearFrom(y: int, days: int): (r: int)
    requires y >= EPOCH_YEAR && days >= DaysBefore(y)
    ensures r >= y && InYear(days, r)
    decreases days - DaysBefore(y)
  {
    if days < DaysBefore(y) + YearLength(y) then y else YearFrom(y + 1, days)
  }

  function YearOf(days: nat): (y: int)
    ensures InYear(days, y)
  {
    YearFrom(EPOCH_YEAR, days)
  }

  /** Seconds since the epoch; the day of the month and the time of day need not be in their ranges. */
  function SecondCount(y: int, mon: int, mday: int, hour: int, min: int, sec: int): int
    requires y >= EPOCH_YEAR && 0 <= mon < 12
  {
    (DaysBefore(y) + MonthStart(y, mon) + mday - 1) * SECSPERDAY + hour * SECSPERHOUR + min * SECSPERMIN + sec
  }

  // ----- leap years, as the source counts them

  /** C's division, which truncates. */
  function Quotient(a: int, b: int): int
    requires b > 0
  {
    if a >= 0 then a / b else -((-a) / b)
  }

  function LeapYearsFromEpoch(y: int): int {
    Quotient(y - EPOCH_LEAP - 1, 4)
  }

  /** Every fourth year is counted: right up to 2100, and too many from then on. */
  lemma {:induction false} LeapCount(y: int)
    requires y >= EPOCH_YEAR
    ensures y <= 2100 ==> DaysBefore(y) == 365 * (y - EPOCH_YEAR) + LeapYearsFromEpoch(y)
    ensures y > 2100 ==> DaysBefore(y) < 365 * (y - EPOCH_YEAR) + LeapYearsFromEpoch(y)
    decreases y
  {
    hide LeapYearsFromEpoch, IsLeap;
    if y > EPOCH_YEAR {
      LeapCount(y - 1);
      FourthYears(y - 1);
      Centuries(y - 1);
    } else {
      FourthYears(y);
    }
  }

  lemma FourthYears(y: int)
    requires y >= EPOCH_YEAR
    ensures LeapYearsFromEpoch(y + 1) == LeapYearsFromEpoch(y) + if y % 4 == 0 then 1 else 0
    ensures 0 <= LeapYearsFromEpoch(y) <= y - EPOCH_YEAR
    ensures y <= 2100 ==> LeapYearsFromEpoch(y) <= 33
  {
  }

  lemma Centuries(y: int)
    requires y >= EPOCH_YEAR
    ensures IsLeap(y) ==> y % 4 == 0
    ensures y < 2100 && y % 4 == 0 ==> IsLeap(y)
    ensures !IsLeap(2100)
  {
  }

  /** Leap days from 1970 up to year y, in closed form. */
  function LeapDays(y: int): int {
    (y - 1969) / 4 - (y - 1901) / 100 + (y - 1601) / 400
  }

  /** Counting year by year is the closed form of section 4.16. */
  lemma {:induction false} DaysInClosedForm(y: int)
    requires y >= EPOCH_YEAR
    ensures DaysBefore(y) == 365 * (y - EPOCH_YEAR) + LeapDays(y)
    decreases y
  {
    hide LeapDays, IsLeap;
    if y > EPOCH_YEAR {
      DaysInClosedForm(y - 1);
      OneYearMore(y - 1);
    } else {
      NoLeapDays();
    }
  }

  lemma NoLeapDays()
    ensures LeapDays(EPOCH_YEAR) == 0
  {
  }

  lemma OneYearMore(y: int)
    requires y >= EPOCH_YEAR
    ensures LeapDays(y + 1) == LeapDays(y) + if IsLeap(y) then 1 else 0
  {
    hide IsLeap;
    Fourth(y);
    Hundredth(y);
    FourHundredth(y);
    LeapRule(y);
  }

  lemma LeapRule(y: nat)
    ensures (if IsLeap(y) then 1 else 0) ==
              (if y % 4 == 0 then 1 else 0) - (if y % 100 == 0 then 1 else 0) + (if y % 400 == 0 then 1 else 0)
  {
    if y % 400 == 0 {
      ModuloIs(y, 100, y / 400 * 4, 0);
    }
    if y % 100 == 0 {
      ModuloIs(y, 4, y / 100 * 25, 0);
    }
  }

  lemma Fourth(y: int)
    ensures (y + 1 - 1969) / 4 == (y - 1969) / 4 + if y % 4 == 0 then 1 else 0
  {
  }

  lemma Hundredth(y: int)
    ensures (y + 1 - 1901) / 100 == (y - 1901) / 100 + if y % 100 == 0 then 1 else 0
  {
  }

  lemma FourHundredth(y: int)
    ensures (y + 1 - 1601) / 400 == (y - 1601) / 400 + if y % 400 == 0 then 1 else 0
  {
  }

  /** The expression that section 4.16 gives for the seconds since the Epoch. */
  lemma SecondsSinceTheEpoch(tm: Tm)
    requires 0 <= tm.mon < 12 && tm.year >= 70
    requires tm.yday == MonthStart(tm.year + TM_YEAR_BASE, tm.mon) + tm.mday - 1
    ensures SecondCount(tm.year + TM_YEAR_BASE, tm.mon, tm.mday, tm.hour, tm.min, tm.sec) ==
              tm.sec + tm.min * 60 + tm.hour * 3600 + tm.yday * 86400
              + (tm.year - 70) * 31536000 + ((tm.year - 69) / 4) * 86400
              - ((tm.year - 1) / 100) * 86400 + ((tm.year + 299) / 400) * 86400
  {
    DaysInClosedForm(tm.year + TM_YEAR_BASE);
  }

  /** The division truncates: the remainder is smaller than the divisor and has the sign of the dividend. */
  lemma QuotientTruncates(a: int, b: int)
    requires b > 0
    ensures var r := a - Quotient(a, b) * b; -b < r < b && (a >= 0 ==> r >= 0) && (a <= 0 ==> r <= 0)
  {
    var q := Quotient(a, b);
    if a >= 0 {
      DivBounds(a, b);
    } else {
      DivBounds(-a, b);
      assert q * b == -((-a) / b * b);
    }
  }

  lemma MonthTables(y: int, m: int)
    requires 0 <= m <= 12
    ensures MonthStart(y, m) == if IsLeap(y) then DAYS_TO_MONTH_LEAP[m] else DAYS_TO_MONTH[m]
  {
    if m > 0 {
      MonthTables(y, m - 1);
    }
  }

  // ----- mktime

  /** mktime is the exact count for years from 1970 precisely up to 2100. */
  method Mktime(tm: Tm) returns (t: int)
    requires 0 <= tm.mon < 12
    ensures t == Seconds(tm)
    ensures var y := tm.year + TM_YEAR_BASE;
            y >= EPOCH_YEAR ==>
              (t == SecondCount(y, tm.mon, tm.mday, tm.hour, tm.min, tm.sec) <==> y <= 2100)
  {
    var days := 365 * (tm.year - BASE_TO_EPOCH_YEAR);
    days := days + LeapYearsFromEpoch(tm.year + TM_YEAR_BASE);
    MonthTables(tm.year + TM_YEAR_BASE, tm.mon);
    if IsLeap(tm.year + TM_YEAR_BASE) {
      days := days + DAYS_TO_MONTH_LEAP[tm.mon];
    } else {
      days := days + DAYS_TO_MONTH[tm.mon];
    }
    days := days + tm.mday - 1;
    if tm.year + TM_YEAR_BASE >= EPOCH_YEAR {
      LeapCount(tm.year + TM_YEAR_BASE);
    }
    return days * SECSPERDAY + tm.hour * SECSPERHOUR + tm.min * SECSPERMIN + tm.sec;
  }

  /** mktime's value, for any year. */
  function Seconds(tm: Tm): int
    requires 0 <= tm.mon < 12
  {
    var y := tm.year + TM_YEAR_BASE;
    (365 * (y - EPOCH_YEAR) + LeapYearsFromEpoch(y) + MonthStart(y, tm.mon) + tm.mday - 1) * SECSPERDAY
    + tm.hour * SECSPERHOUR + tm.min * SECSPERMIN + tm.sec
  }

  // ----- localtime_r

  /** Every field is in its range, and month and day of the month agree with the day of the year. */
  ghost predicate ValidFields(tm: Tm) {
    var y := tm.year + TM_YEAR_BASE;
    && 0 <= tm.sec < 60 && 0 <= tm.min < 60 && 0 <= tm.hour < 24
    && 0 <= tm.mon < 12 && 1 <= tm.mday <= MonthLength(y, tm.mon)
    && 0 <= tm.wday < 7 && 0 <= tm.yday < YearLength(y)
    && tm.yday == MonthStart(y, tm.mon) + tm.mday - 1
  }

  /** tm is the date and time of day t seconds after the epoch. */
  ghost predicate IsDateOf(tm: Tm, t: nat) {
    var days := t / SECSPERDAY;
    && ValidFields(tm)
    && tm.year + TM_YEAR_BASE == YearOf(days) && tm.yday == days - DaysBefore(YearOf(days))
    && tm.hour * SECSPERHOUR + tm.min * SECSPERMIN + tm.sec == t % SECSPERDAY
    && tm.wday == (days + EPOCH_WDAY) % DAYSPERWEEK
  }

  /** The day is the 366th of its year. */
  ghost predicate LastOfLeapYear(days: nat) {
    days - DaysBefore(YearOf(days)) == 365
  }

  /** The two estimates of the year, and the day of the year taken from the second. */
  function Estimate(days: nat): (int, int) {
    var y1 := days / DAYSPERNYEAR;
    var y2 := (days - LeapYearsFromEpoch(y1 + EPOCH_YEAR)) / DAYSPERNYEAR;
    (y2, (days - LeapYearsFromEpoch(y2 + EPOCH_YEAR)) % DAYSPERNYEAR)
  }

  /** The second estimate is the year; the day is right unless it is the 366th, which becomes the first. */
  lemma EstimateExact(days: nat)
    requires YearOf(days) <= 2100
    ensures var (y, d) := Estimate(days);
            y + EPOCH_YEAR == YearOf(days) && d == if LastOfLeapYear(days) then 0 else days - DaysBefore(YearOf(days))
  {
    hide LeapYearsFromEpoch, IsLeap, YearOf;
    var Y := YearOf(days);
    LeapCount(Y);
    FourthYears(Y);
    Centuries(Y);
    var k, d, n := Y - EPOCH_YEAR, days - DaysBefore(Y), LeapYearsFromEpoch(Y);
    if n + d < 365 {
      ModuloIs(days, 365, k, n + d);
      ModuloIs(days - n, 365, k, d);
    } else {
      var n' := LeapYearsFromEpoch(Y + 1);
      ModuloIs(days, 365, k + 1, n + d - 365);
      ModuloIs(days - n', 365, k, d - (n' - n));
      if d == 365 {
        ModuloIs(days - n, 365, k + 1, 0);
      } else {
        ModuloIs(days - n, 365, k, d);
      }
    }
  }

  /** After 2100 the date is never right. */
  lemma EstimateWrong(days: nat)
    requires YearOf(days) > 2100
    ensures var (y, d) := Estimate(days);
            y + EPOCH_YEAR != YearOf(days) || d != days - DaysBefore(YearOf(days))
  {
    var Y := YearOf(days);
    LeapCount(Y);
    var k, d := Y - EPOCH_YEAR, days - DaysBefore(Y);
    assert days >= 365 * k by {
      AtLeast365(Y);
    }
    var y1 := days / DAYSPERNYEAR;
    assert y1 >= k;
    assert LeapYearsFromEpoch(y1 + EPOCH_YEAR) >= LeapYearsFromEpoch(Y);
  }

  lemma {:induction false} AtLeast365(y: int)
    requires y >= EPOCH_YEAR
    ensures DaysBefore(y) >= 365 * (y - EPOCH_YEAR)
    decreases y
  {
    if y > EPOCH_YEAR {
      AtLeast365(y - 1);
    }
  }

  lemma EstimateInRange(days: nat)
    ensures var y1 := days / DAYSPERNYEAR;
            var rest := days - LeapYearsFromEpoch(y1 + EPOCH_YEAR);
            rest >= 0 && days - LeapYearsFromEpoch(rest / DAYSPERNYEAR + EPOCH_YEAR) >= 0
  {
  }

  lemma TimeOfDay(t: nat)
    ensures var hour, min, sec := t % SECSPERDAY / SECSPERHOUR, t % SECSPERHOUR / SECSPERMIN, t % SECSPERMIN;
            && 0 <= hour < 24 && 0 <= min < 60 && 0 <= sec < 60
            && hour * SECSPERHOUR + min * SECSPERMIN + sec == t % SECSPERDAY
  {
    var D, s := t / SECSPERDAY, t % SECSPERDAY;
    var hour, r := s / SECSPERHOUR, s % SECSPERHOUR;
    ModuloIs(t, SECSPERHOUR, 24 * D + hour, r);
    ModuloIs(t, SECSPERMIN, 1440 * D + 60 * hour + r / SECSPERMIN, r % SECSPERMIN);
  }

  // A day is in one year only.
  lemma {:induction false} YearsDisjoint(days: int, y: int, z: int)
    requires InYear(days, y) && EPOCH_YEAR <= z < y
    ensures DaysBefore(z) + YearLength(z) <= DaysBefore(y)
    decreases y
  {
    if z < y - 1 {
      YearsDisjoint(DaysBefore(y - 1), y - 1, z);
    }
  }

  lemma OneYear(days: nat, y: int)
    requires InYear(days, y)
    ensures y == YearOf(days)
  {
    var z := YearOf(days);
    if z < y {
      YearsDisjoint(days, y, z);
    } else if y < z {
      YearsDisjoint(days, z, y);
    }
  }

  lemma {:induction false} MonthsIncrease(y: int, m: int, n: int)
    requires 0 <= m < n <= 12
    ensures MonthStart(y, m) + MonthLength(y, m) <= MonthStart(y, n)
    decreases n
  {
    if m < n - 1 {
      MonthsIncrease(y, m, n - 1);
    }
  }

  /** For fields in their ranges, being the date of t and counting t seconds are the same. */
  lemma DateIffCount(tm: Tm, t: nat)
    requires ValidFields(tm) && tm.year + TM_YEAR_BASE >= EPOCH_YEAR
    ensures IsDateOf(tm, t) <==>
              && SecondCount(tm.year + TM_YEAR_BASE, tm.mon, tm.mday, tm.hour, tm.min, tm.sec) == t
              && tm.wday == (t / SECSPERDAY + EPOCH_WDAY) % DAYSPERWEEK
  {
    var y := tm.year + TM_YEAR_BASE;
    var days, rest := DaysBefore(y) + tm.yday, tm.hour * SECSPERHOUR + tm.min * SECSPERMIN + tm.sec;
    assert SecondCount(y, tm.mon, tm.mday, tm.hour, tm.min, tm.sec) == days * SECSPERDAY + rest;
    assert 0 <= rest < SECSPERDAY;
    if days * SECSPERDAY + rest == t {
      assert t / SECSPERDAY == days && t % SECSPERDAY == rest;
      OneYear(days, y);
    }
  }

  /** A moment has one date only. */
  lemma DateUnique(a: Tm, b: Tm, t: nat)
    requires IsDateOf(a, t) && IsDateOf(b, t)
    ensures a == b
  {
    var y := a.year + TM_YEAR_BASE;
    if a.mon < b.mon {
      MonthsIncrease(y, a.mon, b.mon);
    } else if b.mon < a.mon {
      MonthsIncrease(y, b.mon, a.mon);
    }
  }

  // What localtime_r has made of its estimate.
  lemma DateFromEstimate(t: nat, tm: Tm)
    requires ValidFields(tm) && tm.wday == (t / SECSPERDAY + EPOCH_WDAY) % DAYSPERWEEK
    requires tm.hour * SECSPERHOUR + tm.min * SECSPERMIN + tm.sec == t % SECSPERDAY
    requires (tm.year - BASE_TO_EPOCH_YEAR, tm.yday) == Estimate(t / SECSPERDAY)
    ensures IsDateOf(tm, t) <==> YearOf(t / SECSPERDAY) <= 2100 && !LastOfLeapYear(t / SECSPERDAY)
    ensures YearOf(t / SECSPERDAY) <= 2100 ==> (Seconds(tm) == t <==> !LastOfLeapYear(t / SECSPERDAY))
    ensures YearOf(t / SECSPERDAY) <= 2100 && LastOfLeapYear(t / SECSPERDAY) ==>
              tm.year + TM_YEAR_BASE == YearOf(t / SECSPERDAY) && tm.mon == 0 && tm.mday == 1
  {
    hide Estimate, LeapYearsFromEpoch, IsLeap, YearOf;
    var days := t / SECSPERDAY;
    if YearOf(days) > 2100 {
      EstimateWrong(days);
    } else {
      EstimateExact(days);
      LeapCount(YearOf(days));
      if LastOfLeapYear(days) && tm.mon > 0 {
        MonthsIncrease(YearOf(days), 0, tm.mon);
      }
    }
  }

  /** 12:34:56 on Tuesday, 29 February 2000. */
  lemma KnownDate()
    ensures IsDateOf(Tm(56, 34, 12, 29, 1, 100, 2, 59), 951827696)
  {
    var tm := Tm(56, 34, 12, 29, 1, 100, 2, 59);
    DaysInClosedForm(2000);
    assert DaysBefore(2000) == 10957 && IsLeap(2000) && MonthStart(2000, 1) == 31;
    hide DaysBefore, MonthStart, IsLeap, LeapDays, YearOf;
    OneYear(11016, 2000);
  }

  /** The first day after 2100 comes out as 1 January 2100. */
  lemma FirstWrongDay()
    ensures YearOf(47847) == 2101 && Estimate(47847) == (130, 0)
  {
    LeapCount(2100);
    OneYear(47847, 2101);
  }

  /** The month search. */
  method FindMonth(table: seq<int>, yday: int) returns (m: int)
    requires |table| == 13 && table[0] <= yday < table[12]
    ensures 1 <= m <= 12 && table[m - 1] <= yday < table[m]
  {
    m := 0;
    while table[m] <= yday
      invariant 0 <= m <= 12
      invariant forall j :: 0 <= j < m ==> table[j] <= yday
      decreases 12 - m
    {
      m := m + 1;
    }
  }

  /**
   localtime_r: the date is right exactly up to the year 2100 and on every day but the 366th of a leap
   year, which comes out as 1 January of the same year; mktime takes every right date back to t.
   */
  method LocaltimeR(t: nat) returns (tm: Tm)
    ensures ValidFields(tm)
    ensures IsDateOf(tm, t) <==> YearOf(t / SECSPERDAY) <= 2100 && !LastOfLeapYear(t / SECSPERDAY)
    ensures YearOf(t / SECSPERDAY) <= 2100 ==> (Seconds(tm) == t <==> !LastOfLeapYear(t / SECSPERDAY))
    ensures YearOf(t / SECSPERDAY) <= 2100 && LastOfLeapYear(t / SECSPERDAY) ==>
              tm.year + TM_YEAR_BASE == YearOf(t / SECSPERDAY) && tm.mon == 0 && tm.mday == 1
  {
    hide YearOf, ValidFields, IsDateOf, LastOfLeapYear, IsLeap, LeapYearsFromEpoch, Seconds, DaysBefore;
    var days := t / SECSPERDAY;
    var hour := t % SECSPERDAY / SECSPERHOUR;
    var min := t % SECSPERHOUR / SECSPERMIN;
    var sec := t % SECSPERMIN;
    var wday := (days + EPOCH_WDAY) % DAYSPERWEEK;
    var year := days / DAYSPERNYEAR;
    year := Quotient(days - LeapYearsFromEpoch(year + EPOCH_YEAR), DAYSPERNYEAR);
    EstimateInRange(days);
    var mday := (days - LeapYearsFromEpoch(year + EPOCH_YEAR)) % DAYSPERNYEAR;
    year := year + BASE_TO_EPOCH_YEAR;
    var m;
    if IsLeap(year + TM_YEAR_BASE) {
      m := FindMonth(DAYS_TO_MONTH_LEAP, mday);
      tm := Tm(sec, min, hour, mday - DAYS_TO_MONTH_LEAP[m - 1] + 1, m - 1, year, wday, mday);
    } else {
      m := FindMonth(DAYS_TO_MONTH, mday);
      tm := Tm(sec, min, hour, mday - DAYS_TO_MONTH[m - 1] + 1, m - 1, year, wday, mday);
    }
    TimeOfDay(t);
    MonthFound(tm, m);
    DateFromEstimate(t, tm);
  }

  // The month search has ended at m.
  lemma MonthFound(tm: Tm, m: int)
    requires 1 <= m <= 12 && tm.mon == m - 1 && 0 <= tm.yday < 365
    requires var table := if IsLeap(tm.year + TM_YEAR_BASE) then DAYS_TO_MONTH_LEAP else DAYS_TO_MONTH;
             table[m - 1] <= tm.yday < table[m] && tm.mday == tm.yday - table[m - 1] + 1
    requires 0 <= tm.sec < 60 && 0 <= tm.min < 60 && 0 <= tm.hour < 24 && 0 <= tm.wday < 7
    ensures ValidFields(tm)
  {
    hide IsLeap;
    MonthTables(tm.year + TM_YEAR_BASE, m - 1);
    MonthTables(tm.year + TM_YEAR_BASE, m);
  }
}
