/**
 Date (nre/include/util/Date.h): seconds since 1970 to a calendar date and back, against a
 calendar that counts days one year and one month at a time.
 */
module Date {
  import opened Bits

  // ---------------------------------------------------------------- the calendar

  /** The date fields; a month or day starts at 1, a weekday at 0 for Sunday. */
  datatype DateInfo = DateInfo(sec: int, min: int, hour: int, mday: int, mon: int, year: int, wday: int, yday: int)

  predicate LeapYear(year: int) {
    year % 4 == 0 && (year % 100 != 0 || year % 400 == 0)
  }

  function YearLength(year: int): (r: nat) {
    if LeapYear(year) then 366 else 365
  }

  function MonthLength(leap: bool, mon: int): (r: nat) {
    if mon == 2 then (if leap then 29 else 28)
    else if mon == 4 || mon == 6 || mon == 9 || mon == 11 then 30
    else 31
  }

  /** The days from 1 January of year 1 to 1 January of `year`. */
  function DaysBeforeYear(year: int): (r: nat)
    requires year >= 1
  {
    if year == 1 then 0 else DaysBeforeYear(year - 1) + YearLength(year - 1)
  }

  function DaysBeforeMonth(leap: bool, mon: int): (r: nat)
    requires 1 <= mon <= 12
  {
    if mon == 1 then 0 else DaysBeforeMonth(leap, mon - 1) + MonthLength(leap, mon - 1)
  }

  /** Day 0, 1 January of year 1, was a Monday. */
  function Weekday(day: nat): (r: nat) {
    if day == 0 then 1 else (Weekday(day - 1) + 1) % 7
  }

  predicate ValidDay(d: DateInfo) {
    1 <= d.year && 1 <= d.mon <= 12 && 1 <= d.mday <= MonthLength(LeapYear(d.year), d.mon)
  }

  predicate ValidDate(d: DateInfo) {
    ValidDay(d) && 0 <= d.hour < 24 && 0 <= d.min < 60 && 0 <= d.sec < 60
  }

  function DayOfYear(d: DateInfo): (r: int)
    requires ValidDay(d)
  {
    DaysBeforeMonth(LeapYear(d.year), d.mon) + d.mday
  }

  function DayNumber(d: DateInfo): (r: int)
    requires ValidDay(d)
  {
    DaysBeforeYear(d.year) + DayOfYear(d) - 1
  }

  /** The seconds since the start of year 1. */
  function Seconds(d: DateInfo): (r: int)
    requires ValidDate(d)
  {
    ((DayNumber(d) * 24 + d.hour) * 60 + d.min) * 60 + d.sec
  }

  /** The same time of the same day. */
  predicate SameTime(d: DateInfo, e: DateInfo) {
    && d.sec == e.sec && d.min == e.min && d.hour == e.hour
    && d.mday == e.mday && d.mon == e.mon && d.year == e.year
  }

  // ---------------------------------------------------------------- facts about the calendar

  lemma {:induction false} DivStep(x: int, d: int)
    requires x >= 1 && d >= 1
    ensures x / d == (x - 1) / d + (if x % d == 0 then 1 else 0)
  {
    var q, r := (x - 1) / d, (x - 1) % d;
    assert x - 1 == q * d + r;
    if r == d - 1 {
      assert x == (q + 1) * d;
      DivModUnique(x, d, q + 1, 0);
    } else {
      DivModUnique(x, d, q, r + 1);
    }
  }

  lemma {:induction false} YearsClosed(year: int)
    requires year >= 1
    ensures var y := year - 1; DaysBeforeYear(year) == y * 365 + y / 4 - y / 100 + y / 400
  {
    if year > 1 {
      YearsClosed(year - 1);
      var y := year - 1;
      LeapDay(y);
      hide LeapYear;
    }
  }

  lemma {:induction false} Centuries(y: int)
    ensures y % 400 == 0 ==> y % 100 == 0
    ensures y % 100 == 0 ==> y % 4 == 0
  {}

  lemma {:induction false} MonthsClosed(leap: bool, mon: int)
    requires 1 <= mon <= 12
    ensures DaysBeforeMonth(leap, mon)
         == (mon + 10) * 367 / 12 - 338 + (if mon < 3 then 2 else if leap then 1 else 0)
  {
    if mon > 1 {
      MonthsClosed(leap, mon - 1);
      MonthStep(leap, mon);
      hide MonthLength;
    }
  }

  lemma {:induction false} MonthStep(leap: bool, mon: int)
    requires 2 <= mon <= 12
    ensures MonthLength(leap, mon - 1) == (mon + 10) * 367 / 12 - (mon + 9) * 367 / 12
                                          + (if mon == 3 then (if leap then 1 else 0) - 2 else 0)
  {}

  lemma {:induction false} YearsGrow(a: int, b: int)
    requires 1 <= a < b
    ensures DaysBeforeYear(a) + YearLength(a) <= DaysBeforeYear(b)
  {
    if a + 1 < b {
      YearsGrow(a, b - 1);
    }
  }

  lemma {:induction false} MonthsGrow(leap: bool, a: int, b: int)
    requires 1 <= a < b <= 12
    ensures DaysBeforeMonth(leap, a) + MonthLength(leap, a) <= DaysBeforeMonth(leap, b)
  {
    if a + 1 < b {
      MonthsGrow(leap, a, b - 1);
    }
  }

  lemma {:induction false} MonthInYear(leap: bool, mon: int)
    requires 1 <= mon <= 12
    ensures DaysBeforeMonth(leap, mon) + MonthLength(leap, mon) <= if leap then 366 else 365
  {
    MonthsClosed(leap, mon);
  }

  /** A day has one date. */
  lemma {:induction false} DayIsUnique(d: DateInfo, e: DateInfo)
    requires ValidDay(d) && ValidDay(e) && DayNumber(d) == DayNumber(e)
    ensures d.year == e.year && d.mon == e.mon && d.mday == e.mday
  {
    MonthInYear(LeapYear(d.year), d.mon);
    MonthInYear(LeapYear(e.year), e.mon);
    if d.year < e.year {
      YearsGrow(d.year, e.year);
    } else if e.year < d.year {
      YearsGrow(e.year, d.year);
    } else if d.mon < e.mon {
      MonthsGrow(LeapYear(d.year), d.mon, e.mon);
    } else if e.mon < d.mon {
      MonthsGrow(LeapYear(d.year), e.mon, d.mon);
    }
  }

  lemma {:induction false} SecondIsUnique(d: DateInfo, e: DateInfo)
    requires ValidDate(d) && ValidDate(e) && Seconds(d) == Seconds(e)
    ensures SameTime(d, e)
  {
    hide DayNumber;
    DayIsUnique(d, e);
  }

  lemma {:induction false} WeekStep(day: nat)
    ensures (day % 7 + 1) % 7 == (day + 1) % 7
  {}

  lemma {:induction false} WeekdayClosed(day: nat)
    ensures Weekday(day) == (day + 1) % 7
  {
    if day > 0 {
      WeekdayClosed(day - 1);
      WeekStep(day);
    }
  }

  // ---------------------------------------------------------------- mktime

  const INT_LIMIT: int := 0x8000_0000
  /** The last year whose days fit an int. */
  const MAX_YEAR: int := 5883516
  /** The seconds from year 1 to 1970. */
  const EPOCH: int := 719162 * 86400

  function Wrap(x: int): (r: int) {
    x % U64
  }

  /** Division as in C, towards zero. */
  function TruncDiv(x: int, d: int): (r: int)
    requires d > 0
  {
    if x >= 0 then x / d else -((-x) / d)
  }

  predicate IsLeap(year: int) {
    (year % 4 == 0 && year % 100 != 0) || year % 400 == 0
  }

  function ToInt(b: bool): (r: int) {
    if b then 1 else 0
  }

  function IntDays(d: DateInfo): (r: int) {
    TruncDiv((d.mon + 10) * 367, 12) + 2 * ToInt(d.mon < 3) - 719866 + d.mday
    - ToInt(d.mon < 3) * ToInt(IsLeap(d.year)) + d.year * 365
  }

  /** The int arithmetic of mktime does not overflow. */
  predicate Computable(d: DateInfo) {
    -INT_LIMIT <= d.year * 365 < INT_LIMIT && -INT_LIMIT <= IntDays(d) < INT_LIMIT
  }

  /** mktime: int arithmetic up to the days, then unsigned 64-bit arithmetic. */
  function MkTime(d: DateInfo): (r: int)
    requires Computable(d)
  {
    var days := Wrap(IntDays(d));
    var days' := Wrap(days + Wrap(TruncDiv(d.year, 4) - TruncDiv(d.year, 100) + TruncDiv(d.year, 400)));
    Wrap(((days' * 24 + d.hour) * 60 + d.min) * 60 + d.sec)
  }

  lemma {:induction false} WrapSteps(days: int, leaps: int, days': int, d: DateInfo)
    requires days' == Wrap(Wrap(days) + Wrap(leaps))
    ensures Wrap(((days' * 24 + d.hour) * 60 + d.min) * 60 + d.sec)
         == Wrap((((days + leaps) * 24 + d.hour) * 60 + d.min) * 60 + d.sec)
  {
    var k := (days + leaps - days') / U64;
    assert days + leaps == days' + k * U64 by {
      var q := days / U64 + leaps / U64;
      assert days + leaps == Wrap(days) + Wrap(leaps) + q * U64;
    }
    var x := ((days' * 24 + d.hour) * 60 + d.min) * 60 + d.sec;
    var y := (((days + leaps) * 24 + d.hour) * 60 + d.min) * 60 + d.sec;
    assert y == x + (k * 86400) * U64;
    DivModUnique(y, U64, x / U64 + k * 86400, x % U64);
  }

  /** The day formula of mktime counts the days since 1970. */
  lemma {:induction false} IntDaysCount(d: DateInfo)
    requires ValidDay(d)
    ensures IntDays(d) + d.year / 4 - d.year / 100 + d.year / 400 == DayNumber(d) - 719162
    ensures IsLeap(d.year) == LeapYear(d.year)
  {
    hide DaysBeforeYear, DaysBeforeMonth, MonthLength;
    YearsClosed(d.year);
    LeapDay(d.year);
    MonthsClosed(LeapYear(d.year), d.mon);
    hide LeapYear, IsLeap;
  }

  /** The years divisible by 4, less those by 100, plus those by 400, up to and including a leap year. */
  lemma {:induction false} LeapDay(year: int)
    requires year >= 1
    ensures var y := year - 1;
            year / 4 - year / 100 + year / 400 == y / 4 - y / 100 + y / 400 + (if LeapYear(year) then 1 else 0)
    ensures IsLeap(year) == LeapYear(year)
  {
    DivStep(year, 4);
    DivStep(year, 100);
    DivStep(year, 400);
    Centuries(year);
  }

  lemma {:induction false} MkFits(d: DateInfo)
    requires ValidDay(d) && d.year <= MAX_YEAR
    ensures Computable(d)
  {}

  /** mktime computes the seconds since 1970, as an unsigned number before it. */
  lemma {:induction false} MkTimeCounts(d: DateInfo)
    requires ValidDate(d) && d.year <= MAX_YEAR
    ensures Computable(d)
    ensures MkTime(d) == Wrap(Seconds(d) - EPOCH)
  {
    hide DayNumber, IntDays, Wrap, Computable, LeapYear, IsLeap, MonthLength;
    MkFits(d);
    IntDaysCount(d);
    var leaps := d.year / 4 - d.year / 100 + d.year / 400;
    var days' := Wrap(Wrap(IntDays(d)) + Wrap(leaps));
    WrapSteps(IntDays(d), leaps, days', d);
    assert Seconds(d) - EPOCH == (((DayNumber(d) - 719162) * 24 + d.hour) * 60 + d.min) * 60 + d.sec;
  }

  lemma {:induction false} WrapCancels(s: int, t: int)
    requires 0 <= s < U64
    ensures Wrap(t - EPOCH) == s ==> Wrap(s + EPOCH) == Wrap(t)
    ensures t == Wrap(s + EPOCH) ==> Wrap(t - EPOCH) == s
  {}

  /** mktime takes a date back to the seconds gmtime made it from. */
  lemma {:induction false} MkTimeInverts(d: DateInfo, seconds: int)
    requires ValidDate(d) && d.year <= MAX_YEAR && 0 <= seconds < U64 && Seconds(d) == Wrap(seconds + EPOCH)
    ensures Computable(d)
    ensures MkTime(d) == seconds
  {
    MkTimeCounts(d);
    WrapCancels(seconds, Seconds(d));
    hide *;
  }

  // ---------------------------------------------------------------- gmtime

  const LEAP: seq<nat> := [0, 31, 60, 91, 121, 152, 182, 213, 244, 274, 305, 335, 366]
  const NO_LEAP: seq<nat> := [0, 31, 59, 90, 120, 151, 181, 212, 243, 273, 304, 334, 365]
  /** The days before the first year that is no int. */
  const INT_YEARS: int := 784352295939

  function Table(leap: bool): (r: seq<nat>) {
    if leap then LEAP else NO_LEAP
  }

  lemma {:induction false} TableIs(leap: bool, m: int)
    requires 0 <= m < 12
    ensures |Table(leap)| == 13
    ensures Table(leap)[m] == DaysBeforeMonth(leap, m + 1)
    ensures Table(leap)[m + 1] - Table(leap)[m] == MonthLength(leap, m + 1)
  {
    MonthsClosed(leap, m + 1);
    hide DaysBeforeMonth;
  }

  /** The estimate of the month is at most one too low. */
  lemma {:induction false} MonthEstimate(leap: bool, days: int)
    requires 0 <= days < if leap then 366 else 365
    ensures |Table(leap)| == 13 && 0 <= days / 31 < 12 && Table(leap)[days / 31] <= days
    ensures days >= Table(leap)[days / 31 + 1] ==> days / 31 < 11 && days < Table(leap)[days / 31 + 2]
  {
    var m := days / 31;
    assert 31 * m <= days < 31 * m + 31;
  }

  /** The years of 400, 100, 4 and 1 make up the year, and `r` is the day in it. */
  lemma {:induction false} YearParts(a: int, b: int, c: int, e: int, r: int)
    requires 0 <= a && 0 <= b <= 3 && 0 <= c <= 24 && 0 <= e <= 3
    requires 0 <= r < 365 || (r == 365 && e == 3 && (c < 24 || b == 3))
    ensures var year := 400 * a + 100 * b + 4 * c + e + 1;
            && DaysBeforeYear(year) == 146097 * a + 36524 * b + 1461 * c + 365 * e && r < YearLength(year)
  {
    var y := 400 * a + 100 * b + 4 * c + e;
    YearsClosed(y + 1);
    DivModUnique(y, 4, 100 * a + 25 * b + c, e);
    DivModUnique(y, 100, 4 * a + b, 4 * c + e);
    DivModUnique(y, 400, a, 100 * b + 4 * c + e);
    hide DaysBeforeYear;
    if r == 365 {
      LastYear(a, b, c);
    }
  }

  lemma {:induction false} LastYear(a: int, b: int, c: int)
    requires 0 <= a && 0 <= b <= 3 && 0 <= c <= 24 && (c < 24 || b == 3)
    ensures LeapYear(400 * a + 100 * b + 4 * c + 4)
  {
    var y := 400 * a + 100 * b + 4 * c + 4;
    DivModUnique(y, 4, 100 * a + 25 * b + c + 1, 0);
    if c < 24 {
      DivModUnique(y, 100, 4 * a + b, 4 * c + 4);
    } else {
      DivModUnique(y, 400, a + 1, 0);
    }
  }

  /** The divisions of gmtime, with the corrections for the last day of 400 and of 4 years. */
  method SplitYears(day: nat) returns (years400: nat, years100: nat, years4: nat, years: nat, days: nat)
    ensures years100 <= 3 && years4 <= 24 && years <= 3
    ensures day == 146097 * years400 + 36524 * years100 + 1461 * years4 + 365 * years + days
    ensures days < 365 || (days == 365 && years == 3 && (years4 < 24 || years100 == 3))
  {
    years400, days := day / 146097, day % 146097;
    years100, days := days / 36524, days % 36524;
    if years100 == 4 {
      years100, days := years100 - 1, days + 36524;
    }
    years4, days := days / 1461, days % 1461;
    years, days := days / 365, days % 365;
    if years == 4 {
      years, days := years - 1, days + 365;
    }
  }

  lemma {:induction false} TableBounds(leap: bool, day: nat)
    requires day <= 365
    ensures |Table(leap)| == 13 && 0 <= day / 31 < 12
    ensures Table(leap)[day / 31] <= Table(leap)[day / 31 + 1] && Table(leap)[day / 31] <= day
  {
    var m := day / 31;
    assert 31 * m <= day < 31 * m + 31;
  }

  /** Month and day of a day of the year (from 0). */
  method MonthOf(leap: bool, day: nat) returns (mon: int, mday: int)
    requires day <= 365
    ensures day < (if leap then 366 else 365) ==>
              && 1 <= mon <= 12 && 1 <= mday <= MonthLength(leap, mon)
              && DaysBeforeMonth(leap, mon) + mday == day + 1
  {
    hide DaysBeforeMonth, MonthLength, Table;
    var l := Table(leap);
    var m, days := day / 31, day;
    TableBounds(leap, day);
    if day < if leap then 366 else 365 {
      MonthEstimate(leap, day);
      TableIs(leap, m);
      if day >= l[m + 1] {
        TableIs(leap, m + 1);
      }
    }
    days := days - l[m];
    if days >= l[m + 1] - l[m] {
      days := days - (l[m + 1] - l[m]);
      m := m + 1;
    }
    mon, mday := m + 1, days + 1;
  }

  function SignedInt(x: int): (r: int) {
    var w := x % (2 * INT_LIMIT);
    if w < INT_LIMIT then w else w - 2 * INT_LIMIT
  }

  lemma {:induction false} YearFits(year: int, days: int, limit: int)
    requires year >= 1 && limit == INT_LIMIT && DaysBeforeYear(year) <= days < INT_YEARS
    ensures SignedInt(year) == year
  {
    hide DaysBeforeYear, YearLength;
    LastIntDay(limit);
    if year > limit {
      YearsGrow(limit, year);
    }
  }

  lemma {:induction false} LastIntDay(limit: int)
    requires limit == INT_LIMIT
    ensures DaysBeforeYear(limit) == INT_YEARS
  {
    YearsClosed(limit);
    hide DaysBeforeYear;
  }

  lemma {:induction false} DayBound(d: DateInfo)
    requires ValidDay(d) && d.year <= MAX_YEAR
    ensures 0 <= DayNumber(d) < 366 * MAX_YEAR
  {
    YearsClosed(d.year);
    MonthInYear(LeapYear(d.year), d.mon);
    hide DaysBeforeYear, DaysBeforeMonth, LeapYear, MonthLength;
  }

  lemma {:induction false} TimeBound(day: int, d: DateInfo)
    requires 0 <= day < 366 * MAX_YEAR && 0 <= d.hour < 24 && 0 <= d.min < 60 && 0 <= d.sec < 60
    ensures var s := ((day * 24 + d.hour) * 60 + d.min) * 60 + d.sec;
            0 <= s < U64 && s / 86400 < INT_YEARS
  {}

  /** A date that mktime took from is the one gmtime gives back. */
  lemma {:induction false} GmTimeInverts(d: DateInfo, seconds: int)
    requires ValidDate(d) && d.year <= MAX_YEAR && 0 <= seconds < U64 && Computable(d) && MkTime(d) == seconds
    ensures Seconds(d) == Wrap(seconds + EPOCH) && Seconds(d) / 86400 < INT_YEARS
  {
    hide MkTime, Computable, LeapYear, ValidDay, DayNumber, Wrap;
    MkTimeCounts(d);
    DayBound(d);
    TimeBound(DayNumber(d), d);
    WrapCancels(seconds, Seconds(d));
    WrapFits(Seconds(d));
  }

  lemma {:induction false} WrapFits(s: int)
    requires 0 <= s < U64
    ensures Wrap(s) == s
  {}

  lemma {:induction false} ClockParts(s: nat)
    ensures s / 60 / 60 / 24 == s / 86400
    ensures ((s / 86400 * 24 + s / 60 / 60 % 24) * 60 + s / 60 % 60) * 60 + s % 60 == s
  {}

  /** The day number that was split into years and a day of the year. */
  lemma {:induction false} DayFound(tm: DateInfo, day: nat, a: nat, b: nat, c: nat, e: nat, r: nat)
    requires b <= 3 && c <= 24 && e <= 3 && (r < 365 || (r == 365 && e == 3 && (c < 24 || b == 3)))
    requires day == 146097 * a + 36524 * b + 1461 * c + 365 * e + r < INT_YEARS
    requires tm.year == SignedInt(400 * a + 100 * b + 4 * c + e + 1)
    requires r < (if IsLeap(tm.year) then 366 else 365) ==>
               && 1 <= tm.mon <= 12 && 1 <= tm.mday <= MonthLength(IsLeap(tm.year), tm.mon)
               && DaysBeforeMonth(IsLeap(tm.year), tm.mon) + tm.mday == r + 1
    ensures ValidDay(tm) && DayNumber(tm) == day && DayOfYear(tm) == r + 1
  {
    var year := 400 * a + 100 * b + 4 * c + e + 1;
    YearParts(a, b, c, e, r);
    YearFits(year, day, INT_LIMIT);
    Centuries(year);
    hide DaysBeforeYear, DaysBeforeMonth, SignedInt;
  }

  /** gmtime gives a date of the calendar, and mktime is its inverse. */
  method GmTime(seconds: int) returns (tm: DateInfo)
    requires 0 <= seconds < U64
    ensures var s := Wrap(seconds + EPOCH);
            s / 86400 < INT_YEARS ==>
              && ValidDate(tm) && Seconds(tm) == s
              && tm.wday == Weekday(DayNumber(tm)) && tm.yday == DayOfYear(tm)
              && (tm.year <= MAX_YEAR ==> Computable(tm) && MkTime(tm) == seconds)
    ensures forall d :: ValidDate(d) && d.year <= MAX_YEAR && Computable(d) && MkTime(d) == seconds ==> SameTime(tm, d)
  {
    ghost var s0 := Wrap(seconds + EPOCH);
    ClockParts(s0);
    hide DaysBeforeYear, DaysBeforeMonth, SignedInt, MkTime, Computable, DayOfYear, DayNumber, Weekday, LeapYear, MonthLength;
    var s: nat := Wrap(seconds + EPOCH);
    var sec := s % 60;
    s := s / 60;
    var min := s % 60;
    s := s / 60;
    var hour := s % 24;
    s := s / 24;
    var wday := (s + 1) % 7;
    var years400, years100, years4, years, days := SplitYears(s);
    var year := SignedInt(400 * years400 + 100 * years100 + 4 * years4 + years + 1);
    var mon, mday := MonthOf(IsLeap(year), days);
    tm := DateInfo(sec, min, hour, mday, mon, year, wday, days + 1);
    if s < INT_YEARS {
      DayFound(tm, s, years400, years100, years4, years, days);
      WeekdayClosed(s);
      assert Seconds(tm) == s0;
      if tm.year <= MAX_YEAR {
        MkTimeInverts(tm, seconds);
      }
    }
    forall d | ValidDate(d) && d.year <= MAX_YEAR && Computable(d) && MkTime(d) == seconds ensures SameTime(tm, d) {
      GmTimeInverts(d, seconds);
      SecondIsUnique(tm, d);
    }
  }
}
