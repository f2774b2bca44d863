/**
 * Dates, times of day and timestamps as the application uses them.
 *
 * A timestamp is a naive datetime, counted in whole seconds from
 * 0001-01-01 00:00:00 of the proleptic Gregorian calendar (the origin of
 * Python's date ordinals). A date is a valid calendar day in Python's range
 * of years 1..9999; a time of day has Python's four components.
 */
module Calendar {

  type Timestamp = int

  const SecondsPerDay: int := 86400

  type Hour = h: int | 0 <= h < 24
  type Sixty = n: int | 0 <= n < 60
  type Microsecond = n: int | 0 <= n < 1000000

  /** A `datetime.time`: every value of this type is a valid time of day. */
  datatype TimeOfDay = TimeOfDay(hour: Hour, minute: Sixty, second: Sixty, microsecond: Microsecond)

  /** `time(0, 0, 0)` */
  const Midnight: TimeOfDay := TimeOfDay(0, 0, 0, 0)

  predicate IsLeapYear(y: int) {
    y % 4 == 0 && (y % 100 != 0 || y % 400 == 0)
  }

  function DaysInYear(y: int): int {
    if IsLeapYear(y) then 366 else 365
  }

  function DaysInMonth(y: int, m: int): int
    requires 1 <= m <= 12
  {
    if m == 2 then (if IsLeapYear(y) then 29 else 28)
    else if m == 4 || m == 6 || m == 9 || m == 11 then 30
    else 31
  }

  datatype CivilDate = CivilDate(year: int, month: int, day: int)

  predicate ValidDate(d: CivilDate) {
    1 <= d.year <= 9999 && 1 <= d.month <= 12 && 1 <= d.day <= DaysInMonth(d.year, d.month)
  }

  /** A `datetime.date`. */
  type Date = d: CivilDate | ValidDate(d) witness CivilDate(1, 1, 1)

  /** Lexicographic order on (year, month, day): the order of `date` objects. */
  predicate DateBefore(a: Date, b: Date) {
    a.year < b.year
    || (a.year == b.year && a.month < b.month)
    || (a.year == b.year && a.month == b.month && a.day < b.day)
  }

  /** Days in the years 1 .. y-1, by the Gregorian leap rule. */
  function DaysBeforeYear(y: int): int
    requires y >= 1
  {
    var p := y - 1;
    p * 365 + p / 4 - p / 100 + p / 400
  }

  /** Days in the months 1 .. m-1 of year y. */
  function DaysBeforeMonth(y: int, m: int): int
    requires 1 <= m <= 12
  {
    var leap := if IsLeapYear(y) then 1 else 0;
    if m == 1 then 0
    else if m == 2 then 31
    else if m == 3 then 59 + leap
    else if m == 4 then 90 + leap
    else if m == 5 then 120 + leap
    else if m == 6 then 151 + leap
    else if m == 7 then 181 + leap
    else if m == 8 then 212 + leap
    else if m == 9 then 243 + leap
    else if m == 10 then 273 + leap
    else if m == 11 then 304 + leap
    else 334 + leap
  }

  /** Days elapsed from 0001-01-01 to d (Python's `d.toordinal() - 1`). */
  function DayNumber(d: Date): (n: nat)
    ensures DaysBeforeYear(d.year) <= n < DaysBeforeYear(d.year + 1)
  {
    DaysBeforeYearStep(d.year);
    DaysBeforeYearMonotone(1, d.year);
    DaysBeforeMonthStep(d.year, d.month);
    DaysBeforeMonthBound(d.year, d.month);
    DaysBeforeYear(d.year) + DaysBeforeMonth(d.year, d.month) + d.day - 1
  }

  /** `to_datetime(date)`: the datetime at 00:00:00 on that date. */
  function ToDateTime(d: Date): (t: Timestamp)
    ensures t % SecondsPerDay == 0
    ensures DaysBeforeYear(d.year) * SecondsPerDay <= t < DaysBeforeYear(d.year + 1) * SecondsPerDay
  {
    DayNumber(d) * SecondsPerDay
  }

  /** Whether a multiple of k lies between p and p + 1, for the leap rule's divisors. */
  lemma DivStep(p: int)
    requires p >= 0
    ensures (p + 1) / 4 - p / 4 == if (p + 1) % 4 == 0 then 1 else 0
    ensures (p + 1) / 100 - p / 100 == if (p + 1) % 100 == 0 then 1 else 0
    ensures (p + 1) / 400 - p / 400 == if (p + 1) % 400 == 0 then 1 else 0
  {
  }

  /** Consecutive years are one year length apart. */
  lemma DaysBeforeYearStep(y: int)
    requires y >= 1
    ensures DaysBeforeYear(y + 1) == DaysBeforeYear(y) + DaysInYear(y)
  {
    DivStep(y - 1);
    var a := if y % 4 == 0 then 1 else 0;
    var b := if y % 100 == 0 then 1 else 0;
    var c := if y % 400 == 0 then 1 else 0;
    DivisorsNest(y);
    assert DaysBeforeYear(y + 1) == DaysBeforeYear(y) + 365 + a - b + c;
  }

  lemma DivisorsNest(y: int)
    ensures y % 100 == 0 ==> y % 4 == 0
    ensures y % 400 == 0 ==> y % 100 == 0
  {
    if y % 100 == 0 {
      var m := 25 * (y / 100);
      assert y == 4 * m;
    }
    if y % 400 == 0 {
      var m := 4 * (y / 400);
      assert y == 100 * m;
    }
  }

  lemma {:induction false} DaysBeforeYearMonotone(y1: int, y2: int)
    requires 1 <= y1 <= y2
    ensures DaysBeforeYear(y1) + 365 * (y2 - y1) <= DaysBeforeYear(y2)
    decreases y2 - y1
  {
    if y1 < y2 {
      DaysBeforeYearStep(y1);
      DaysBeforeYearMonotone(y1 + 1, y2);
    }
  }

  lemma DaysBeforeMonthStep(y: int, m: int)
    requires 1 <= m <= 12
    ensures m < 12 ==> DaysBeforeMonth(y, m + 1) == DaysBeforeMonth(y, m) + DaysInMonth(y, m)
    ensures m == 12 ==> DaysBeforeMonth(y, m) + DaysInMonth(y, m) == DaysInYear(y)
  {
  }

  lemma DaysBeforeMonthBound(y: int, m: int)
    requires 1 <= m <= 12
    ensures 0 <= DaysBeforeMonth(y, m) && DaysBeforeMonth(y, m) + DaysInMonth(y, m) <= DaysInYear(y)
  {
  }

  lemma DaysBeforeMonthMonotone(y: int, m1: int, m2: int)
    requires 1 <= m1 < m2 <= 12
    ensures DaysBeforeMonth(y, m1) + DaysInMonth(y, m1) <= DaysBeforeMonth(y, m2)
  {
  }

  /** Day numbers follow the calendar order of dates: earlier dates have smaller numbers. */
  lemma DayNumberMonotone(a: Date, b: Date)
    requires DateBefore(a, b)
    ensures DayNumber(a) < DayNumber(b)
  {
    if a.year < b.year {
      DaysBeforeYearMonotone(a.year + 1, b.year);
    } else if a.month < b.month {
      DaysBeforeMonthMonotone(a.year, a.month, b.month);
    }
  }

  /**
   * `to_datetime` keeps the year, month and day: two dates give the same
   * timestamp only when they are the same date, and the timestamps are in
   * calendar order.
   */
  lemma ToDateTimeOrder(a: Date, b: Date)
    ensures ToDateTime(a) < ToDateTime(b) <==> DateBefore(a, b)
    ensures ToDateTime(a) == ToDateTime(b) <==> a == b
  {
    if DateBefore(a, b) {
      DayNumberMonotone(a, b);
    } else if DateBefore(b, a) {
      DayNumberMonotone(b, a);
    } else {
      assert a == b;
    }
  }

  /** `d + timedelta(days=1)`, defined below Python's largest date 9999-12-31. */
  function NextDay(d: Date): (e: Date)
    requires d.year < 9999 || d.month < 12 || d.day < 31
    ensures DateBefore(d, e)
  {
    if d.day < DaysInMonth(d.year, d.month) then CivilDate(d.year, d.month, d.day + 1)
    else if d.month < 12 then CivilDate(d.year, d.month + 1, 1)
    else CivilDate(d.year + 1, 1, 1)
  }

  /**
   * Consecutive dates have consecutive day numbers, and the next day is the
   * only date numbered one past d.
   */
  lemma NextDayNumber(d: Date, e: Date)
    requires d.year < 9999 || d.month < 12 || d.day < 31
    ensures DayNumber(NextDay(d)) == DayNumber(d) + 1
    ensures DayNumber(e) == DayNumber(d) + 1 <==> e == NextDay(d)
  {
    DaysBeforeMonthStep(d.year, d.month);
    DaysBeforeYearStep(d.year);
    ToDateTimeOrder(e, NextDay(d));
  }
}
