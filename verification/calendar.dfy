/** Proleptic Gregorian dates with a pure day-of-week function, standing in
    for the `Date` constructor, `getDay()` and `setDate(getDate() + 1)` that
    js/base/date_picker.js relies on. */
module Calendar {

  /** A calendar date; `month` is 1-based here (the picker keeps it 0-based). */
  datatype Date = Date(year: int, month: int, day: int)

  predicate IsLeap(y: int) {
    y % 4 == 0 && (y % 100 != 0 || y % 400 == 0)
  }

  function DaysInMonth(y: int, m: int): (n: int)
    requires 1 <= m <= 12
    ensures 28 <= n <= 31
  {
    if m == 2 then (if IsLeap(y) then 29 else 28)
    else if m == 4 || m == 6 || m == 9 || m == 11 then 30
    else 31
  }

  predicate Valid(d: Date) {
    1 <= d.month <= 12 && 1 <= d.day <= DaysInMonth(d.year, d.month)
  }

  /** Days from 0001-01-01 to January 1 of year `y`. */
  function DaysBeforeYear(y: int): int {
    var p := y - 1;
    365 * p + p / 4 - p / 100 + p / 400
  }

  /** Days from January 1 to the first of month `m`. */
  function DaysBeforeMonth(y: int, m: int): int
    requires 1 <= m <= 12
  {
    var cumulative := [0, 31, 59, 90, 120, 151, 181, 212, 243, 273, 304, 334];
    cumulative[m - 1] + if m > 2 && IsLeap(y) then 1 else 0
  }

  /** Days from 0001-01-01 to `d`; for a fixed month it is linear in the day. */
  function DayNumber(d: Date): int
    requires 1 <= d.month <= 12
  {
    DaysBeforeYear(d.year) + DaysBeforeMonth(d.year, d.month) + d.day - 1
  }

  /** `getDay()`: 0 = Sunday, ..., 6 = Saturday. 0001-01-01 was a Monday. */
  function Weekday(d: Date): (w: int)
    requires 1 <= d.month <= 12
    ensures 0 <= w < 7
  {
    (DayNumber(d) + 1) % 7
  }

  /** Euclidean division by a constant steps up exactly at multiples. */
  lemma DivStep(y: int)
    ensures y / 4 - (y - 1) / 4 == if y % 4 == 0 then 1 else 0
    ensures y / 100 - (y - 1) / 100 == if y % 100 == 0 then 1 else 0
    ensures y / 400 - (y - 1) / 400 == if y % 400 == 0 then 1 else 0
  {
  }

  /** A year has 366 days when it is a leap year and 365 otherwise. */
  lemma YearLength(y: int)
    ensures DaysBeforeYear(y + 1) - DaysBeforeYear(y) == if IsLeap(y) then 366 else 365
  {
    DivStep(y);
    var a := y / 4 - (y - 1) / 4;
    var b := y / 100 - (y - 1) / 100;
    var c := y / 400 - (y - 1) / 400;
    assert DaysBeforeYear(y + 1) - DaysBeforeYear(y) == 365 + a - b + c;
    if y % 400 == 0 { Mod400(y); }
    if y % 100 == 0 { Mod100(y); }
  }

  lemma Mod400(y: int)
    requires y % 400 == 0
    ensures y % 100 == 0
  {
    assert y == 100 * (4 * (y / 400));
  }

  lemma Mod100(y: int)
    requires y % 100 == 0
    ensures y % 4 == 0
  {
    assert y == 4 * (25 * (y / 100));
  }

  /** The first of the next month follows the last day of this one. */
  lemma MonthStep(y: int, m: int)
    requires 1 <= m < 12
    ensures DaysBeforeMonth(y, m + 1) == DaysBeforeMonth(y, m) + DaysInMonth(y, m)
  {
  }

  /** January 1 follows December 31. */
  lemma YearStep(y: int)
    ensures DaysBeforeYear(y + 1) == DaysBeforeYear(y) + DaysBeforeMonth(y, 12) + 31
  {
    YearLength(y);
  }

  lemma WeekdayStep(n: int)
    ensures (n + 2) % 7 == ((n + 1) % 7 + 1) % 7
  {
  }

  /** `setDate(getDate() + 1)`: the following day, rolling over month and year. */
  function NextDay(d: Date): (r: Date)
    requires Valid(d)
    ensures Valid(r)
    ensures r.day == 1 || (r.year == d.year && r.month == d.month)
  {
    if d.day < DaysInMonth(d.year, d.month) then d.(day := d.day + 1)
    else if d.month < 12 then Date(d.year, d.month + 1, 1)
    else Date(d.year + 1, 1, 1)
  }

  /** The following day is one day number and one weekday later. */
  lemma NextDayFollows(d: Date)
    requires Valid(d)
    ensures DayNumber(NextDay(d)) == DayNumber(d) + 1
    ensures Weekday(NextDay(d)) == (Weekday(d) + 1) % 7
  {
    WeekdayStep(DayNumber(d));
    if d.day == DaysInMonth(d.year, d.month) {
      if d.month < 12 {
        MonthStep(d.year, d.month);
      } else {
        YearStep(d.year);
      }
    }
  }

  /** Weekdays of days in one month differ by the difference of the days. */
  lemma WeekdayShift(y: int, m: int, d: int, k: int)
    requires 1 <= m <= 12
    ensures Weekday(Date(y, m, d + k)) == (Weekday(Date(y, m, d)) + k) % 7
  {
  }

  /** Two reference points of the real calendar. */
  lemma KnownWeekdays()
    ensures Weekday(Date(1970, 1, 1)) == 4
    ensures Weekday(Date(2024, 1, 1)) == 1
    ensures Weekday(Date(2000, 3, 1)) == 3
  {
  }
}
