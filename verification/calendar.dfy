/** Proleptic Gregorian calendar arithmetic: the day-of-month and weekday
    behaviour that JavaScript's `Date` exhibits when a day count is added
    with `setDate`. Days are counted from 1 January of year 1, which was a
    Monday in the proleptic Gregorian calendar. */
module Calendar {

  datatype Date = Date(year: int, month: int, day: int)

  datatype Weekday = Monday | Tuesday | Wednesday | Thursday | Friday | Saturday | Sunday

  predicate IsLeapYear(y: int) {
    y % 4 == 0 && (y % 100 != 0 || y % 400 == 0)
  }

  function DaysInMonth(y: int, m: int): (n: int)
    requires 1 <= m <= 12
    ensures 28 <= n <= 31
    ensures m == 2 ==> (n == 29 <==> IsLeapYear(y))
  {
    if m == 2 then (if IsLeapYear(y) then 29 else 28)
    else if m == 4 || m == 6 || m == 9 || m == 11 then 30
    else 31
  }

  /** A real calendar date (from year 1 on). */
  predicate Valid(d: Date) {
    d.year >= 1 && 1 <= d.month <= 12 && 1 <= d.day <= DaysInMonth(d.year, d.month)
  }

  /** Days of the year that precede the first day of month `m`: the lengths
      of the months before it. */
  function DaysBeforeMonth(y: int, m: int): int
    requires 1 <= m <= 12
  {
    if m == 1 then 0 else DaysBeforeMonth(y, m - 1) + DaysInMonth(y, m - 1)
  }

  function DaysInYear(y: int): int {
    if IsLeapYear(y) then 366 else 365
  }

  /** Days from 1 January of year 1 to 1 January of year `y`: the lengths
      of all the years before it. */
  function YearStart(y: int): int
    requires y >= 1
    decreases y
  {
    if y == 1 then 0 else YearStart(y - 1) + DaysInYear(y - 1)
  }

  /** The closed form of `YearStart`: 365 days a year, plus a leap day every
      fourth year, except every hundredth, except every four-hundredth. */
  lemma {:induction false} YearStartClosedForm(y: int)
    requires y >= 1
    ensures YearStart(y) == 365 * (y - 1) + (y - 1) / 4 - (y - 1) / 100 + (y - 1) / 400
    decreases y
  {
    if y > 1 {
      YearStartClosedForm(y - 1);
      var p := y - 1;
      var q := y - 2;
      assert p / 4 == q / 4 + (if p % 4 == 0 then 1 else 0);
      assert p / 100 == q / 100 + (if p % 100 == 0 then 1 else 0);
      assert p / 400 == q / 400 + (if p % 400 == 0 then 1 else 0);
    }
  }

  /** Number of days from 1 January of year 1 (day 0) to `d`. */
  function DayNumber(d: Date): int
    requires Valid(d)
  {
    YearStart(d.year) + DaysBeforeMonth(d.year, d.month) + d.day - 1
  }

  /** Weekday of a date; day 0 (1 January of year 1) is a Monday. */
  function WeekdayOf(d: Date): Weekday
    requires Valid(d)
  {
    WeekdayAt(DayNumber(d) % 7)
  }

  /** The weekday `i` days after a Monday, for `0 <= i < 7`. */
  function WeekdayAt(i: int): Weekday
    requires 0 <= i < 7
  {
    [Monday, Tuesday, Wednesday, Thursday, Friday, Saturday, Sunday][i]
  }

  /** The calendar day after `d`, rolling over month and year ends. */
  function NextDay(d: Date): (n: Date)
    requires Valid(d)
    ensures Valid(n)
  {
    if d.day < DaysInMonth(d.year, d.month) then
      d.(day := d.day + 1)
    else if d.month < 12 then
      Date(d.year, d.month + 1, 1)
    else
      Date(d.year + 1, 1, 1)
  }

  /** The next day's day number is one more, across month and year ends too. */
  lemma NextDayNumber(d: Date)
    requires Valid(d)
    ensures DayNumber(NextDay(d)) == DayNumber(d) + 1
  {
  }

  /** The date `n` days after `d`, as `setDate(getDate() + n)` normalises it. */
  function AddDays(d: Date, n: nat): (r: Date)
    requires Valid(d)
    ensures Valid(r)
    decreases n
  {
    if n == 0 then d else AddDays(NextDay(d), n - 1)
  }

  /** Adding `n` days moves the day number forward by exactly `n`. */
  lemma {:induction false} AddDaysNumber(d: Date, n: nat)
    requires Valid(d)
    ensures DayNumber(AddDays(d, n)) == DayNumber(d) + n
    decreases n
  {
    if n > 0 {
      NextDayNumber(d);
      AddDaysNumber(NextDay(d), n - 1);
    }
  }

}
