/** Days of the Gregorian calendar and the numbers that order them. */
module CivilDates {

  /** Months count from 1, as they are written. */
  datatype Date = Date(year: int, month: int, day: int)

  predicate Divides(n: int, y: int)
    requires 1 <= n
  {
    y % n == 0
  }

  predicate Leap(y: int) {
    Divides(4, y) && (!Divides(100, y) || Divides(400, y))
  }

  function DaysInMonth(y: int, m: int): int {
    if m == 2 then (if Leap(y) then 29 else 28)
    else if m in {4, 6, 9, 11} then 30
    else 31
  }

  predicate IsDate(d: Date) {
    1 <= d.month <= 12 && 1 <= d.day <= DaysInMonth(d.year, d.month)
  }

  /** The multiples of `n` from 0 up to, but without, `y`. */
  function MultiplesBefore(n: int, y: int): int
    requires 1 <= n
  {
    (y + n - 1) / n
  }

  /** Days from the start of year 0 to the start of a year. */
  function DaysBeforeYear(y: int): int {
    365 * y + MultiplesBefore(4, y) - MultiplesBefore(100, y) + MultiplesBefore(400, y)
  }

  lemma OneMoreYear(n: int, y: int)
    requires n == 4 || n == 100 || n == 400
    ensures MultiplesBefore(n, y + 1) == MultiplesBefore(n, y) + (if Divides(n, y) then 1 else 0)
  {
    var q, r := y / n, y % n;
    QuotientOf(n, q, r, y);
    QuotientOf(n, if r == 0 then q else q + 1, if r == 0 then n - 1 else r - 1, y + n - 1);
    QuotientOf(n, q + 1, r, y + n);
  }

  lemma QuotientOf(n: int, q: int, r: int, x: int)
    requires (n == 4 || n == 100 || n == 400) && 0 <= r < n
    requires n == 4 ==> x == 4 * q + r
    requires n == 100 ==> x == 100 * q + r
    requires n == 400 ==> x == 400 * q + r
    ensures x / n == q && x % n == r
  {
  }

  lemma CenturiesAreMultiplesOfFour(y: int)
    ensures Divides(400, y) ==> Divides(100, y)
    ensures Divides(100, y) ==> Divides(4, y)
  {
  }

  lemma YearLength(y: int)
    ensures DaysBeforeYear(y + 1) == DaysBeforeYear(y) + (if Leap(y) then 366 else 365)
  {
    hide MultiplesBefore, Divides;
    OneMoreYear(4, y);
    OneMoreYear(100, y);
    OneMoreYear(400, y);
    CenturiesAreMultiplesOfFour(y);
  }

  function DaysBeforeMonth(y: int, m: int): int {
    (if m == 1 then 0 else if m == 2 then 31 else if m == 3 then 59 else if m == 4 then 90
     else if m == 5 then 120 else if m == 6 then 151 else if m == 7 then 181 else if m == 8 then 212
     else if m == 9 then 243 else if m == 10 then 273 else if m == 11 then 304 else 334)
    + (if 2 < m && Leap(y) then 1 else 0)
  }

  function DayNumber(d: Date): int {
    DaysBeforeYear(d.year) + DaysBeforeMonth(d.year, d.month) + d.day - 1
  }

  /** 0 is Sunday. */
  function Weekday(d: Date): (w: int)
    ensures 0 <= w < 7
  {
    (DayNumber(d) + 6) % 7
  }

  const EPOCH_DAY := 719_528

  lemma EpochIsAThursday()
    ensures DayNumber(Date(1970, 1, 1)) == EPOCH_DAY && Weekday(Date(1970, 1, 1)) == 4
  {
  }

  function NextDay(d: Date): Date {
    if d.day < DaysInMonth(d.year, d.month) then d.(day := d.day + 1)
    else if d.month < 12 then Date(d.year, d.month + 1, 1)
    else Date(d.year + 1, 1, 1)
  }

  function PreviousDay(d: Date): Date {
    if 1 < d.day then d.(day := d.day - 1)
    else if 1 < d.month then Date(d.year, d.month - 1, DaysInMonth(d.year, d.month - 1))
    else Date(d.year - 1, 12, 31)
  }

  lemma NextDayNumber(d: Date)
    requires IsDate(d)
    ensures IsDate(NextDay(d)) && DayNumber(NextDay(d)) == DayNumber(d) + 1
  {
    YearLength(d.year);
    hide DaysBeforeYear;
  }

  lemma PreviousDayNumber(d: Date)
    requires IsDate(d)
    ensures IsDate(PreviousDay(d)) && DayNumber(PreviousDay(d)) == DayNumber(d) - 1
  {
    YearLength(d.year - 1);
    hide DaysBeforeYear;
  }

  /** The date of a day counted from the first of January 1970. */
  function DateOf(epochDay: int): Date
    decreases if epochDay < 0 then -epochDay else epochDay
  {
    if epochDay == 0 then Date(1970, 1, 1)
    else if 0 < epochDay then NextDay(DateOf(epochDay - 1))
    else PreviousDay(DateOf(epochDay + 1))
  }

  lemma {:induction false} DateOfNumber(epochDay: int)
    ensures IsDate(DateOf(epochDay)) && DayNumber(DateOf(epochDay)) == EPOCH_DAY + epochDay
    decreases if epochDay < 0 then -epochDay else epochDay
  {
    if epochDay == 0 {
      EpochIsAThursday();
    } else if 0 < epochDay {
      DateOfNumber(epochDay - 1);
      NextDayNumber(DateOf(epochDay - 1));
    } else {
      DateOfNumber(epochDay + 1);
      PreviousDayNumber(DateOf(epochDay + 1));
    }
    hide DayNumber, IsDate, NextDay, PreviousDay;
  }

  lemma {:induction false} YearsInOrder(y: int, z: int)
    requires y <= z
    ensures DaysBeforeYear(y) + 365 * (z - y) <= DaysBeforeYear(z) <= DaysBeforeYear(y) + 366 * (z - y)
    decreases z - y
  {
    hide DaysBeforeYear;
    if y < z {
      YearLength(z - 1);
      YearsInOrder(y, z - 1);
    }
  }

  lemma DayOfYearBounds(d: Date)
    requires IsDate(d)
    ensures 0 <= DayNumber(d) - DaysBeforeYear(d.year) < (if Leap(d.year) then 366 else 365)
  {
    hide DaysBeforeYear;
  }

  /** Later dates have greater numbers, so a number is one date's alone. */
  lemma NumbersAreInjective(d: Date, e: Date)
    requires IsDate(d) && IsDate(e) && DayNumber(d) == DayNumber(e)
    ensures d == e
  {
    DayOfYearBounds(d);
    DayOfYearBounds(e);
    if d.year < e.year {
      YearLength(d.year);
      YearsInOrder(d.year + 1, e.year);
    } else if e.year < d.year {
      YearLength(e.year);
      YearsInOrder(e.year + 1, d.year);
    } else {
      SameYear(d, e);
    }
    hide DaysBeforeYear, DayNumber;
  }

  lemma SameYear(d: Date, e: Date)
    requires IsDate(d) && IsDate(e) && d.year == e.year && DayNumber(d) == DayNumber(e)
    ensures d == e
  {
    hide DaysBeforeYear, Leap;
  }

  lemma NumberToDate(d: Date)
    requires IsDate(d)
    ensures DateOf(DayNumber(d) - EPOCH_DAY) == d
  {
    DateOfNumber(DayNumber(d) - EPOCH_DAY);
    NumbersAreInjective(DateOf(DayNumber(d) - EPOCH_DAY), d);
  }

  // ----- The calendar itself -----

  /** The lengths of the months, and the day that follows a day. */
  lemma CalendarRules(d: Date)
    ensures IsDate(d) <==>
      && 1 <= d.month <= 12 && 1 <= d.day
      && d.day <= if d.month == 2 then (if d.year % 4 == 0 && (d.year % 100 != 0 || d.year % 400 == 0) then 29 else 28)
                  else if d.month == 4 || d.month == 6 || d.month == 9 || d.month == 11 then 30 else 31
    ensures IsDate(d) ==>
      NextDay(d) ==
        if IsDate(Date(d.year, d.month, d.day + 1)) then Date(d.year, d.month, d.day + 1)
        else if IsDate(Date(d.year, d.month + 1, 1)) then Date(d.year, d.month + 1, 1)
        else Date(d.year + 1, 1, 1)
  {
  }

  /** The days of the week follow one another, and 1 January 1970 was a Thursday. */
  lemma WeekRules(d: Date)
    requires IsDate(d)
    ensures Weekday(NextDay(d)) == (if Weekday(d) == 6 then 0 else Weekday(d) + 1)
    ensures Weekday(Date(1970, 1, 1)) == 4 && DayNumber(Date(1970, 1, 1)) == 719_528
    ensures DayNumber(NextDay(d)) == DayNumber(d) + 1
  {
    hide DayNumber, IsDate, NextDay;
    EpochIsAThursday();
    NextDayNumber(d);
    OneMoreInTheWeek(DayNumber(d) + 6);
  }

  lemma OneMoreInTheWeek(n: int)
    ensures (n + 1) % 7 == if n % 7 == 6 then 0 else n % 7 + 1
  {
  }
}
