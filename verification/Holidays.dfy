/** The United States federal holidays that mail sync may skip, as keys of calendar dates. */
module Holidays {
  import opened CivilDates
  import opened Text

  const MONDAY := 1
  const THURSDAY := 4
  const SUNDAY := 0
  const SATURDAY := 6

  /** `Date.UTC` takes the years 0 to 99 as 1900 to 1999. */
  function UtcYear(year: int): int {
    if 0 <= year <= 99 then 1900 + year else year
  }

  // ----- Weekdays of a month -----

  /** The days from one weekday to the next time another comes round. */
  function OffsetTo(first: int, weekday: int): int {
    (weekday - first + 7) % 7
  }

  function NthWeekdayOfMonth(year: int, month: int, weekday: int, occurrence: int): int {
    var firstDay := Weekday(Date(UtcYear(year), month, 1));
    1 + OffsetTo(firstDay, weekday) + (occurrence - 1) * 7
  }

  function LastWeekdayOfMonth(year: int, month: int, weekday: int): int {
    var lastDate := Date(UtcYear(year), month, DaysInMonth(UtcYear(year), month));
    lastDate.day - OffsetTo(weekday, Weekday(lastDate))
  }

  /** How many of the first `upTo` days of a month fall on a weekday. */
  function CountWeekday(year: int, month: int, weekday: int, upTo: nat): nat {
    if upTo == 0 then 0
    else CountWeekday(year, month, weekday, upTo - 1) + (if Weekday(Date(year, month, upTo)) == weekday then 1 else 0)
  }

  /** The weekday of a day of the month that begins on `first`. */
  function WeekdayAt(first: int, day: int): int {
    (first + day - 1) % 7
  }

  /** How many of the first `upTo` days fall on the weekday first met after `offset` days. */
  function Rank(upTo: int, offset: int): int {
    (upTo + 6 - offset) / 7
  }

  lemma WeekdayOfDay(year: int, month: int, day: int)
    ensures Weekday(Date(year, month, day)) == WeekdayAt(Weekday(Date(year, month, 1)), day)
  {
    hide DaysBeforeYear, DaysBeforeMonth;
  }

  lemma {:induction false} CountIsRank(year: int, month: int, weekday: int, upTo: nat)
    requires 0 <= weekday < 7
    ensures CountWeekday(year, month, weekday, upTo)
      == Rank(upTo, OffsetTo(Weekday(Date(year, month, 1)), weekday))
  {
    var first := Weekday(Date(year, month, 1));
    if upTo == 0 {
      OffsetIs(first, weekday);
    } else {
      CountIsRank(year, month, weekday, upTo - 1);
      WeekdayOfDay(year, month, upTo);
      RankStep(weekday, first, upTo);
      hide Rank, OffsetTo, WeekdayAt;
    }
    hide Weekday;
  }

  lemma RankStep(weekday: int, first: int, upTo: int)
    requires 0 <= weekday < 7 && 0 <= first < 7 && 1 <= upTo
    ensures
      var offset := OffsetTo(first, weekday);
      Rank(upTo, offset) == Rank(upTo - 1, offset) + (if WeekdayAt(first, upTo) == weekday then 1 else 0)
  {
    var offset, q, r := OffsetTo(first, weekday), (upTo - 1) / 7, (upTo - 1) % 7;
    OffsetIs(first, weekday);
    hide OffsetTo;
    assert upTo == 7 * q + r + 1;
    Quotient(q, r - offset);
    Quotient(q, r - offset - 1);
    Remainder(q, first + r);
    assert upTo + 6 - offset == 7 * q + (r - offset) + 7;
    assert upTo - 1 + 6 - offset == 7 * q + (r - offset - 1) + 7;
    assert first + upTo - 1 == 7 * q + (first + r);
  }

  lemma Remainder(q: int, x: int)
    requires 0 <= x < 14
    ensures (7 * q + x) % 7 == if x < 7 then x else x - 7
  {
  }

  lemma Quotient(q: int, x: int)
    requires -7 <= x < 7
    ensures (7 * q + x + 7) / 7 == q + (if 0 <= x then 1 else 0)
  {
  }

  lemma OffsetIs(first: int, weekday: int)
    requires 0 <= first < 7 && 0 <= weekday < 7
    ensures OffsetTo(first, weekday) == if first <= weekday then weekday - first else weekday - first + 7
  {
  }

  lemma NthArithmetic(first: int, weekday: int, occurrence: int)
    requires 0 <= first < 7 && 0 <= weekday < 7 && 1 <= occurrence <= 4
    ensures
      var day := 1 + OffsetTo(first, weekday) + (occurrence - 1) * 7;
      && 1 <= day <= 28 && WeekdayAt(first, day) == weekday
      && Rank(day, OffsetTo(first, weekday)) == occurrence
  {
    var offset := OffsetTo(first, weekday);
    OffsetIs(first, weekday);
    hide OffsetTo;
    Remainder(occurrence - 1, first + offset);
    Quotient(occurrence - 1, 0);
    assert first + (1 + offset + (occurrence - 1) * 7) - 1 == 7 * (occurrence - 1) + (first + offset);
    assert 1 + offset + (occurrence - 1) * 7 + 6 - offset == 7 * (occurrence - 1) + 0 + 7;
  }

  lemma LastArithmetic(first: int, weekday: int, last: int)
    requires 0 <= first < 7 && 0 <= weekday < 7 && 28 <= last <= 31
    ensures
      var day := last - OffsetTo(weekday, WeekdayAt(first, last));
      && last - 6 <= day <= last && WeekdayAt(first, day) == weekday
      && Rank(day, OffsetTo(first, weekday)) == Rank(last, OffsetTo(first, weekday))
  {
    var offset, back := OffsetTo(first, weekday), OffsetTo(weekday, WeekdayAt(first, last));
    OffsetIs(first, weekday);
    OffsetIs(weekday, WeekdayAt(first, last));
    hide OffsetTo;
    var q := (first + last - 1) / 7;
    assert first + last - 1 == 7 * q + WeekdayAt(first, last);
    var m := if weekday <= WeekdayAt(first, last) then q else q - 1;
    var n := if first <= weekday then m + 1 else m;
    assert first + (last - back) - 1 == 7 * m + weekday;
    Remainder(m, weekday);
    assert last - back + 6 - offset == 7 * (n - 1) + 0 + 7;
    assert last + 6 - offset == 7 * (n - 1) + back + 7;
    Quotient(n - 1, 0);
    Quotient(n - 1, back);
  }

  lemma MonthLength(year: int, month: int)
    ensures 28 <= DaysInMonth(year, month) <= 31
  {
    hide Leap;
  }

  lemma WeekdayInRange(d: Date)
    ensures 0 <= Weekday(d) < 7
  {
    hide DayNumber;
  }

  /** The date found lies in the month, falls on the weekday and is the one with the rank asked for. */
  lemma NthWeekdayIsTheNth(year: int, month: int, weekday: int, occurrence: int)
    requires 1 <= month <= 12 && 0 <= weekday < 7 && 1 <= occurrence <= 4
    ensures
      var y := UtcYear(year);
      var day := NthWeekdayOfMonth(year, month, weekday, occurrence);
      && 1 <= day <= 28 && IsDate(Date(y, month, day))
      && Weekday(Date(y, month, day)) == weekday
      && CountWeekday(y, month, weekday, day) == occurrence
  {
    hide Weekday, CountWeekday, DaysInMonth, UtcYear, OffsetTo, WeekdayAt, Rank;
    var y := UtcYear(year);
    var day := NthWeekdayOfMonth(year, month, weekday, occurrence);
    MonthLength(y, month);
    WeekdayInRange(Date(y, month, 1));
    NthArithmetic(Weekday(Date(y, month, 1)), weekday, occurrence);
    WeekdayOfDay(y, month, day);
    CountIsRank(y, month, weekday, day);
  }

  /** The date found lies in the month, falls on the weekday, and no later day of the month does. */
  lemma LastWeekdayIsTheLast(year: int, month: int, weekday: int)
    requires 1 <= month <= 12 && 0 <= weekday < 7
    ensures
      var y := UtcYear(year);
      var day := LastWeekdayOfMonth(year, month, weekday);
      && DaysInMonth(y, month) - 6 <= day && IsDate(Date(y, month, day))
      && Weekday(Date(y, month, day)) == weekday
      && CountWeekday(y, month, weekday, day) == CountWeekday(y, month, weekday, DaysInMonth(y, month))
  {
    hide Weekday, CountWeekday, DaysInMonth, UtcYear, OffsetTo, WeekdayAt, Rank;
    var y := UtcYear(year);
    var last := DaysInMonth(y, month);
    var day := LastWeekdayOfMonth(year, month, weekday);
    MonthLength(y, month);
    WeekdayInRange(Date(y, month, 1));
    WeekdayOfDay(y, month, last);
    LastArithmetic(Weekday(Date(y, month, 1)), weekday, last);
    WeekdayOfDay(y, month, day);
    CountIsRank(y, month, weekday, day);
    CountIsRank(y, month, weekday, last);
  }

  // ----- Holidays on a fixed date -----

  function ObservedDate(d: Date): Date {
    if Weekday(d) == SATURDAY then PreviousDay(d)
    else if Weekday(d) == SUNDAY then NextDay(d)
    else d
  }

  /** A holiday is observed on a working day, at most one day away. */
  lemma ObservedOnAWeekday(d: Date)
    requires IsDate(d)
    ensures
      var o := ObservedDate(d);
      && IsDate(o) && Weekday(o) != SATURDAY && Weekday(o) != SUNDAY
      && -1 <= DayNumber(o) - DayNumber(d) <= 1
  {
    hide DayNumber, IsDate, NextDay, PreviousDay;
    NextDayNumber(d);
    PreviousDayNumber(d);
  }

  // ----- Keys -----

  function Digits(n: nat, width: nat): string {
    PadStart(Numeral(n, 10), width, '0')
  }

  /** The first ten characters of the ISO form; years outside four digits are written with a sign and six. */
  function DateKey(d: Date): string {
    var month := "-" + Digits(if 0 <= d.month then d.month else 0, 2);
    var day := "-" + Digits(if 0 <= d.day then d.day else 0, 2);
    if 0 <= d.year <= 9999 then Digits(d.year, 4) + month + day
    else (if d.year < 0 then "-" + Digits(-d.year, 6) else "+" + Digits(d.year, 6)) + month
  }

  predicate FourDigitYear(d: Date) {
    IsDate(d) && 1000 <= d.year <= 9999
  }

  lemma DigitsShape(n: nat, width: nat)
    requires (width == 2 && n < 100) || (width == 4 && n < 10_000) || (width == 6 && n < 1_000_000)
    ensures |Digits(n, width)| == width && DigitsBelow(Digits(n, width), 10) && Parse(Digits(n, width), 10) == n
  {
    assert Power(10, 2) == 100;
    assert Power(10, 4) == 10_000;
    assert Power(10, 6) == 1_000_000;
    PaddedNumeral(n, 10, width);
  }

  /** The year, the month and the day can be read off the key. */
  lemma KeyParts(d: Date)
    requires IsDate(d) && 0 <= d.year <= 9999
    ensures
      var k := DateKey(d);
      && |k| == 10 && Parse(k[..4], 10) == d.year && Parse(k[5..7], 10) == d.month && Parse(k[8..], 10) == d.day
      && IsDigit(k[0])
  {
    hide Digits, Parse, DaysInMonth;
    MonthLength(d.year, d.month);
    DigitsShape(d.year, 4);
    DigitsShape(d.month, 2);
    DigitsShape(d.day, 2);
    var year, month, day := Digits(d.year, 4), Digits(d.month, 2), Digits(d.day, 2);
    var k := DateKey(d);
    assert k == year + ("-" + month) + ("-" + day);
    assert k[..4] == year && k[5..7] == month && k[8..] == day;
  }

  lemma SignedKey(d: Date)
    requires !(0 <= d.year <= 9999)
    ensures DateKey(d) != "" && !IsDigit(DateKey(d)[0])
  {
    hide Digits;
  }

  /** Among dates of four-digit years a key stands for one date; no other year shares it. */
  lemma KeysAreInjective(d: Date, e: Date)
    requires IsDate(d) && IsDate(e) && 0 <= d.year <= 9999
    ensures DateKey(d) == DateKey(e) <==> d == e
  {
    KeyParts(d);
    if 0 <= e.year <= 9999 {
      KeyParts(e);
    } else {
      SignedKey(e);
    }
    hide DateKey, Parse;
  }

  // ----- The holidays of a year -----

  function Fixed(y: int, month: int, day: int): set<Date> {
    {Date(y, month, day), ObservedDate(Date(y, month, day))}
  }

  function HolidayDates(year: int): set<Date> {
    var y := UtcYear(year);
    Fixed(y, 1, 1)
    + {Date(y, 1, NthWeekdayOfMonth(year, 1, MONDAY, 3))}
    + {Date(y, 2, NthWeekdayOfMonth(year, 2, MONDAY, 3))}
    + {Date(y, 5, LastWeekdayOfMonth(year, 5, MONDAY))}
    + Fixed(y, 6, 19)
    + Fixed(y, 7, 4)
    + {Date(y, 9, NthWeekdayOfMonth(year, 9, MONDAY, 1))}
    + {Date(y, 10, NthWeekdayOfMonth(year, 10, MONDAY, 2))}
    + Fixed(y, 11, 11)
    + {Date(y, 11, NthWeekdayOfMonth(year, 11, THURSDAY, 4))}
    + Fixed(y, 12, 25)
  }

  // ----- What a holiday is -----

  /**
   Days on which a holiday of a fixed date is kept: the date itself, and for a weekend the
   Friday or Monday beside it.
   */
  ghost predicate Keeps(d: Date, holiday: Date) {
    || d == holiday
    || (Weekday(holiday) == 6 && IsDate(d) && DayNumber(d) == DayNumber(holiday) - 1)
    || (Weekday(holiday) == 0 && IsDate(d) && DayNumber(d) == DayNumber(holiday) + 1)
  }

  predicate IsNth(d: Date, y: int, month: int, weekday: int, occurrence: int) {
    && d.year == y && d.month == month && IsDate(d) && Weekday(d) == weekday
    && CountWeekday(y, month, weekday, d.day) == occurrence
  }

  predicate IsLast(d: Date, y: int, month: int, weekday: int) {
    && d.year == y && d.month == month && IsDate(d) && Weekday(d) == weekday
    && forall later | d.day < later <= DaysInMonth(y, month) :: Weekday(Date(y, month, later)) != weekday
  }

  /** The federal holidays of a year, by name, without the arithmetic that finds them; 1 is Monday and 4 is Thursday. */
  ghost predicate IsHolidayOf(d: Date, y: int) {
    || Keeps(d, Date(y, 1, 1))              // New Year's Day
    || IsNth(d, y, 1, 1, 3)                 // Martin Luther King Day
    || IsNth(d, y, 2, 1, 3)                 // Presidents' Day
    || IsLast(d, y, 5, 1)                   // Memorial Day
    || Keeps(d, Date(y, 6, 19))             // Juneteenth
    || Keeps(d, Date(y, 7, 4))              // Independence Day
    || IsNth(d, y, 9, 1, 1)                 // Labor Day
    || IsNth(d, y, 10, 1, 2)                // Columbus Day
    || Keeps(d, Date(y, 11, 11))            // Veterans Day
    || IsNth(d, y, 11, 4, 4)                // Thanksgiving
    || Keeps(d, Date(y, 12, 25))            // Christmas
  }

  lemma KeptIsFixed(d: Date, y: int, month: int, day: int)
    requires IsDate(Date(y, month, day))
    ensures d in Fixed(y, month, day) <==> Keeps(d, Date(y, month, day))
  {
    var h := Date(y, month, day);
    hide DayNumber, IsDate, NextDay, PreviousDay;
    NextDayNumber(h);
    PreviousDayNumber(h);
    if Keeps(d, h) && d != h {
      NumbersAreInjective(d, ObservedDate(h));
    }
  }

  lemma {:induction false} CountGrows(year: int, month: int, weekday: int, a: nat, b: nat)
    requires a < b && Weekday(Date(year, month, b)) == weekday
    ensures CountWeekday(year, month, weekday, a) < CountWeekday(year, month, weekday, b)
  {
    hide Weekday;
    CountNeverFalls(year, month, weekday, a, b - 1);
  }

  lemma {:induction false} CountNeverFalls(year: int, month: int, weekday: int, a: nat, b: nat)
    requires a <= b
    ensures CountWeekday(year, month, weekday, a) <= CountWeekday(year, month, weekday, b)
    decreases b
  {
    hide Weekday;
    if a < b { CountNeverFalls(year, month, weekday, a, b - 1); }
  }

  /** A month has one day of each rank. */
  lemma NthIsUnique(d: Date, year: int, month: int, weekday: int, occurrence: int)
    requires 1 <= month <= 12 && 0 <= weekday < 7 && 1 <= occurrence <= 4
    ensures IsNth(d, UtcYear(year), month, weekday, occurrence)
      <==> d == Date(UtcYear(year), month, NthWeekdayOfMonth(year, month, weekday, occurrence))
  {
    var y, day := UtcYear(year), NthWeekdayOfMonth(year, month, weekday, occurrence);
    NthWeekdayIsTheNth(year, month, weekday, occurrence);
    hide Weekday, CountWeekday, NthWeekdayOfMonth, UtcYear, DaysInMonth;
    if IsNth(d, y, month, weekday, occurrence) {
      if d.day < day { CountGrows(y, month, weekday, d.day, day); }
      if day < d.day { CountGrows(y, month, weekday, day, d.day); }
    }
  }

  lemma LastIsUnique(d: Date, year: int, month: int, weekday: int)
    requires 1 <= month <= 12 && 0 <= weekday < 7
    ensures IsLast(d, UtcYear(year), month, weekday)
      <==> d == Date(UtcYear(year), month, LastWeekdayOfMonth(year, month, weekday))
  {
    var y, day := UtcYear(year), LastWeekdayOfMonth(year, month, weekday);
    LastWeekdayIsTheLast(year, month, weekday);
    hide Weekday, CountWeekday, LastWeekdayOfMonth, UtcYear, DaysInMonth;
    var end := DaysInMonth(y, month);
    forall later | day < later <= end ensures Weekday(Date(y, month, later)) != weekday {
      if Weekday(Date(y, month, later)) == weekday {
        CountGrows(y, month, weekday, day, later);
        CountNeverFalls(y, month, weekday, later, end);
      }
    }
  }

  /** The dates computed are the federal holidays of the year and the days they are kept on, and no others. */
  lemma HolidaysAreTheNamedOnes(year: int, d: Date)
    ensures d in HolidayDates(year) <==> IsHolidayOf(d, UtcYear(year))
  {
    hide Weekday, Fixed, Keeps, IsNth, IsLast, NthWeekdayOfMonth, LastWeekdayOfMonth, UtcYear;
    KeptIsFixed(d, UtcYear(year), 1, 1);
    KeptIsFixed(d, UtcYear(year), 6, 19);
    KeptIsFixed(d, UtcYear(year), 7, 4);
    KeptIsFixed(d, UtcYear(year), 11, 11);
    KeptIsFixed(d, UtcYear(year), 12, 25);
    NthIsUnique(d, year, 1, MONDAY, 3);
    NthIsUnique(d, year, 2, MONDAY, 3);
    NthIsUnique(d, year, 9, MONDAY, 1);
    NthIsUnique(d, year, 10, MONDAY, 2);
    NthIsUnique(d, year, 11, THURSDAY, 4);
    LastIsUnique(d, year, 5, MONDAY);
  }

  // ----- The set of keys -----

  function HolidayKeys(year: int): set<string> {
    set d | d in HolidayDates(year) :: DateKey(d)
  }

  /** Adds the key of a date, and if asked the key of the date it is observed on. */
  method Add(keys: set<string>, year: int, month: int, day: int, observed: bool, ghost dates: set<Date>)
    returns (more: set<string>, ghost moreDates: set<Date>)
    requires keys == set d | d in dates :: DateKey(d)
    ensures moreDates ==
      dates + (if observed then Fixed(UtcYear(year), month, day) else {Date(UtcYear(year), month, day)})
    ensures more == set d | d in moreDates :: DateKey(d)
  {
    hide DateKey;
    var date := Date(UtcYear(year), month, day);
    more, moreDates := keys + {DateKey(date)}, dates + {date};
    if observed {
      more, moreDates := more + {DateKey(ObservedDate(date))}, moreDates + {ObservedDate(date)};
    }
  }

  method UsFederalHolidayKeys(year: int) returns (keys: set<string>)
    ensures keys == HolidayKeys(year)
  {
    hide DateKey, NthWeekdayOfMonth, LastWeekdayOfMonth, Fixed;
    ghost var dates: set<Date>;
    keys, dates := Add({}, year, 1, 1, true, {});
    keys, dates := Add(keys, year, 1, NthWeekdayOfMonth(year, 1, MONDAY, 3), false, dates);
    keys, dates := Add(keys, year, 2, NthWeekdayOfMonth(year, 2, MONDAY, 3), false, dates);
    keys, dates := Add(keys, year, 5, LastWeekdayOfMonth(year, 5, MONDAY), false, dates);
    keys, dates := Add(keys, year, 6, 19, true, dates);
    keys, dates := Add(keys, year, 7, 4, true, dates);
    keys, dates := Add(keys, year, 9, NthWeekdayOfMonth(year, 9, MONDAY, 1), false, dates);
    keys, dates := Add(keys, year, 10, NthWeekdayOfMonth(year, 10, MONDAY, 2), false, dates);
    keys, dates := Add(keys, year, 11, 11, true, dates);
    keys, dates := Add(keys, year, 11, NthWeekdayOfMonth(year, 11, THURSDAY, 4), false, dates);
    keys, dates := Add(keys, year, 12, 25, true, dates);
    assert dates == HolidayDates(year);
  }

  /** The test made on a key: the holidays of the year it names and of the years beside it. */
  predicate IsUsFederalHoliday(key: string) {
    var year := Parse(if 4 <= |key| then key[..4] else key, 10);
    key in HolidayKeys(year - 1) || key in HolidayKeys(year) || key in HolidayKeys(year + 1)
  }

  /** Where the holidays of a year can lie. */
  predicate InHolidayRange(d: Date, y: int) {
    IsDate(d) &&
    if d.year == y then
      || (d.month == 1 && d.day <= 21)
      || (d.month == 2 && 15 <= d.day <= 21)
      || (d.month == 5 && 25 <= d.day)
      || (d.month == 6 && 18 <= d.day <= 20)
      || (d.month == 7 && 3 <= d.day <= 5)
      || (d.month == 9 && d.day <= 7)
      || (d.month == 10 && 8 <= d.day <= 14)
      || (d.month == 11 && 10 <= d.day <= 28)
      || (d.month == 12 && 24 <= d.day <= 26)
    else d == Date(y - 1, 12, 31)
  }

  lemma FixedRange(y: int, month: int, day: int, d: Date)
    requires (month == 1 && day == 1) || (month == 6 && day == 19) || (month == 7 && day == 4)
      || (month == 11 && day == 11) || (month == 12 && day == 25)
    requires d in Fixed(y, month, day)
    ensures InHolidayRange(d, y)
  {
    hide Weekday, Leap;
  }

  lemma HolidayRange(year: int, d: Date)
    requires d in HolidayDates(year)
    ensures InHolidayRange(d, UtcYear(year))
  {
    var y := UtcYear(year);
    NthWeekdayIsTheNth(year, 1, MONDAY, 3);
    NthWeekdayIsTheNth(year, 2, MONDAY, 3);
    NthWeekdayIsTheNth(year, 9, MONDAY, 1);
    NthWeekdayIsTheNth(year, 10, MONDAY, 2);
    NthWeekdayIsTheNth(year, 11, THURSDAY, 4);
    LastWeekdayIsTheLast(year, 5, MONDAY);
    if d in Fixed(y, 1, 1) { FixedRange(y, 1, 1, d); }
    else if d in Fixed(y, 6, 19) { FixedRange(y, 6, 19, d); }
    else if d in Fixed(y, 7, 4) { FixedRange(y, 7, 4, d); }
    else if d in Fixed(y, 11, 11) { FixedRange(y, 11, 11, d); }
    else if d in Fixed(y, 12, 25) { FixedRange(y, 12, 25, d); }
    hide Weekday, Leap, CountWeekday, Fixed;
  }

  lemma TwoDigitYears(year: int)
    ensures HolidayDates(year) == HolidayDates(UtcYear(year))
  {
    hide Weekday, Fixed, NthWeekdayOfMonth, LastWeekdayOfMonth;
    SameHolidays(year, UtcYear(year));
  }

  lemma SameHolidays(a: int, b: int)
    requires UtcYear(a) == UtcYear(b)
    ensures forall month, weekday, occurrence ::
      NthWeekdayOfMonth(a, month, weekday, occurrence) == NthWeekdayOfMonth(b, month, weekday, occurrence)
    ensures forall month, weekday :: LastWeekdayOfMonth(a, month, weekday) == LastWeekdayOfMonth(b, month, weekday)
  {
    hide Weekday, OffsetTo;
  }

  lemma KeyOfHoliday(year: int, d: Date)
    requires FourDigitYear(d)
    ensures DateKey(d) in HolidayKeys(year) <==> d in HolidayDates(year)
  {
    hide DateKey, HolidayDates, InHolidayRange;
    if DateKey(d) in HolidayKeys(year) {
      var e :| e in HolidayDates(year) && DateKey(e) == DateKey(d);
      HolidayRange(year, e);
      RangeIsDate(e, UtcYear(year));
      KeysAreInjective(d, e);
    }
  }

  lemma RangeIsDate(d: Date, y: int)
    requires InHolidayRange(d, y)
    ensures IsDate(d) && (d.year == y || d.year == y - 1)
  {
  }

  /**
   For dates of four-digit years, looking at the three years around the date decides
   whether it is a holiday of any year at all. The year before never contributes.
   */
  lemma ThreeYearsSuffice(d: Date)
    requires FourDigitYear(d)
    ensures IsUsFederalHoliday(DateKey(d)) <==> exists year :: d in HolidayDates(year)
    ensures d !in HolidayDates(d.year - 1)
  {
    hide Parse, HolidayDates, HolidayKeys, DateKey, InHolidayRange;
    KeyParts(d);
    KeyOfHoliday(d.year - 1, d);
    KeyOfHoliday(d.year, d);
    KeyOfHoliday(d.year + 1, d);
    if exists year :: d in HolidayDates(year) {
      var year :| d in HolidayDates(year);
      HolidayRange(year, d);
      RangeIsDate(d, UtcYear(year));
      TwoDigitYears(year);
    }
    if d in HolidayDates(d.year - 1) {
      HolidayRange(d.year - 1, d);
      RangeIsDate(d, d.year - 1);
    }
  }

  /** The test on a key against the calendar: is the date kept as a holiday of its own year, or of the next? */
  lemma HolidayTestIsRight(d: Date)
    requires FourDigitYear(d)
    ensures IsUsFederalHoliday(DateKey(d)) <==> IsHolidayOf(d, d.year) || IsHolidayOf(d, d.year + 1)
  {
    hide Parse, HolidayDates, HolidayKeys, DateKey, IsHolidayOf;
    KeyParts(d);
    ThreeYearsSuffice(d);
    KeyOfHoliday(d.year - 1, d);
    KeyOfHoliday(d.year, d);
    KeyOfHoliday(d.year + 1, d);
    HolidaysAreTheNamedOnes(d.year, d);
    HolidaysAreTheNamedOnes(d.year + 1, d);
  }
}
