/**
 When a moment is allowed, in terms of the calendar and the clock: days by name, dates and times
 as they are written, holidays as the calendar has them.
 */
module OpeningRules {
  import opened CivilDates
  import opened Holidays
  import opened OperatingHours
  import opened Text

  const WEEKDAYS := ["SUNDAY", "MONDAY", "TUESDAY", "WEDNESDAY", "THURSDAY", "FRIDAY", "SATURDAY"]

  function Figure(d: int): char
    requires 0 <= d < 10
  {
    (48 + d) as char
  }

  /** A date as it is written: year, month and day with hyphens. */
  function Written(d: Date): string
    requires FourDigitYear(d)
  {
    [Figure(d.year / 1000), Figure(d.year / 100 % 10), Figure(d.year / 10 % 10), Figure(d.year % 10), '-',
     Figure(d.month / 10), Figure(d.month % 10), '-', Figure(d.day / 10), Figure(d.day % 10)]
  }

  /** A time as it is written: two figures for the hour, a colon, two for the minute. */
  ghost predicate Shows(text: string, hour: int, minute: int) {
    && 0 <= hour < 24 && 0 <= minute < 60
    && text == [Figure(hour / 10), Figure(hour % 10), ':', Figure(minute / 10), Figure(minute % 10)]
  }

  /** The time a setting stands for: the one it shows, or else a full hour. */
  ghost predicate StandsFor(text: string, hour: int, minute: int, otherwise: int) {
    Shows(text, hour, minute) || (hour == otherwise && minute == 0 && forall h, m :: !Shows(text, h, m))
  }

  lemma TwoFigures(n: nat)
    requires n < 100
    ensures Digits(n, 2) == [Figure(n / 10), Figure(n % 10)]
  {
    assert DigitChar(n % 10) == Figure(n % 10);
    if n < 10 {
      assert Numeral(n, 10) == [DigitChar(n)];
      assert Repeat('0', 1) == ['0'] && Figure(0) == '0';
    } else {
      assert Numeral(n / 10, 10) == [DigitChar(n / 10)];
      assert Numeral(n, 10) == [DigitChar(n / 10)] + [DigitChar(n % 10)];
    }
  }

  lemma FourFigures(n: nat)
    requires 1000 <= n < 10_000
    ensures Digits(n, 4) == [Figure(n / 1000), Figure(n / 100 % 10), Figure(n / 10 % 10), Figure(n % 10)]
  {
    hide Repeat, PadStart;
    assert Numeral(n / 10 / 10 / 10, 10) == [DigitChar(n / 1000)];
    assert n / 10 / 10 / 10 == n / 1000 && n / 10 / 10 == n / 100;
    assert Numeral(n / 10 / 10, 10) == Numeral(n / 10 / 10 / 10, 10) + [DigitChar(n / 10 / 10 % 10)];
    assert Numeral(n / 10, 10) == Numeral(n / 10 / 10, 10) + [DigitChar(n / 10 % 10)];
    assert Numeral(n, 10) == Numeral(n / 10, 10) + [DigitChar(n % 10)];
    assert |Numeral(n, 10)| == 4;
    NoPadding(Numeral(n, 10), 4);
  }

  lemma NoPadding(s: string, width: nat)
    requires width <= |s|
    ensures PadStart(s, width, '0') == s
  {
  }

  lemma KeyIsWritten(d: Date)
    requires FourDigitYear(d)
    ensures DateKey(d) == Written(d)
  {
    hide Digits, Figure, DaysInMonth;
    MonthLength(d.year, d.month);
    FourFigures(d.year);
    TwoFigures(d.month);
    TwoFigures(d.day);
  }

  lemma ClockReads(text: string)
    ensures IsClockTime(text) <==> exists h, m :: Shows(text, h, m)
    ensures forall h, m | Shows(text, h, m) :: IsClockTime(text) && ClockMinutes(text) == h * 60 + m
  {
    if IsClockTime(text) {
      var h, m := DigitValue(text[0]) * 10 + DigitValue(text[1]), DigitValue(text[3]) * 10 + DigitValue(text[4]);
      assert text == [text[0], text[1], text[2], text[3], text[4]];
      assert Shows(text, h, m);
    }
    forall h, m | Shows(text, h, m) ensures IsClockTime(text) && ClockMinutes(text) == h * 60 + m {
      assert h / 10 <= 2 && m / 10 <= 5;
    }
  }

  lemma SettingReads(text: string, hour: int, minute: int, otherwise: int, fallback: string)
    requires StandsFor(text, hour, minute, otherwise)
    requires (otherwise == 6 && fallback == "06:00") || (otherwise == 17 && fallback == "17:00")
    ensures TimeToMinutes(text, fallback) == hour * 60 + minute
  {
    ClockReads(text);
    assert DigitValue('0') == 0 && DigitValue('6') == 6 && DigitValue('1') == 1 && DigitValue('7') == 7;
    hide ClockMinutes, Shows;
    assert ClockMinutes("06:00") == 360 && ClockMinutes("17:00") == 1020 by {
      assert "06:00"[0] == '0' && "17:00"[0] == '1';
    }
  }

  lemma DayIsNamed(d: Date)
    ensures DayName(Weekday(d)) == WEEKDAYS[Weekday(d)]
  {
    hide DayNumber;
  }

  /** A minute of a day of the calendar, on the clocks of the zone. */
  ghost predicate IsMinuteOf(now: int, s: Schedule, d: Date, hour: int, minute: int) {
    && FourDigitYear(d) && 0 <= hour < 24 && 0 <= minute < 60
    && var start := (DayNumber(d) - 719_528) * 86_400_000 + hour * 3_600_000 + minute * 60_000;
       start <= now + s.offset < start + 60_000
  }

  lemma MinuteOnTheClock(now: int, s: Schedule, d: Date, hour: int, minute: int)
    requires IsMinuteOf(now, s, d, hour, minute)
    ensures LocalMinute(now, s) == (DayNumber(d) - 719_528) * 1_440 + (hour * 60 + minute)
    ensures LocalMinute(now, s) / 1_440 == DayNumber(d) - 719_528 && LocalMinute(now, s) % 1_440 == hour * 60 + minute
    ensures DateOf(DayNumber(d) - 719_528) == d
  {
    NumberToDate(d);
    hide DayNumber, DateOf;
    SplitDay(LocalMinute(now, s), DayNumber(d) - 719_528, hour * 60 + minute);
  }

  lemma OpenDay(d: Date, s: Schedule)
    requires FourDigitYear(d) && DateOf(DayNumber(d) - 719_528) == d
    ensures IsOpenDay(DayNumber(d) - 719_528, s) <==>
      && WEEKDAYS[Weekday(d)] in s.days
      && Written(d) !in s.closedDates
      && !(s.skipHolidays && (IsHolidayOf(d, d.year) || IsHolidayOf(d, d.year + 1)))
  {
    DayIsNamed(d);
    KeyIsWritten(d);
    HolidayTestIsRight(d);
    hide DayNumber, DateOf, Weekday, DateKey, Written, IsUsFederalHoliday, IsHolidayOf, DayName;
  }

  /**
   When a moment is allowed: its weekday is named, its date is not closed, it is not a federal holiday
   while those are skipped, and its time lies in the window, which wraps around midnight when it
   ends before it starts and is the whole day when it starts as it ends.
   */
  lemma AllowedIff(now: int, s: Schedule, d: Date, hour: int, minute: int, startHour: int, startMinute: int,
                   endHour: int, endMinute: int)
    requires IsMinuteOf(now, s, d, hour, minute)
    requires StandsFor(s.startTime, startHour, startMinute, 6) && StandsFor(s.endTime, endHour, endMinute, 17)
    ensures IsAllowedAt(now, s) <==>
      && WEEKDAYS[Weekday(d)] in s.days
      && Written(d) !in s.closedDates
      && !(s.skipHolidays && (IsHolidayOf(d, d.year) || IsHolidayOf(d, d.year + 1)))
      && var t, a, b := hour * 60 + minute, startHour * 60 + startMinute, endHour * 60 + endMinute;
         a == b || (a < b && a <= t < b) || (b < a && (a <= t || t < b))
  {
    MinuteOnTheClock(now, s, d, hour, minute);
    OpenDay(d, s);
    SettingReads(s.startTime, startHour, startMinute, 6, DEFAULT_START);
    SettingReads(s.endTime, endHour, endMinute, 17, DEFAULT_END);
    hide DayNumber, DateOf, Weekday, Written, IsHolidayOf, TimeToMinutes, LocalMinute, IsOpenDay, StandsFor;
  }

  /** Every setting stands for some time, so the clause above is about every schedule. */
  lemma EverySettingStandsForATime(text: string, otherwise: int) returns (hour: int, minute: int)
    ensures StandsFor(text, hour, minute, otherwise)
  {
    if h, m :| Shows(text, h, m) {
      return h, m;
    }
    return otherwise, 0;
  }
}
