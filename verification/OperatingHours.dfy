/** When a mailbox may next be synced: the search for the next allowed minute, in a zone of fixed offset. */
module OperatingHours {
  import opened CivilDates
  import opened Holidays
  import opened Seqs
  import opened Text

  datatype Schedule = Schedule(
    enabled: bool,
    offset: int,                // of the zone, in milliseconds
    days: seq<string>,
    startTime: string,
    endTime: string,
    skipHolidays: bool,
    closedDates: seq<string>)

  const MINUTE := 60_000
  const MINUTES_PER_DAY := 1_440
  const LAST_OFFSET := 532_800  // 370 days

  const DEFAULT_START := "06:00"
  const DEFAULT_END := "17:00"

  // ----- Clock times -----

  predicate IsClockTime(s: string) {
    && |s| == 5 && s[2] == ':'
    && ((s[0] in {'0', '1'} && IsDigit(s[1])) || (s[0] == '2' && s[1] in {'0', '1', '2', '3'}))
    && '0' <= s[3] <= '5' && IsDigit(s[4])
  }

  function ClockMinutes(s: string): nat
    requires IsClockTime(s)
  {
    (DigitValue(s[0]) * 10 + DigitValue(s[1])) * 60 + DigitValue(s[3]) * 10 + DigitValue(s[4])
  }

  function TimeToMinutes(value: string, fallback: string): (m: nat)
    ensures m < MINUTES_PER_DAY
  {
    if IsClockTime(value) then ClockMinutes(value)
    else if IsClockTime(fallback) then ClockMinutes(fallback)
    else 0
  }

  function DayName(weekday: int): string {
    if weekday == 0 then "SUNDAY" else if weekday == 1 then "MONDAY" else if weekday == 2 then "TUESDAY"
    else if weekday == 3 then "WEDNESDAY" else if weekday == 4 then "THURSDAY" else if weekday == 5 then "FRIDAY"
    else "SATURDAY"
  }

  // ----- Is a moment allowed? -----

  /** Minutes since the epoch on the clocks of the zone. */
  function LocalMinute(now: int, s: Schedule): int {
    (now + s.offset) / MINUTE
  }

  /**
   The day's part of the test; days are counted from the epoch. In four-digit years the
   zone's own date text is this key.
   */
  predicate IsOpenDay(day: int, s: Schedule) {
    var date := DateOf(day);
    && DayName(Weekday(date)) in s.days
    && DateKey(date) !in s.closedDates
    && (s.skipHolidays ==> !IsUsFederalHoliday(DateKey(date)))
  }

  /** The clock's part; a window whose end is before its start wraps around midnight. */
  predicate InWindow(minutes: int, s: Schedule) {
    var start, end := TimeToMinutes(s.startTime, DEFAULT_START), TimeToMinutes(s.endTime, DEFAULT_END);
    start == end || (if start <= end then start <= minutes < end else start <= minutes || minutes < end)
  }

  predicate AllowedMinute(minute: int, s: Schedule) {
    IsOpenDay(minute / MINUTES_PER_DAY, s) && InWindow(minute % MINUTES_PER_DAY, s)
  }

  predicate IsAllowedAt(now: int, s: Schedule) {
    AllowedMinute(LocalMinute(now, s), s)
  }

  // ----- The search -----

  predicate LeastOffset(now: int, s: Schedule, k: int) {
    && 1 <= k <= LAST_OFFSET && IsAllowedAt(now + k * MINUTE, s)
    && forall j | 1 <= j < k :: !IsAllowedAt(now + j * MINUTE, s)
  }

  /**
   Now, if that is allowed; else the first allowed minute of the next 370 days; else an
   hour from now, although no sync is allowed then.
   */
  method NextAllowedEmailSyncAt(now: int, s: Schedule) returns (at: int)
    ensures !s.enabled || IsAllowedAt(now, s) ==> at == now
    ensures s.enabled && !IsAllowedAt(now, s) ==>
      || (exists k :: LeastOffset(now, s, k) && at == now + k * 60_000 && IsAllowedAt(at, s)
            && forall j | 1 <= j < k :: !IsAllowedAt(now + j * 60_000, s))
      || (at == now + 3_600_000 && !IsAllowedAt(at, s)
          && forall k | 1 <= k <= 370 * 24 * 60 :: !IsAllowedAt(now + k * 60_000, s))
  {
    hide IsAllowedAt;
    if !s.enabled || IsAllowedAt(now, s) { return now; }
    var offsetMinutes := 1;
    while offsetMinutes <= LAST_OFFSET
      invariant 1 <= offsetMinutes <= LAST_OFFSET + 1
      invariant forall k | 1 <= k < offsetMinutes :: !IsAllowedAt(now + k * MINUTE, s)
    {
      var candidate := now + offsetMinutes * MINUTE;
      if IsAllowedAt(candidate, s) {
        assert LeastOffset(now, s, offsetMinutes);
        return candidate;
      }
      offsetMinutes := offsetMinutes + 1;
    }
    return now + 60 * MINUTE;
  }

  lemma MinuteLater(now: int, s: Schedule, k: int)
    ensures LocalMinute(now + k * MINUTE, s) == LocalMinute(now, s) + k
  {
    assert now + k * MINUTE + s.offset == (now + s.offset) + k * MINUTE;
  }

  lemma {:induction false} LeastExists(now: int, s: Schedule, k: int, from: int)
    requires 1 <= from <= k <= LAST_OFFSET && IsAllowedAt(now + k * MINUTE, s)
    requires forall j | 1 <= j < from :: !IsAllowedAt(now + j * MINUTE, s)
    ensures exists l | from <= l <= k :: LeastOffset(now, s, l)
    decreases k - from
  {
    hide IsAllowedAt;
    if IsAllowedAt(now + from * MINUTE, s) {
      assert LeastOffset(now, s, from);
    } else {
      LeastExists(now, s, k, from + 1);
    }
  }

  // ----- A plain week -----

  predicate NamesADay(s: Schedule, weekday: int) {
    0 <= weekday < 7 && DayName(weekday) in s.days
  }

  lemma StartIsInWindow(s: Schedule)
    ensures InWindow(TimeToMinutes(s.startTime, DEFAULT_START), s)
  {
  }

  lemma WeekdayOfEpochDay(day: int)
    ensures Weekday(DateOf(day)) == (day + 4) % 7
  {
    hide DayNumber, DateOf;
    DateOfNumber(day);
    assert EPOCH_DAY + day + 6 == 7 * 102_790 + (day + 4);
    assert Weekday(DateOf(day)) == (EPOCH_DAY + day + 6) % 7;
  }

  /** The opening minute of the first day with a given weekday after `minute`: within a week. */
  function MinutesToOpening(minute: int, weekday: int, start: int): (k: int)
    ensures 1 <= k <= 10_080
  {
    (((weekday + 3) % 7) * MINUTES_PER_DAY + start - minute - 1) % 10_080 + 1
  }

  lemma OpeningMinute(minute: int, weekday: int, start: int)
    requires 0 <= weekday < 7 && 0 <= start < MINUTES_PER_DAY
    ensures
      var m := minute + MinutesToOpening(minute, weekday, start);
      m % MINUTES_PER_DAY == start && (m / MINUTES_PER_DAY + 4) % 7 == weekday
      && (MinutesToOpening(minute, weekday, start) == 10_080 ==>
            minute % MINUTES_PER_DAY == start && (minute / MINUTES_PER_DAY + 4) % 7 == weekday)
  {
    var target := ((weekday + 3) % 7) * MINUTES_PER_DAY + start;
    var m := minute + MinutesToOpening(minute, weekday, start);
    var weeks := (target - minute - 1) / 10_080;
    assert m == target - 10_080 * weeks;
    SplitWeek(m, -weeks, (weekday + 3) % 7, start);
    if MinutesToOpening(minute, weekday, start) == 10_080 {
      SplitWeek(minute, -weeks - 1, (weekday + 3) % 7, start);
    }
  }

  lemma SplitWeek(m: int, weeks: int, day: int, minute: int)
    requires 0 <= day < 7 && 0 <= minute < MINUTES_PER_DAY
    requires m == 10_080 * weeks + day * MINUTES_PER_DAY + minute
    ensures m % MINUTES_PER_DAY == minute && m / MINUTES_PER_DAY == 7 * weeks + day
    ensures (m / MINUTES_PER_DAY + 4) % 7 == (day + 4) % 7
  {
    SplitDay(m, 7 * weeks + day, minute);
    SplitSeven(weeks, day + 4);
  }

  lemma SplitDay(m: int, day: int, minute: int)
    requires 0 <= minute < MINUTES_PER_DAY && m == day * MINUTES_PER_DAY + minute
    ensures m / MINUTES_PER_DAY == day && m % MINUTES_PER_DAY == minute
  {
  }

  lemma SplitSeven(weeks: int, x: int)
    ensures (7 * weeks + x) % 7 == x % 7
  {
  }

  /**
   With one day of the week named, no closed dates and holidays not skipped, the wait is
   shorter than a week, even for windows that wrap around midnight; so the search never
   gives up.
   */
  lemma WaitIsShorterThanAWeek(now: int, s: Schedule, weekday: int)
    requires NamesADay(s, weekday) && s.closedDates == [] && !s.skipHolidays && !IsAllowedAt(now, s)
    ensures exists k | 1 <= k < 10_080 :: LeastOffset(now, s, k)
  {
    var minute, start := LocalMinute(now, s), TimeToMinutes(s.startTime, DEFAULT_START);
    var k := MinutesToOpening(minute, weekday, start);
    hide TimeToMinutes, MinutesToOpening, DateOf, Weekday, LocalMinute, InWindow;
    OpeningMinute(minute, weekday, start);
    StartIsInWindow(s);
    WeekdayOfEpochDay(minute / MINUTES_PER_DAY);
    WeekdayOfEpochDay((minute + k) / MINUTES_PER_DAY);
    MinuteLater(now, s, k);
    assert IsAllowedAt(now + k * MINUTE, s);
    LeastExists(now, s, k, 1);
  }

  // ----- Closed dates and holidays -----

  /** The day and the minute of the day of a moment. */
  function Today(now: int, s: Schedule): int {
    LocalMinute(now, s) / MINUTES_PER_DAY
  }

  function MinuteOfDay(now: int, s: Schedule): int {
    LocalMinute(now, s) % MINUTES_PER_DAY
  }

  lemma AllowedOnDay(now: int, s: Schedule, day: int, minute: int)
    requires IsOpenDay(day, s) && 0 <= minute < MINUTES_PER_DAY && InWindow(minute, s)
    requires 1 <= day * MINUTES_PER_DAY + minute - LocalMinute(now, s) <= LAST_OFFSET
    ensures exists k :: LeastOffset(now, s, k)
  {
    hide IsOpenDay, InWindow, LocalMinute;
    var k := day * MINUTES_PER_DAY + minute - LocalMinute(now, s);
    SplitDay(LocalMinute(now, s) + k, day, minute);
    MinuteLater(now, s, k);
    assert IsAllowedAt(now + k * MINUTE, s);
    LeastExists(now, s, k, 1);
  }

  lemma OpenDayIsReachable(now: int, s: Schedule, day: int)
    requires IsOpenDay(day, s) && Today(now, s) < day < Today(now, s) + 370
    ensures exists k :: LeastOffset(now, s, k)
  {
    hide IsOpenDay, InWindow, LocalMinute;
    StartIsInWindow(s);
    AllowedOnDay(now, s, day, TimeToMinutes(s.startTime, DEFAULT_START));
  }

  /** An open day lies strictly between today and the 370th day after it. */
  ghost predicate OpenDayBetween(now: int, s: Schedule) {
    exists day | Today(now, s) < day < Today(now, s) + 370 :: IsOpenDay(day, s)
  }

  /** Today is open, and the window has minutes left. */
  ghost predicate OpensLaterToday(now: int, s: Schedule) {
    IsOpenDay(Today(now, s), s) && exists minute | MinuteOfDay(now, s) < minute < MINUTES_PER_DAY :: InWindow(minute, s)
  }

  /** The last day searched is open, and the window has minutes no later in the day than now. */
  ghost predicate OpensOnTheLastDay(now: int, s: Schedule) {
    IsOpenDay(Today(now, s) + 370, s) && exists minute | 0 <= minute <= MinuteOfDay(now, s) :: InWindow(minute, s)
  }

  lemma AllowedOffsetHasItsDay(now: int, s: Schedule, k: int)
    requires 1 <= k <= LAST_OFFSET && IsAllowedAt(now + k * MINUTE, s)
    ensures OpenDayBetween(now, s) || OpensLaterToday(now, s) || OpensOnTheLastDay(now, s)
  {
    hide IsOpenDay, InWindow, LocalMinute;
    MinuteLater(now, s, k);
    var m := LocalMinute(now, s) + k;
    var day, minute := m / MINUTES_PER_DAY, m % MINUTES_PER_DAY;
    assert IsOpenDay(day, s) && InWindow(minute, s);
    assert Today(now, s) <= day <= Today(now, s) + 370;
    if day == Today(now, s) {
      assert MinuteOfDay(now, s) < minute;
    } else if day == Today(now, s) + 370 {
      assert minute <= MinuteOfDay(now, s);
    }
  }

  lemma OpenDayIsEnough(now: int, s: Schedule)
    requires OpenDayBetween(now, s)
    ensures exists k :: LeastOffset(now, s, k)
  {
    hide IsOpenDay, LocalMinute, LeastOffset;
    var day :| Today(now, s) < day < Today(now, s) + 370 && IsOpenDay(day, s);
    OpenDayIsReachable(now, s, day);
  }

  lemma LaterTodayIsEnough(now: int, s: Schedule)
    requires OpensLaterToday(now, s)
    ensures exists k :: LeastOffset(now, s, k)
  {
    hide IsOpenDay, InWindow, LocalMinute, LeastOffset;
    var minute :| MinuteOfDay(now, s) < minute < MINUTES_PER_DAY && InWindow(minute, s);
    AllowedOnDay(now, s, Today(now, s), minute);
  }

  lemma LastDayIsEnough(now: int, s: Schedule)
    requires OpensOnTheLastDay(now, s)
    ensures exists k :: LeastOffset(now, s, k)
  {
    hide IsOpenDay, InWindow, LocalMinute, LeastOffset;
    var minute :| 0 <= minute <= MinuteOfDay(now, s) && InWindow(minute, s);
    AllowedOnDay(now, s, Today(now, s) + 370, minute);
  }

  lemma LeastOffsetIsAllowed(now: int, s: Schedule, k: int)
    requires LeastOffset(now, s, k)
    ensures 1 <= k <= LAST_OFFSET && IsAllowedAt(now + k * MINUTE, s)
  {
    hide IsAllowedAt;
  }

  /**
   Exactly when the search succeeds, whatever is closed; otherwise it gives up, and the
   answer is an hour from now. That minute was searched too, so it is never allowed.
   */
  lemma SearchSucceedsIff(now: int, s: Schedule)
    ensures (exists k :: LeastOffset(now, s, k)) <==>
      OpenDayBetween(now, s) || OpensLaterToday(now, s) || OpensOnTheLastDay(now, s)
  {
    hide IsAllowedAt, LeastOffset, OpenDayBetween, OpensLaterToday, OpensOnTheLastDay;
    if exists k :: LeastOffset(now, s, k) {
      var k :| LeastOffset(now, s, k);
      LeastOffsetIsAllowed(now, s, k);
      AllowedOffsetHasItsDay(now, s, k);
    }
    if OpenDayBetween(now, s) {
      OpenDayIsEnough(now, s);
    } else if OpensLaterToday(now, s) {
      LaterTodayIsEnough(now, s);
    } else if OpensOnTheLastDay(now, s) {
      LastDayIsEnough(now, s);
    }
  }

  /** The keys of a number of days in a row, as the settings list closed dates. */
  function DayKeys(first: int, count: nat): seq<string> {
    seq(count, i requires 0 <= i < count => DateKey(DateOf(first + i)))
  }

  /** With today and the 370 days after it closed, the search gives up. */
  lemma ClosedForAYearItGivesUp(now: int, offset: int)
    ensures
      var today := (now + offset) / MINUTE / MINUTES_PER_DAY;
      var s := Schedule(true, offset, ["MONDAY"], DEFAULT_START, DEFAULT_END, false, DayKeys(today, 371));
      NamesADay(s, MONDAY) && !IsAllowedAt(now, s) && !exists k :: LeastOffset(now, s, k)
  {
    hide DateOf, DateKey, Weekday, InWindow, LeastOffset;
    var today := (now + offset) / MINUTE / MINUTES_PER_DAY;
    var s := Schedule(true, offset, ["MONDAY"], DEFAULT_START, DEFAULT_END, false, DayKeys(today, 371));
    forall day | today <= day <= today + 370 ensures !IsOpenDay(day, s) {
      assert s.closedDates[day - today] == DateKey(DateOf(day));
    }
    SearchSucceedsIff(now, s);
  }

  /** The first week of March and that of August have no holiday. */
  lemma NoHolidayInEarlyMarchOrAugust(d: Date)
    requires FourDigitYear(d) && d.month in {3, 8}
    ensures !IsUsFederalHoliday(DateKey(d))
  {
    hide IsUsFederalHoliday, DateKey, HolidayDates;
    ThreeYearsSuffice(d);
    if exists year :: d in HolidayDates(year) {
      var year :| d in HolidayDates(year);
      HolidayRange(year, d);
    }
  }

  /** One of the seven days from a day on has the weekday asked for. */
  lemma DayOfWeekFrom(day: int, weekday: int) returns (i: int)
    requires 0 <= weekday < 7
    ensures 0 <= i < 7 && (day + i + 4) % 7 == weekday
  {
    i := (weekday - day - 4) % 7;
    var q := (weekday - day - 4) / 7;
    assert day + i + 4 == weekday - 7 * q;
  }

  /** Of a week without holidays, the day with a named weekday is open. */
  lemma QuietWeekHasAnOpenDay(first: Date, s: Schedule, weekday: int) returns (day: int)
    requires NamesADay(s, weekday) && s.closedDates == []
    requires FourDigitYear(first) && first.month in {3, 8} && first.day == 1
    ensures 0 <= day - (DayNumber(first) - EPOCH_DAY) < 7 && IsOpenDay(day, s)
  {
    hide DayNumber, DateOf, IsUsFederalHoliday, DateKey, Weekday, DayName, Leap;
    var start := DayNumber(first) - EPOCH_DAY;
    var i := DayOfWeekFrom(start, weekday);
    var d := Date(first.year, first.month, 1 + i);
    DayInMonth(first, d);
    day := start + i;
    NumberToDate(d);
    WeekdayOfEpochDay(day);
    NoHolidayInEarlyMarchOrAugust(d);
  }

  lemma DayInMonth(first: Date, d: Date)
    requires first == d.(day := 1)
    ensures DayNumber(d) == DayNumber(first) + d.day - 1
  {
    hide DaysBeforeYear, DaysBeforeMonth;
  }

  /** From any date, the next first of August or of March is less than 363 days away. */
  lemma NextQuietWeek(d: Date) returns (first: Date)
    requires IsDate(d)
    ensures first == if d.month < 8 then Date(d.year, 8, 1) else Date(d.year + 1, 3, 1)
    ensures IsDate(first) && 0 < DayNumber(first) - DayNumber(d) <= 362
  {
    first := if d.month < 8 then Date(d.year, 8, 1) else Date(d.year + 1, 3, 1);
    YearLength(d.year);
    hide DaysBeforeYear;
  }

  /**
   Skipping federal holidays never makes the search give up: with one day of the week
   named and no closed dates, an allowed minute is always found, in all four-digit
   years but the last.
   */
  lemma HolidaysNeverExhaustTheSearch(now: int, s: Schedule, weekday: int)
    requires NamesADay(s, weekday) && s.closedDates == [] && !IsAllowedAt(now, s)
    requires 1000 <= DateOf(Today(now, s)).year < 9999
    ensures exists k :: LeastOffset(now, s, k)
  {
    var today := Today(now, s);
    DateOfNumber(today);
    hide DateOf, IsOpenDay, IsAllowedAt, DayNumber, LeastOffset, LocalMinute;
    var first := NextQuietWeek(DateOf(today));
    var day := QuietWeekHasAnOpenDay(first, s, weekday);
    OpenDayIsReachable(now, s, day);
  }

  // ----- A few closed dates -----

  const WEEKS := 52

  /** One day of each of the 52 weeks that begin tomorrow. */
  function OneADayAWeek(first: int): seq<string> {
    seq(WEEKS, i requires 0 <= i < WEEKS => DateKey(DateOf(first + 7 * i)))
  }

  lemma YearAhead(today: int, day: int)
    requires today <= day <= today + 365
    ensures DateOf(today).year <= DateOf(day).year <= DateOf(today).year + 1
  {
    hide DateOf, DaysBeforeYear, Leap;
    var d, e := DateOf(today), DateOf(day);
    DateOfNumber(today);
    DateOfNumber(day);
    DayOfYearBounds(d);
    DayOfYearBounds(e);
    YearLength(d.year);
    YearLength(e.year);
    hide DayNumber, IsDate;
    if e.year < d.year {
      YearsInOrder(e.year + 1, d.year);
    }
    if d.year + 1 < e.year {
      YearLength(d.year + 1);
      YearsInOrder(d.year + 2, e.year);
    }
  }

  lemma DaysHaveTheirOwnKeys(today: int, a: int, b: int)
    requires 0 <= DateOf(today).year < 9999 && today <= a < b <= today + 365
    ensures DateKey(DateOf(a)) != DateKey(DateOf(b))
  {
    hide DateOf, DateKey, IsDate, DayNumber;
    YearAhead(today, a);
    DateOfNumber(a);
    DateOfNumber(b);
    KeysAreInjective(DateOf(a), DateOf(b));
  }

  lemma WeeksHaveTheirOwnKeys(today: int, first: int)
    requires 0 <= DateOf(today).year < 9999 && today < first <= today + 7
    ensures NoDuplicates(OneADayAWeek(first))
  {
    hide DateOf, DateKey;
    forall i, j | 0 <= i < j < WEEKS ensures OneADayAWeek(first)[i] != OneADayAWeek(first)[j] {
      DaysHaveTheirOwnKeys(today, first + 7 * i, first + 7 * j);
    }
  }

  /**
   Fewer than 52 closed dates never make the search give up: with one day of the week named and
   holidays not skipped, some week of the next year has that day open.
   */
  lemma FewClosedDatesNeverExhaustTheSearch(now: int, s: Schedule, weekday: int)
    requires NamesADay(s, weekday) && |s.closedDates| < WEEKS && !s.skipHolidays
    requires 0 <= DateOf(Today(now, s)).year < 9999
    ensures exists k :: LeastOffset(now, s, k)
  {
    hide DateOf, DateKey, Weekday, IsOpenDay, OneADayAWeek, LeastOffset, LocalMinute, NoDuplicates;
    var today := Today(now, s);
    var shift := DayOfWeekFrom(today + 1, weekday);
    var first := today + 1 + shift;
    WeeksHaveTheirOwnKeys(today, first);
    var i := OneWeekIsOpen(s, first);
    var day := first + 7 * i;
    WeekdayOfEpochDay(day);
    SplitSeven(i, first + 4);
    NamedDayIsOpen(s, weekday, day);
    OpenDayIsReachable(now, s, day);
  }

  lemma NamedDayIsOpen(s: Schedule, weekday: int, day: int)
    requires NamesADay(s, weekday) && Weekday(DateOf(day)) == weekday
    requires !s.skipHolidays && DateKey(DateOf(day)) !in s.closedDates
    ensures IsOpenDay(day, s)
  {
    hide DateOf, DateKey, Weekday;
  }

  lemma OneWeekIsOpen(s: Schedule, first: int) returns (i: nat)
    requires NoDuplicates(OneADayAWeek(first)) && |s.closedDates| < WEEKS
    ensures i < WEEKS && DateKey(DateOf(first + 7 * i)) !in s.closedDates
  {
    hide DateOf, DateKey, NoDuplicates;
    var keys := OneADayAWeek(first);
    if forall x | x in keys :: x in s.closedDates {
      NoMoreThan(keys, s.closedDates);
    }
    var x :| x in keys && x !in s.closedDates;
    i :| 0 <= i < WEEKS && keys[i] == x;
  }

  lemma DayNamesDiffer(a: int, b: int)
    requires 0 <= a < 7 && 0 <= b < 7 && DayName(a) == DayName(b)
    ensures a == b
  {
    assert DayName(a)[0] == DayName(b)[0] && DayName(a)[1] == DayName(b)[1];
  }

  lemma SameWeekdayLater(today: int, day: int)
    requires today <= day <= today + 370 && (day + 4) % 7 == (today + 4) % 7
    ensures day == today || exists i | 0 <= i < WEEKS :: day == today + 7 + 7 * i
  {
    var q := (day - today) / 7;
    assert day - today == 7 * q;
    assert day == today || day == today + 7 + 7 * (q - 1);
  }

  lemma OnlyNamedDaysOpen(s: Schedule, weekday: int, day: int)
    requires 0 <= weekday < 7 && s.days == [DayName(weekday)] && IsOpenDay(day, s)
    ensures (day + 4) % 7 == weekday
  {
    hide DateOf, DateKey, DayName;
    WeekdayOfEpochDay(day);
    DayNamesDiffer(Weekday(DateOf(day)), weekday);
  }

  /** And 52 can: those of the one day of the week that is named, once today's window is over. */
  lemma FiftyTwoClosedDatesCan(now: int, s: Schedule, weekday: int)
    requires 0 <= weekday < 7 && s.days == [DayName(weekday)] && Weekday(DateOf(Today(now, s))) == weekday
    requires s.closedDates == OneADayAWeek(Today(now, s) + 7)
    requires TimeToMinutes(s.startTime, DEFAULT_START) < TimeToMinutes(s.endTime, DEFAULT_END) <= MinuteOfDay(now, s)
    ensures !exists k :: LeastOffset(now, s, k)
  {
    hide DateOf, DateKey, IsOpenDay, Weekday, DayName, LeastOffset, LocalMinute, TimeToMinutes;
    var today := Today(now, s);
    WeekdayOfEpochDay(today);
    forall day | today < day <= today + 370 ensures !IsOpenDay(day, s) {
      if IsOpenDay(day, s) {
        OnlyNamedDaysOpen(s, weekday, day);
        SameWeekdayLater(today, day);
        var i :| 0 <= i < WEEKS && day == today + 7 + 7 * i;
        ClosedDayIsNotOpen(s, i, day);
      }
    }
    SearchSucceedsIff(now, s);
  }

  lemma ClosedDayIsNotOpen(s: Schedule, i: nat, day: int)
    requires i < |s.closedDates| && s.closedDates[i] == DateKey(DateOf(day))
    ensures !IsOpenDay(day, s)
  {
    hide DateOf, DateKey, Weekday;
  }
}
