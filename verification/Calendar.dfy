/** The proleptic Gregorian calendar of years 1 to 9999, as far as the cron engine uses it:
    month lengths, weekdays, and the order of date-times both field by field and as tick counts. */
module Calendar {
  import opened Wrappers

  const MAX_YEAR := 9999
  const TICKS_PER_MINUTE := 600_000_000

  /** One whole Gregorian cycle: 400 years, which is a whole number of weeks. */
  const CYCLE_YEARS := 400
  const CYCLE_DAYS := 146097

  predicate IsLeapYear(y: int) {
    y % 4 == 0 && (y % 100 != 0 || y % 400 == 0)
  }

  function DaysInMonth(y: int, m: int): (days: int)
    requires 1 <= m <= 12
    ensures 28 <= days <= LongestMonth(m) <= 31
  {
    if m == 2 then (if IsLeapYear(y) then 29 else 28)
    else if m == 4 || m == 6 || m == 9 || m == 11 then 30
    else 31
  }

  /** The greatest length a month has in any year. */
  function LongestMonth(m: int): int {
    if m == 2 then 29 else if m == 4 || m == 6 || m == 9 || m == 11 then 30 else 31
  }

  /** Days from 0001-01-01 to the first day of year y. */
  function DaysBeforeYear(y: int): int {
    365 * (y - 1) + (y - 1) / 4 - (y - 1) / 100 + (y - 1) / 400
  }

  function DaysBeforeMonth(y: int, m: int): int
    requires 1 <= m <= 13
  {
    if m == 1 then 0 else DaysBeforeMonth(y, m - 1) + DaysInMonth(y, m - 1)
  }

  function DayNumber(y: int, m: int, d: int): int
    requires 1 <= m <= 12
  {
    DaysBeforeYear(y) + DaysBeforeMonth(y, m) + d - 1
  }

  /** Sunday is 0; 0001-01-01 was a Monday. */
  function Weekday(y: int, m: int, d: int): (w: int)
    requires 1 <= m <= 12
    ensures 0 <= w <= 6
  {
    (DayNumber(y, m, d) + 1) % 7
  }

  /** A date-time; tick counts the 100 ns units within the minute. */
  datatype DateTime = DateTime(year: int, month: int, day: int, hour: int, minute: int, tick: int) {
    predicate Valid() {
      && 1 <= year <= MAX_YEAR
      && 1 <= month <= 12
      && 1 <= day <= DaysInMonth(year, month)
      && 0 <= hour <= 23
      && 0 <= minute <= 59
      && 0 <= tick < TICKS_PER_MINUTE
    }
  }

  type Moment = t: DateTime | t.Valid() witness DateTime(1, 1, 1, 0, 0, 0)

  const MIN_VALUE: Moment := DateTime(1, 1, 1, 0, 0, 0)
  const MAX_VALUE: Moment := DateTime(9999, 12, 31, 23, 59, 599_999_999)

  /** Minutes and ticks since the start of the calendar. */
  function MinuteIndex(t: Moment): int {
    (DayNumber(t.year, t.month, t.day) * 24 + t.hour) * 60 + t.minute
  }

  function Ticks(t: Moment): int {
    MinuteIndex(t) * TICKS_PER_MINUTE + t.tick
  }

  predicate EarlierMonth(y: int, m: int, y': int, m': int) {
    y < y' || (y == y' && m < m')
  }

  predicate EarlierDate(y: int, m: int, d: int, y': int, m': int, d': int) {
    y < y' || (y == y' && (m < m' || (m == m' && d < d')))
  }

  predicate SameDate(a: Moment, b: Moment) {
    a.year == b.year && a.month == b.month && a.day == b.day
  }

  /** The order of moments, field by field; EarlierIsTickOrder relates it to tick counts. */
  predicate Earlier(a: Moment, b: Moment) {
    || EarlierDate(a.year, a.month, a.day, b.year, b.month, b.day)
    || (SameDate(a, b) &&
        (a.hour < b.hour || (a.hour == b.hour &&
                             (a.minute < b.minute || (a.minute == b.minute && a.tick < b.tick)))))
  }

  function EarliestOf(a: Moment, b: Moment): Moment {
    if Earlier(a, b) then a else b
  }

  // ----- Day counts

  lemma YearLength(y: int)
    ensures DaysBeforeYear(y + 1) == DaysBeforeYear(y) + (if IsLeapYear(y) then 366 else 365)
    ensures DaysBeforeMonth(y, 13) == (if IsLeapYear(y) then 366 else 365)
  {
    QuotientStep(y, 4);
    QuotientStep(y, 100);
    QuotientStep(y, 400);
    CenturyIsFourth(y);
    MonthTable(y);
  }

  /** A quotient grows by one at the multiples of the divisor. */
  lemma QuotientStep(y: int, d: int)
    requires d > 0
    ensures y / d == (y - 1) / d + (if y % d == 0 then 1 else 0)
  {
    var q, r := y / d, y % d;
    assert y == d * q + r;
    if r == 0 {
      assert y - 1 == d * (q - 1) + (d - 1);
      QuotientIs(y - 1, d, q - 1, d - 1);
    } else {
      QuotientIs(y - 1, d, q, r - 1);
    }
  }

  lemma QuotientIs(n: int, d: int, q: int, r: int)
    requires d > 0 && n == d * q + r && 0 <= r < d
    ensures n / d == q && n % d == r
  {
    var e := q - n / d;
    assert d * e == n % d - r;
    assert e >= 1 ==> d * e >= d;
    assert e <= -1 ==> d * e <= -d;
  }

  lemma CenturyIsFourth(y: int)
    ensures y % 100 == 0 ==> y % 4 == 0
    ensures y % 400 == 0 ==> y % 100 == 0
  {
  }

  lemma MonthTable(y: int)
    ensures var leap := if IsLeapYear(y) then 1 else 0;
            && DaysBeforeMonth(y, 1) == 0 && DaysBeforeMonth(y, 2) == 31
            && DaysBeforeMonth(y, 3) == 59 + leap && DaysBeforeMonth(y, 13) == 365 + leap
  {
    var leap := if IsLeapYear(y) then 1 else 0;
    assert DaysBeforeMonth(y, 2) == 31;
    assert DaysBeforeMonth(y, 3) == 59 + leap;
    assert DaysBeforeMonth(y, 5) == 120 + leap;
    assert DaysBeforeMonth(y, 7) == 181 + leap;
    assert DaysBeforeMonth(y, 9) == 243 + leap;
    assert DaysBeforeMonth(y, 11) == 304 + leap;
  }

  /** The month table in closed form: it fixes the length of every month of every year. */
  lemma {:induction false} MonthStarts(y: int, m: int)
    requires 1 <= m <= 13
    ensures DaysBeforeMonth(y, m) == (367 * m - 362) / 12 - (if m <= 2 then 0 else if IsLeapYear(y) then 1 else 2)
    decreases m
  {
    if m > 1 {
      MonthStarts(y, m - 1);
    }
  }

  /** The longest month is the month of any leap year. */
  lemma LongestMonthIsReached(y: int, m: int)
    requires 1 <= m <= 12 && IsLeapYear(y)
    ensures LongestMonth(m) == DaysInMonth(y, m)
  {
  }

  lemma {:induction false} MonthsMonotone(y: int, m: int, m': int)
    requires 1 <= m < m' <= 13
    ensures DaysBeforeMonth(y, m) + DaysInMonth(y, m) <= DaysBeforeMonth(y, m')
    decreases m'
  {
    if m + 1 < m' {
      MonthsMonotone(y, m, m' - 1);
    }
  }

  lemma {:induction false} YearsMonotone(y: int, y': int)
    requires y < y'
    ensures DaysBeforeYear(y + 1) <= DaysBeforeYear(y')
    decreases y' - y
  {
    if y + 1 < y' {
      YearsMonotone(y + 1, y');
      YearLength(y + 1);
    }
  }

  /** Day numbers follow the calendar order of dates. */
  lemma DayNumberMonotone(y: int, m: int, d: int, y': int, m': int, d': int)
    requires 1 <= m <= 12 && 1 <= d <= DaysInMonth(y, m)
    requires 1 <= m' <= 12 && 1 <= d' <= DaysInMonth(y', m')
    ensures EarlierDate(y, m, d, y', m', d') <==> DayNumber(y, m, d) < DayNumber(y', m', d')
  {
    if EarlierDate(y, m, d, y', m', d') {
      EarlierDateHasSmallerNumber(y, m, d, y', m', d');
    } else if EarlierDate(y', m', d', y, m, d) {
      EarlierDateHasSmallerNumber(y', m', d', y, m, d);
    }
  }

  lemma EarlierDateHasSmallerNumber(y: int, m: int, d: int, y': int, m': int, d': int)
    requires 1 <= m <= 12 && 1 <= d <= DaysInMonth(y, m)
    requires 1 <= m' <= 12 && 1 <= d' <= DaysInMonth(y', m')
    requires EarlierDate(y, m, d, y', m', d')
    ensures DayNumber(y, m, d) < DayNumber(y', m', d')
  {
    if y < y' {
      YearsMonotone(y, y');
      YearLength(y);
      MonthsMonotone(y, m, 13);
      if m' > 1 {
        MonthsMonotone(y', 1, m');
      }
    } else if m < m' {
      MonthsMonotone(y, m, m');
    }
  }

  /** The field-by-field order is the order of tick counts, so distinct moments have distinct counts. */
  lemma EarlierIsTickOrder(a: Moment, b: Moment)
    ensures Earlier(a, b) <==> Ticks(a) < Ticks(b)
    ensures Ticks(a) == Ticks(b) <==> a == b
  {
    DayNumberMonotone(a.year, a.month, a.day, b.year, b.month, b.day);
    DayNumberMonotone(b.year, b.month, b.day, a.year, a.month, a.day);
  }

  /** The order is total: what is not before b is not before anything earlier than b. */
  lemma EarlierChains(a: Moment, b: Moment, c: Moment)
    ensures Earlier(a, b) && !Earlier(c, b) ==> Earlier(a, c)
    ensures !Earlier(b, a) && Earlier(b, c) ==> Earlier(a, c)
    ensures !Earlier(b, a) && !Earlier(c, b) ==> !Earlier(c, a)
  {
    EarlierIsTickOrder(a, b);
    EarlierIsTickOrder(b, a);
    EarlierIsTickOrder(b, c);
    EarlierIsTickOrder(c, b);
    EarlierIsTickOrder(a, c);
    EarlierIsTickOrder(c, a);
  }

  lemma MinuteIndexMonotone(a: Moment, b: Moment)
    requires !Earlier(b, a)
    ensures MinuteIndex(a) <= MinuteIndex(b)
  {
    EarlierIsTickOrder(b, a);
  }

  // ----- The clock

  /** The start of the next minute, or None in the last minute of year 9999. */
  function NextMinute(t: Moment): (next: Option<Moment>)
  {
    if t.minute < 59 then Some(DateTime(t.year, t.month, t.day, t.hour, t.minute + 1, 0))
    else if t.hour < 23 then Some(DateTime(t.year, t.month, t.day, t.hour + 1, 0, 0))
    else if t.day < DaysInMonth(t.year, t.month) then Some(DateTime(t.year, t.month, t.day + 1, 0, 0, 0))
    else if t.month < 12 then Some(DateTime(t.year, t.month + 1, 1, 0, 0, 0))
    else if t.year < MAX_YEAR then Some(DateTime(t.year + 1, 1, 1, 0, 0, 0))
    else None
  }

  /** NextMinute advances the linear clock by exactly one minute, and skips no whole minute. */
  lemma NextMinuteAdvances(t: Moment)
    ensures NextMinute(t).Some? ==>
      var u := NextMinute(t).value;
      && u.tick == 0 && Earlier(t, u) && MinuteIndex(u) == MinuteIndex(t) + 1
      && forall v: Moment :: v.tick == 0 && Earlier(t, v) ==> v == u || Earlier(u, v)
    ensures NextMinute(t).None? ==> forall v: Moment :: v.tick == 0 ==> !Earlier(t, v)
  {
    if t.month == 12 {
      YearLength(t.year);
    }
  }

  // ----- Known dates

  /** 1900 and 2100 are common years, 2000 and 2024 are leap years. */
  lemma KnownYears()
    ensures !IsLeapYear(1900) && IsLeapYear(2000) && !IsLeapYear(2023) && IsLeapYear(2024) && !IsLeapYear(2100)
  {
  }

  /** The day of the week in closed form, on every date. */
  lemma WeekdayFormula(y: int, m: int, d: int)
    requires 1 <= m <= 12
    ensures var leapDays := (y - 1) / 4 - (y - 1) / 100 + (y - 1) / 400;
            var shortening := if m <= 2 then 0 else if IsLeapYear(y) then 1 else 2;
            Weekday(y, m, d) == (365 * (y - 1) + leapDays + (367 * m - 362) / 12 - shortening + d) % 7
  {
    MonthStarts(y, m);
  }

  /** The calendar starts on a Monday; 2000 started on a Saturday, and 2024 on a Monday. */
  lemma KnownNewYears()
    ensures Weekday(1, 1, 1) == 1 && Weekday(2000, 1, 1) == 6 && Weekday(2024, 1, 1) == 1
  {
    WeekdayFormula(1, 1, 1);
    WeekdayFormula(2000, 1, 1);
    WeekdayFormula(2024, 1, 1);
  }

  /** The leap day of 2024 was a Thursday, and the calendar ends on a Friday. */
  lemma KnownWeekdays(leapDay: Moment)
    requires leapDay == DateTime(2024, 2, 29, 0, 0, 0)
    ensures Weekday(leapDay.year, leapDay.month, leapDay.day) == 4
    ensures Weekday(MAX_VALUE.year, MAX_VALUE.month, MAX_VALUE.day) == 5
  {
    WeekdayFormula(leapDay.year, leapDay.month, leapDay.day);
    WeekdayFormula(MAX_VALUE.year, MAX_VALUE.month, MAX_VALUE.day);
  }

  /** The tick counts of the first and the last moment and of the start of 1970, as .NET gives them. */
  lemma KnownTicks()
    ensures Ticks(MIN_VALUE) == 0 && Ticks(MAX_VALUE) == 3_155_378_975_999_999_999
    ensures Ticks(DateTime(1970, 1, 1, 0, 0, 0)) == 621_355_968_000_000_000
  {
    MonthStarts(9999, 12);
  }

  /** The clock goes to the next day number, and to the next day of the week, exactly at midnight. */
  lemma MidnightIsNextDay(t: Moment)
    requires NextMinute(t).Some?
    ensures var u, w := NextMinute(t).value, Weekday(t.year, t.month, t.day);
            var midnight := u.hour == 0 && u.minute == 0;
            && DayNumber(u.year, u.month, u.day) == DayNumber(t.year, t.month, t.day) + (if midnight then 1 else 0)
            && Weekday(u.year, u.month, u.day) == if midnight then (w + 1) % 7 else w
  {
    NextMinuteAdvances(t);
    DayOneMinuteLater(t, NextMinute(t).value);
  }

  lemma DayOneMinuteLater(t: Moment, u: Moment)
    requires MinuteIndex(u) == MinuteIndex(t) + 1
    ensures var w := Weekday(t.year, t.month, t.day);
            var midnight := u.hour == 0 && u.minute == 0;
            && DayNumber(u.year, u.month, u.day) == DayNumber(t.year, t.month, t.day) + (if midnight then 1 else 0)
            && Weekday(u.year, u.month, u.day) == if midnight then (w + 1) % 7 else w
  {
    var n, n' := DayNumber(t.year, t.month, t.day), DayNumber(u.year, u.month, u.day);
    DayOfMinute(n, t.hour, t.minute, n', u.hour, u.minute);
    DayAfterDay(n + 1);
  }

  /** One minute later it is the same day, or the next one at midnight. */
  lemma DayOfMinute(n: int, hour: int, minute: int, n': int, hour': int, minute': int)
    requires 0 <= hour <= 23 && 0 <= minute <= 59 && 0 <= hour' <= 23 && 0 <= minute' <= 59
    requires (n' * 24 + hour') * 60 + minute' == (n * 24 + hour) * 60 + minute + 1
    ensures n' == n + if hour' == 0 && minute' == 0 then 1 else 0
  {
  }

  lemma DayAfterDay(n: int)
    ensures (n + 1) % 7 == (n % 7 + 1) % 7
  {
  }

  // ----- The 400-year cycle

  /** Four hundred years later the same date falls on the same weekday. */
  lemma CycleKeepsWeekday(y: int, m: int, d: int)
    requires 1 <= m <= 12
    ensures IsLeapYear(y + CYCLE_YEARS) == IsLeapYear(y)
    ensures DayNumber(y + CYCLE_YEARS, m, d) == DayNumber(y, m, d) + CYCLE_DAYS
    ensures Weekday(y + CYCLE_YEARS, m, d) == Weekday(y, m, d)
  {
    CycleLength(y);
    SameLeapSameMonths(y, y + CYCLE_YEARS, m);
    WholeWeeks(DayNumber(y, m, d) + 1, 20871);
  }

  lemma CycleLength(y: int)
    ensures DaysBeforeYear(y + CYCLE_YEARS) == DaysBeforeYear(y) + CYCLE_DAYS
    ensures IsLeapYear(y + CYCLE_YEARS) == IsLeapYear(y)
  {
    var x := y - 1;
    QuotientShift(x, 4, 100);
    QuotientShift(x, 100, 4);
    QuotientShift(x, 400, 1);
    QuotientShift(y, 4, 100);
    QuotientShift(y, 100, 4);
    QuotientShift(y, 400, 1);
  }

  lemma QuotientShift(x: int, d: int, k: int)
    requires d > 0
    ensures (x + d * k) / d == x / d + k && (x + d * k) % d == x % d
  {
    assert x + d * k == d * (x / d + k) + x % d by {
      assert x == d * (x / d) + x % d;
      assert d * (x / d + k) == d * (x / d) + d * k;
    }
    QuotientIs(x + d * k, d, x / d + k, x % d);
  }

  lemma WholeWeeks(n: int, weeks: int)
    ensures (n + 7 * weeks) % 7 == n % 7
  {
  }

  lemma {:induction false} SameLeapSameMonths(y: int, y': int, m: int)
    requires 1 <= m <= 13 && IsLeapYear(y) == IsLeapYear(y')
    ensures DaysBeforeMonth(y, m) == DaysBeforeMonth(y', m)
    decreases m
  {
    if m > 1 {
      SameLeapSameMonths(y, y', m - 1);
    }
  }
}
