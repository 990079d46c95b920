/** What a five-field schedule means on the calendar: the minutes it matches, the next one found by
    ticking a clock, and when there is one at all. The carrying search of CrontabSchedule is proved
    against these definitions. */
module Occurrence {
  import opened Wrappers
  import opened Calendar

  /** The five value sets of a schedule; Sunday is day of week 0. */
  datatype Schedule = Schedule(minutes: set<int>, hours: set<int>, days: set<int>,
                               months: set<int>, daysOfWeek: set<int>) {
    /** What parsing guarantees: every field is non-empty and within its range. */
    ghost predicate Valid() {
      && (exists v :: v in minutes) && (exists v :: v in hours) && (exists v :: v in days)
      && (exists v :: v in months) && (exists v :: v in daysOfWeek)
      && (forall v <- minutes :: 0 <= v <= 59)
      && (forall v <- hours :: 0 <= v <= 23)
      && (forall v <- days :: 1 <= v <= 31)
      && (forall v <- months :: 1 <= v <= 12)
      && (forall v <- daysOfWeek :: 0 <= v <= 6)
    }
  }

  predicate FieldMatch(s: Schedule, t: Moment) {
    && t.tick == 0 && t.minute in s.minutes && t.hour in s.hours
    && t.day in s.days && t.month in s.months
  }

  /** Day of month and day of week must both allow the date. */
  predicate Matches(s: Schedule, t: Moment) {
    FieldMatch(s, t) && Weekday(t.year, t.month, t.day) in s.daysOfWeek
  }

  const LAST_MINUTE := MinuteIndex(MAX_VALUE)

  lemma WithinLastMinute(t: Moment)
    ensures MinuteIndex(t) <= LAST_MINUTE
  {
    MinuteIndexMonotone(t, MAX_VALUE);
  }

  /** The reference search: tick the clock minute by minute until a minute matches. */
  function NextMatch(s: Schedule, t: Moment): (next: Option<Moment>)
    decreases LAST_MINUTE - MinuteIndex(t)
  {
    match NextMinute(t)
    case None => None
    case Some(u) =>
      NextMinuteAdvances(t);
      WithinLastMinute(u);
      if Matches(s, u) then Some(u) else NextMatch(s, u)
  }

  /** NextMatch is the earliest matching minute after t, and None says that the calendar has none. */
  lemma {:induction false} NextMatchIsEarliest(s: Schedule, t: Moment)
    ensures NextMatch(s, t).Some? ==>
      var n := NextMatch(s, t).value;
      && Matches(s, n) && Earlier(t, n)
      && forall v: Moment :: Matches(s, v) && Earlier(t, v) ==> !Earlier(v, n)
    ensures NextMatch(s, t).None? ==> forall v: Moment :: Matches(s, v) ==> !Earlier(t, v)
    decreases LAST_MINUTE - MinuteIndex(t)
  {
    if NextMinute(t).Some? {
      var u := NextMinute(t).value;
      MatchesAfterMinute(s, t, u);
      WithinLastMinute(u);
      if !Matches(s, u) {
        NextMatchIsEarliest(s, u);
        assert NextMatch(s, t) == NextMatch(s, u);
      }
    } else {
      NextMinuteAdvances(t);
    }
  }

  /** Every match after t is the next minute or after it. */
  lemma MatchesAfterMinute(s: Schedule, t: Moment, u: Moment)
    requires NextMinute(t) == Some(u)
    ensures Earlier(t, u) && MinuteIndex(t) < MinuteIndex(u)
    ensures forall v: Moment :: Matches(s, v) && Earlier(t, v) ==> !Earlier(v, u) && (v == u || Earlier(u, v))
  {
    NextMinuteAdvances(t);
    forall v: Moment | Matches(s, v) && Earlier(t, v) ensures !Earlier(v, u) && (v == u || Earlier(u, v)) {
      EarlierIsTickOrder(u, v);
      EarlierIsTickOrder(v, u);
    }
  }

  /** The earliest match is the only moment with its property. */
  lemma NextMatchIs(s: Schedule, t: Moment, n: Moment)
    requires Matches(s, n) && Earlier(t, n)
    requires forall v: Moment :: Matches(s, v) && Earlier(t, v) ==> !Earlier(v, n)
    ensures NextMatch(s, t) == Some(n)
  {
    NextMatchIsEarliest(s, t);
    var m := NextMatch(s, t).value;
    EarlierIsTickOrder(m, n);
    EarlierIsTickOrder(n, m);
  }

  /** Two starting points with the same matches after them have the same next match. */
  lemma NextMatchDependsOnLaterMatches(s: Schedule, t: Moment, t': Moment)
    requires forall v: Moment :: Matches(s, v) ==> (Earlier(t, v) <==> Earlier(t', v))
    ensures NextMatch(s, t) == NextMatch(s, t')
  {
    NextMatchIsEarliest(s, t);
    NextMatchIsEarliest(s, t');
    if NextMatch(s, t').Some? {
      NextMatchIs(s, t, NextMatch(s, t').value);
    }
  }

  // ----- The result of a search bounded by an end time

  /** A search returns a time, or fails because it leaves the calendar after year 9999. */
  datatype Outcome = At(time: Moment) | OutOfCalendar

  /** A minute that the four date and time fields allow, the first such on its day after base. */
  ghost predicate FirstOfDay(s: Schedule, base: Moment, t: Moment) {
    && FieldMatch(s, t) && Earlier(base, t)
    && forall v: Moment :: FieldMatch(s, v) && Earlier(base, v) && SameDate(v, t) ==> !Earlier(v, t)
  }

  /** Day d is the least allowed day that month m of year y is too short to have. */
  ghost predicate FirstMissingDay(s: Schedule, y: int, m: int, d: int)
    requires 1 <= m <= 12
  {
    d in s.days && d > DaysInMonth(y, m) && forall v <- s.days :: v > DaysInMonth(y, m) ==> d <= v
  }

  /** An allowed month is too short for some allowed day, and the first such day is, component by
      component, not before the end date. */
  ghost predicate ShortMonthPastEnd(s: Schedule, y: int, m: int, end: Moment) {
    && 1 <= m <= 12 && m in s.months
    && exists d :: FirstMissingDay(s, y, m, d) && y >= end.year && m >= end.month && d >= end.day
  }

  /** When no minute matches, the search still stops at the end time if it meets, from base on, a day
      that only the weekday rules out whose first allowed minute is not before the end, or a month that is too
      short for an allowed day and passes the component-wise comparison with the end date. */
  ghost predicate MeetsEnd(s: Schedule, base: Moment, end: Moment) {
    || (exists t: Moment :: FirstOfDay(s, base, t) && !Earlier(t, end))
    || (exists y: int, m: int ::
          !EarlierMonth(y, m, base.year, base.month) && y <= MAX_YEAR && ShortMonthPastEnd(s, y, m, end))
  }

  /** The outcome of searching from base up to end. */
  ghost function NextOccurrence(s: Schedule, base: Moment, end: Moment): Outcome {
    match NextMatch(s, base)
    case Some(n) => At(EarliestOf(n, end))
    case None => if MeetsEnd(s, base, end) then At(end) else OutOfCalendar
  }

  /** An occurrence is never after the end, and if it is not the end, it is the earliest match; it is that whenever
      there is a match before the end. */
  lemma OccurrenceIsEarliest(s: Schedule, base: Moment, end: Moment)
    ensures match NextOccurrence(s, base, end)
            case At(t) =>
              && !Earlier(end, t)
              && (t != end ==> Matches(s, t) && Earlier(base, t))
              && forall v: Moment :: Matches(s, v) && Earlier(base, v) ==> !Earlier(v, t)
            case OutOfCalendar => forall v: Moment :: Matches(s, v) ==> !Earlier(base, v)
  {
    NextMatchIsEarliest(s, base);
    if NextMatch(s, base).Some? {
      var n := NextMatch(s, base).value;
      forall v: Moment | Matches(s, v) && Earlier(base, v) ensures !Earlier(v, EarliestOf(n, end)) {
        EarlierChains(v, end, n);
        EarlierChains(v, n, end);
      }
    }
  }

  /** With the greatest date-time as end, the outcome is the next match, or leaving the calendar. */
  lemma UnboundedOccurrence(s: Schedule, base: Moment)
    requires s.Valid()
    ensures NextOccurrence(s, base, MAX_VALUE) ==
            match NextMatch(s, base) case Some(n) => At(n) case None => OutOfCalendar
  {
    NextMatchIsEarliest(s, base);
    forall t: Moment | FieldMatch(s, t) ensures Earlier(t, MAX_VALUE) {
      EarlierIsTickOrder(t, MAX_VALUE);
      EarlierIsTickOrder(MAX_VALUE, t);
    }
    forall y, m ensures s.Valid() ==> !ShortMonthPastEnd(s, y, m, MAX_VALUE) {
      // only December passes the comparison of months, and it has all 31 days
      assert m == 12 ==> DaysInMonth(y, m) == 31;
    }
  }

  // ----- Satisfiability

  /** Some allowed month can be long enough for some allowed day. */
  ghost predicate HasPossibleDate(s: Schedule) {
    exists m, d :: m in s.months && d in s.days && 1 <= m <= 12 && d <= LongestMonth(m)
  }

  /** A year in [y, y + 400) that is leap, and in which month m, day d has weekday w: among seven leap
      years four apart, each weekday comes up exactly once. */
  lemma YearWithWeekday(y: int, m: int, d: int, w: int) returns (year: int)
    requires 1 <= m <= 12 && 0 <= w <= 6
    ensures y <= year < y + CYCLE_YEARS && IsLeapYear(year) && Weekday(year, m, d) == w
  {
    var c := (y + 399) / 400 * 400;  // the century start in [y, y + 400)
    assert y <= c < y + 400 && c % 400 == 0;
    var j := LeapStepFor(c, m, d, w);
    if c + 4 * j < y + CYCLE_YEARS {
      year := c + 4 * j;
    } else {
      year := c + 4 * j - 400;
      CycleKeepsWeekday(year, m, d);
    }
  }

  lemma LeapStepFor(c: int, m: int, d: int, w: int) returns (j: int)
    requires c % 400 == 0 && 1 <= m <= 12 && 0 <= w <= 6
    ensures 1 <= j <= 7 && IsLeapYear(c + 4 * j) && Weekday(c + 4 * j, m, d) == w
  {
    var w0 := Weekday(c, m, d);
    j := 3 * (w - w0) % 7;  // 3 is the inverse of 5 modulo 7, and four years are 5 days past whole weeks
    if j == 0 { j := 7; }
    LeapStepDays(c, j, m, d);
    StepReaches(DayNumber(c, m, d) + 1, j, w);
  }

  lemma LeapStepDays(c: int, j: int, m: int, d: int)
    requires c % 400 == 0 && 1 <= j <= 7 && 1 <= m <= 12
    ensures IsLeapYear(c + 4 * j)
    ensures DayNumber(c + 4 * j, m, d) == DayNumber(c, m, d) + 1461 * j
  {
    LeapSteps(c, j);
    FourYearSteps(c, j);
    SameLeapSameMonths(c, c + 4 * j, m);
  }

  lemma LeapSteps(c: int, j: int)
    requires c % 400 == 0 && 1 <= j <= 7
    ensures IsLeapYear(c) && IsLeapYear(c + 4 * j)
  {
    var q := c / 400;
    assert c == 100 * (4 * q) && c == 4 * (100 * q);
    assert (c + 4 * j) / 100 == 4 * q;
  }

  lemma StepReaches(n: int, j: int, w: int)
    requires 0 <= w <= 6 && 1 <= j <= 7
    requires j % 7 == 3 * (w - n % 7) % 7
    ensures (n + 1461 * j) % 7 == w
  {
    var r := n % 7;
    assert n == 7 * (n / 7) + r;
    assert 0 <= r <= 6;
    assert (r + 1461 * j) % 7 == w;
    WholeWeeks(r + 1461 * j, n / 7);
  }

  /** From a leap year that starts a 400-year cycle, each of the next seven 4-year steps has 1461 days. */
  lemma FourYearSteps(c: int, j: int)
    requires c % 400 == 0 && 0 <= j <= 7
    ensures DaysBeforeYear(c + 4 * j) == DaysBeforeYear(c) + 1461 * j
  {
    var x := c - 1;
    var q := c / 400;
    assert c == 400 * q;
    assert x / 4 == 100 * q - 1 && x / 100 == 4 * q - 1 && x / 400 == q - 1;
    if j > 0 {
      var z := c + 4 * j - 1;
      assert z / 4 == 100 * q + j - 1 && z / 100 == 4 * q && z / 400 == q;
    }
  }

  /** Every weekday is reached: a possible date gives a match in the 400 years after any base year up to 9599. */
  lemma PossibleDateRecurs(s: Schedule, base: Moment) returns (t: Moment)
    requires s.Valid() && HasPossibleDate(s) && base.year + CYCLE_YEARS <= MAX_YEAR
    ensures Matches(s, t) && Earlier(base, t)
    ensures MinuteIndex(t) <= MinuteIndex(base) + CYCLE_DAYS * 24 * 60
  {
    var m, d :| m in s.months && d in s.days && 1 <= m <= 12 && d <= LongestMonth(m);
    var w :| w in s.daysOfWeek;
    var h :| h in s.hours;
    var mi :| mi in s.minutes;
    var y := YearWithWeekday(base.year, m, d, w);
    assert DaysInMonth(y, m) == LongestMonth(m);
    t := DateTime(y, m, d, h, mi, 0);
    if Earlier(base, t) {
      CycleLater(base);
      MinuteIndexMonotone(t, base.(year := base.year + CYCLE_YEARS));
    } else {
      MinuteIndexMonotone(t, base);
      CycleLater(t);
      t := t.(year := t.year + CYCLE_YEARS);
    }
  }

  lemma CycleLater(t: Moment)
    requires t.year + CYCLE_YEARS <= MAX_YEAR
    ensures var u := t.(year := t.year + CYCLE_YEARS);
            && u.Valid() && MinuteIndex(u) == MinuteIndex(t) + CYCLE_DAYS * 24 * 60
            && Weekday(u.year, u.month, u.day) == Weekday(t.year, t.month, t.day)
  {
    CycleKeepsWeekday(t.year, t.month, t.day);
  }

  /** For base years up to 9599, searching without an end finds a match exactly when some allowed month
      can have some allowed day, whatever the weekdays, and then within one 400-year cycle; otherwise
      the search leaves the calendar. */
  lemma SatisfiableIffPossibleDate(s: Schedule, base: Moment)
    requires s.Valid() && base.year + CYCLE_YEARS <= MAX_YEAR
    ensures NextOccurrence(s, base, MAX_VALUE).At? <==> HasPossibleDate(s)
    ensures HasPossibleDate(s) ==>
      && NextMatch(s, base).Some?
      && NextOccurrence(s, base, MAX_VALUE) == At(NextMatch(s, base).value)
      && MinuteIndex(NextMatch(s, base).value) <= MinuteIndex(base) + CYCLE_DAYS * 24 * 60
  {
    UnboundedOccurrence(s, base);
    NextMatchIsEarliest(s, base);
    if HasPossibleDate(s) {
      var t := PossibleDateRecurs(s, base);
      MinuteIndexMonotone(NextMatch(s, base).value, t);
    }
  }
}
