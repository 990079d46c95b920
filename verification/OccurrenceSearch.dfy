/** What the carrying search knows at each point, and why each of its exits gives the outcome that the
    reference search defines. A slot is a year, month, day, hour and minute whose day the month may lack. */
module OccurrenceSearch {
  import opened Wrappers
  import opened Calendar
  import opened Occurrence
  import opened FieldText

  predicate EarlierTime(h: int, mi: int, h': int, mi': int) {
    h < h' || (h == h' && mi < mi')
  }

  predicate EarlierSlot(y: int, m: int, d: int, h: int, mi: int, u: Moment) {
    || EarlierDate(y, m, d, u.year, u.month, u.day)
    || (y == u.year && m == u.month && d == u.day && EarlierTime(h, mi, u.hour, u.minute))
  }

  predicate SlotNotAfter(y: int, m: int, d: int, h: int, mi: int, u: Moment) {
    EarlierSlot(y, m, d, h, mi, u) || (y == u.year && m == u.month && d == u.day && h == u.hour && mi == u.minute)
  }

  // ----- The time of day

  ghost predicate FirstTime(s: Schedule, hour: int, minute: int) {
    IsFirst(s.hours, hour) && IsFirst(s.minutes, minute)
  }

  /** The least allowed time after base's on base's day, or the first of the next day. */
  ghost predicate TimeFound(s: Schedule, base: Moment, day: int, hour: int, minute: int) {
    && hour in s.hours && minute in s.minutes
    && (|| (day == base.day && EarlierTime(base.hour, base.minute, hour, minute) &&
            forall h <- s.hours, mi <- s.minutes ::
              EarlierTime(base.hour, base.minute, h, mi) ==> !EarlierTime(h, mi, hour, minute))
        || (day == base.day + 1 && FirstTime(s, hour, minute) &&
            forall h <- s.hours, mi <- s.minutes :: !EarlierTime(base.hour, base.minute, h, mi)))
  }

  lemma HourOfBase(s: Schedule, base: Moment, nextMinute: int)
    requires base.hour in s.hours && IsNext(s.minutes, base.minute + 1, nextMinute) && nextMinute != -1
    ensures TimeFound(s, base, base.day, base.hour, nextMinute)
  {
  }

  /** The first minute of a later hour is found when no minute is left in base's hour. */
  lemma LaterHour(s: Schedule, base: Moment, hour: int, minute: int)
    requires IsNext(s.hours, base.hour + 1, hour) && hour != -1 && IsFirst(s.minutes, minute)
    requires base.hour in s.hours ==> forall v <- s.minutes :: v <= base.minute
    ensures TimeFound(s, base, base.day, hour, minute)
  {
  }

  lemma NextDay(s: Schedule, base: Moment, hour: int, minute: int)
    requires FirstTime(s, hour, minute) && forall v <- s.hours :: v <= base.hour
    requires base.hour in s.hours ==> forall v <- s.minutes :: v <= base.minute
    ensures TimeFound(s, base, base.day + 1, hour, minute)
  {
  }

  // ----- The date

  /** No allowed minute after base lies in this month or before. */
  ghost predicate NoneThroughMonth(s: Schedule, base: Moment, y: int, m: int) {
    forall u: Moment :: FieldMatch(s, u) && Earlier(base, u) ==> EarlierMonth(y, m, u.year, u.month)
  }

  /** The allowed minutes after base do not lie before day d of base's month, nor on base's day before the given
      time. */
  ghost predicate NoneBeforeDay(s: Schedule, base: Moment, d: int, h: int, mi: int) {
    forall u: Moment :: FieldMatch(s, u) && Earlier(base, u) ==>
      && !EarlierDate(u.year, u.month, u.day, base.year, base.month, d)
      && (SameDate(u, base) ==> d == base.day && !EarlierTime(u.hour, u.minute, h, mi))
  }

  /** On entry to the day and month steps: either the days of a month are exhausted, or this is the first
      time and the day is the least allowed one. */
  ghost predicate DayFound(s: Schedule, base: Moment, y: int, m: int, d: int, h: int, mi: int) {
    && 1 <= m <= 12 && h in s.hours && mi in s.minutes
    && !EarlierMonth(y, m, base.year, base.month)
    && if d == -1 then NoneThroughMonth(s, base, y, m)
       else
         && y == base.year && m == base.month && base.day <= d && d in s.days
         && (d == base.day ==> EarlierTime(base.hour, base.minute, h, mi))
         && (forall v <- s.days :: base.day < v ==> d <= v)
         && NoneBeforeDay(s, base, d, h, mi)
  }

  /** The slot is allowed by all four fields and lies after base; nothing allowed after base lies before it. */
  ghost predicate SlotFound(s: Schedule, base: Moment, y: int, m: int, d: int, h: int, mi: int) {
    && m in s.months && d in s.days && h in s.hours && mi in s.minutes && 1 <= m <= 12
    && !EarlierMonth(y, m, base.year, base.month)
    && BeforeSlot(base, y, m, d, h, mi)
    && (forall u: Moment :: FieldMatch(s, u) && Earlier(base, u) ==> SlotNotAfter(y, m, d, h, mi, u))
    && (forall v <- s.days :: v > DaysInMonth(y, m) ==> d <= v)
  }

  predicate BeforeSlot(base: Moment, y: int, m: int, d: int, h: int, mi: int) {
    || EarlierDate(base.year, base.month, base.day, y, m, d)
    || (base.year == y && base.month == m && base.day == d && EarlierTime(base.hour, base.minute, h, mi))
  }

  /** No month from base's on, up to and including the given one, is a short month past the end. */
  ghost predicate NoShortMonthThrough(s: Schedule, base: Moment, end: Moment, y: int, m: int) {
    forall y', m' :: !EarlierMonth(y', m', base.year, base.month) && !EarlierMonth(y, m, y', m') ==>
      !ShortMonthPastEnd(s, y', m', end)
  }

  ghost predicate NoShortMonthBefore(s: Schedule, base: Moment, end: Moment, y: int, m: int) {
    forall y', m' :: !EarlierMonth(y', m', base.year, base.month) && EarlierMonth(y', m', y, m) ==>
      !ShortMonthPastEnd(s, y', m', end)
  }

  /** The day step: the least allowed day not before start, if it is in range. */
  lemma DayIsFound(s: Schedule, base: Moment, start: int, h: int, mi: int, day: int)
    requires TimeFound(s, base, start, h, mi) && IsNext(s.days, start, day) && day != 0
    requires forall v <- s.days :: 1 <= v
    ensures day == -1 ==> NoneThroughMonth(s, base, base.year, base.month) && forall v <- s.days :: v <= base.day
    ensures DayFound(s, base, base.year, base.month, day, h, mi)
  {
    if day != -1 {
      assert NoneBeforeDay(s, base, day, h, mi);
    }
  }

  /** If base's month is not allowed at all, it is as good as exhausted. */
  lemma MonthNotAllowed(s: Schedule, base: Moment, end: Moment, d: int, h: int, mi: int)
    requires NoneBeforeDay(s, base, d, h, mi) && base.month !in s.months
    ensures NoneThroughMonth(s, base, base.year, base.month)
    ensures NoShortMonthThrough(s, base, end, base.year, base.month)
  {
  }

  /** Month (y', m') is the first allowed month after (y, m). */
  ghost predicate NextMonth(s: Schedule, y: int, m: int, y': int, m': int) {
    || (y' == y && m' != -1 && IsNext(s.months, m + 1, m'))
    || (y' == y + 1 && IsFirst(s.months, m') && forall v <- s.months :: v <= m)
  }

  /** In a month after an exhausted one, the search starts from the first day and time. */
  lemma FreshMonth(s: Schedule, base: Moment, end: Moment, y: int, m: int, y': int, m': int, d: int, h: int, mi: int)
    requires s.Valid() && 1 <= m <= 12 && !EarlierMonth(y, m, base.year, base.month)
    requires NoneThroughMonth(s, base, y, m) && NoShortMonthThrough(s, base, end, y, m)
    requires NextMonth(s, y, m, y', m') && IsFirst(s.days, d) && FirstTime(s, h, mi)
    ensures SlotFound(s, base, y', m', d, h, mi) && NoShortMonthBefore(s, base, end, y', m')
    ensures EarlierMonth(y, m, y', m')
  {
    forall u: Moment | FieldMatch(s, u) && Earlier(base, u) ensures SlotNotAfter(y', m', d, h, mi, u) {
      assert EarlierMonth(y, m, u.year, u.month);
      assert !EarlierMonth(u.year, u.month, y', m');
    }
  }

  /** In base's own month the slot is the day found, from the first time if that day is later than base's. */
  lemma SameMonth(s: Schedule, base: Moment, end: Moment, d: int, h: int, mi: int, h': int, mi': int)
    requires s.Valid() && d != -1 && base.month in s.months && DayFound(s, base, base.year, base.month, d, h, mi)
    requires if d > base.day then FirstTime(s, h', mi') else h' == h && mi' == mi
    ensures SlotFound(s, base, base.year, base.month, d, h', mi')
    ensures NoShortMonthBefore(s, base, end, base.year, base.month)
  {
  }

  /** If base's month has no allowed day left, it is not too short for any allowed day. */
  lemma ExhaustedMonthIsNotShort(s: Schedule, base: Moment, end: Moment)
    requires forall v <- s.days :: v <= base.day
    ensures NoShortMonthThrough(s, base, end, base.year, base.month)
  {
  }

  /** A month that lacks the found day has no minute for the search, and is now known not to pass the end. */
  lemma ShortMonthSkipped(s: Schedule, base: Moment, end: Moment, y: int, m: int, d: int, h: int, mi: int)
    requires SlotFound(s, base, y, m, d, h, mi) && NoShortMonthBefore(s, base, end, y, m)
    requires d > DaysInMonth(y, m) && !(y >= end.year && m >= end.month && d >= end.day)
    ensures NoneThroughMonth(s, base, y, m) && NoShortMonthThrough(s, base, end, y, m)
  {
    assert forall d' :: FirstMissingDay(s, y, m, d') ==> d' == d;
  }

  /** How the day step changes month, day and time. */
  ghost predicate DayEntered(s: Schedule, base: Moment, m: int, d: int, h: int, mi: int,
                             m': int, d': int, h': int, mi': int)
  {
    if d == -1 then m' == m + 1 && IsFirst(s.days, d') && FirstTime(s, h', mi')
    else m' == m && d' == d && if d > base.day then FirstTime(s, h', mi') else h' == h && mi' == mi
  }

  /** How the month step changes the slot. */
  ghost predicate MonthEntered(s: Schedule, base: Moment, y: int, m: int, d: int, h: int, mi: int,
                               y': int, m': int, d': int, h': int, mi': int)
  {
    || (y' == y && m' != -1 && IsNext(s.months, m, m') &&
        if m' > base.month then IsFirst(s.days, d') && FirstTime(s, h', mi') else d' == d && h' == h && mi' == mi)
    || (y' == y + 1 && IsFirst(s.months, m') && (forall v <- s.months :: v < m) &&
        IsFirst(s.days, d') && FirstTime(s, h', mi'))
  }

  /** The day and month steps together lead to the first slot allowed by all fields. */
  lemma SlotIsFound(s: Schedule, base: Moment, end: Moment, y: int, m: int, d: int, h: int, mi: int,
                    m1: int, d1: int, h1: int, mi1: int, y': int, m': int, d': int, h': int, mi': int)
    requires s.Valid() && DayFound(s, base, y, m, d, h, mi)
    requires d == -1 ==> NoShortMonthThrough(s, base, end, y, m)
    requires DayEntered(s, base, m, d, h, mi, m1, d1, h1, mi1)
    requires MonthEntered(s, base, y, m1, d1, h1, mi1, y', m', d', h', mi')
    ensures SlotFound(s, base, y', m', d', h', mi') && NoShortMonthBefore(s, base, end, y', m')
    ensures if d == -1 then EarlierMonth(y, m, y', m') else !EarlierMonth(y', m', y, m)
  {
    if d == -1 {
      FreshMonth(s, base, end, y, m, y', m', d', h', mi');
    } else if base.month in s.months {
      SameMonth(s, base, end, d, h, mi, h', mi');
    } else {
      MonthNotAllowed(s, base, end, d, h, mi);
      FreshMonth(s, base, end, y, m, y', m', d', h', mi');
    }
  }

  // ----- The exits

  lemma LeavesCalendar(s: Schedule, base: Moment, end: Moment, y: int, m: int, d: int, h: int, mi: int)
    requires SlotFound(s, base, y, m, d, h, mi) && NoShortMonthBefore(s, base, end, y, m) && y > MAX_YEAR
    ensures NextOccurrence(s, base, end) == OutOfCalendar
  {
    NextMatchIsEarliest(s, base);
    assert forall u: Moment :: FieldMatch(s, u) ==> !Earlier(base, u);
  }

  lemma StopsAtShortMonth(s: Schedule, base: Moment, end: Moment, y: int, m: int, d: int, h: int, mi: int)
    requires SlotFound(s, base, y, m, d, h, mi) && y <= MAX_YEAR
    requires d > DaysInMonth(y, m) && y >= end.year && m >= end.month && d >= end.day
    ensures NextOccurrence(s, base, end) == At(end)
  {
    NextMatchIsEarliest(s, base);
    assert FirstMissingDay(s, y, m, d);
    assert ShortMonthPastEnd(s, y, m, end);
  }

  lemma SlotIsMoment(s: Schedule, base: Moment, y: int, m: int, d: int, h: int, mi: int)
    requires s.Valid() && SlotFound(s, base, y, m, d, h, mi) && y <= MAX_YEAR
    requires d > 28 && (d != base.day || m != base.month || y != base.year) ==> d <= DaysInMonth(y, m)
    ensures DateTime(y, m, d, h, mi, 0).Valid()
  {
  }

  lemma SlotIsFirst(s: Schedule, base: Moment, t: Moment)
    requires SlotFound(s, base, t.year, t.month, t.day, t.hour, t.minute) && t.tick == 0
    ensures FieldMatch(s, t) && Earlier(base, t)
    ensures forall u: Moment :: FieldMatch(s, u) && Earlier(base, u) ==> !Earlier(u, t)
  {
  }

  lemma StopsAtEnd(s: Schedule, base: Moment, end: Moment, t: Moment)
    requires SlotFound(s, base, t.year, t.month, t.day, t.hour, t.minute) && t.tick == 0 && !Earlier(t, end)
    ensures NextOccurrence(s, base, end) == At(end)
  {
    SlotIsFirst(s, base, t);
    NextMatchIsEarliest(s, base);
    assert FirstOfDay(s, base, t);
  }

  lemma StopsAtMatch(s: Schedule, base: Moment, end: Moment, t: Moment)
    requires SlotFound(s, base, t.year, t.month, t.day, t.hour, t.minute) && t.tick == 0
    requires Matches(s, t) && Earlier(t, end)
    ensures NextOccurrence(s, base, end) == At(t)
  {
    SlotIsFirst(s, base, t);
    NextMatchIs(s, base, t);
  }

  /** A day ruled out by its weekday can be skipped as a whole. */
  lemma WeekdaySkipped(s: Schedule, base: Moment, end: Moment, t: Moment)
    requires SlotFound(s, base, t.year, t.month, t.day, t.hour, t.minute) && t.tick == 0
    requires NoShortMonthBefore(s, base, end, t.year, t.month)
    requires Weekday(t.year, t.month, t.day) !in s.daysOfWeek && Earlier(t, end)
    ensures var next := DateTime(t.year, t.month, t.day, 23, 59, 0);
            && next.Valid() && MinuteIndex(base) < MinuteIndex(next)
            && NextOccurrence(s, next, end) == NextOccurrence(s, base, end)
  {
    var next: Moment := DateTime(t.year, t.month, t.day, 23, 59, 0);
    SlotIsFirst(s, base, t);
    EarlierIsTickOrder(base, t);
    assert !Earlier(next, t);
    MinuteIndexMonotone(t, next);
    assert MinuteIndex(base) < MinuteIndex(t);
    forall v: Moment | Matches(s, v) ensures Earlier(base, v) <==> Earlier(next, v) {
      assert !SameDate(v, t);
    }
    NextMatchDependsOnLaterMatches(s, base, next);
    SameMeetsEnd(s, base, end, t, next);
  }

  lemma SameMeetsEnd(s: Schedule, base: Moment, end: Moment, t: Moment, next: Moment)
    requires SlotFound(s, base, t.year, t.month, t.day, t.hour, t.minute) && t.tick == 0
    requires NoShortMonthBefore(s, base, end, t.year, t.month) && Earlier(t, end)
    requires next == DateTime(t.year, t.month, t.day, 23, 59, 0)
    ensures MeetsEnd(s, base, end) <==> MeetsEnd(s, next, end)
  {
    SlotIsFirst(s, base, t);
    forall u: Moment | !Earlier(u, end) ensures FirstOfDay(s, base, u) <==> FirstOfDay(s, next, u) {
      SameFirstOfDay(s, base, end, t, next, u);
    }
    forall y, m ensures
      (!EarlierMonth(y, m, base.year, base.month) && ShortMonthPastEnd(s, y, m, end)) <==>
      (!EarlierMonth(y, m, next.year, next.month) && ShortMonthPastEnd(s, y, m, end))
    {
    }
  }

  lemma SameFirstOfDay(s: Schedule, base: Moment, end: Moment, t: Moment, next: Moment, u: Moment)
    requires FieldMatch(s, t) && Earlier(base, t) && Earlier(t, end) && !Earlier(u, end)
    requires forall v: Moment :: FieldMatch(s, v) && Earlier(base, v) ==> !Earlier(v, t)
    requires next == DateTime(t.year, t.month, t.day, 23, 59, 0)
    ensures FirstOfDay(s, base, u) <==> FirstOfDay(s, next, u)
  {
    forall v: Moment | FieldMatch(s, v) && !SameDate(v, t) ensures Earlier(base, v) <==> Earlier(next, v) {
    }
    if SameDate(u, t) {
      EarlierIsTickOrder(t, end);
      EarlierIsTickOrder(u, end);
      EarlierIsTickOrder(t, u);
      assert Earlier(t, u);
      assert !FirstOfDay(s, base, u);
      assert !Earlier(next, u) || u.tick != 0;
    }
  }

  // ----- Enumeration

  /** times are the matches after base, up to and including last, in ascending order. */
  ghost predicate Enumerated(s: Schedule, base: Moment, last: Moment, times: seq<Moment>) {
    && (forall u: Moment :: u in times <==> Matches(s, u) && Earlier(base, u) && !Earlier(last, u))
    && (forall i, j | 0 <= i < j < |times| :: Earlier(times[i], times[j]))
    && !Earlier(last, base)
  }

  lemma NextIsEnumerated(s: Schedule, base: Moment, last: Moment, times: seq<Moment>, end: Moment, next: Moment)
    requires Enumerated(s, base, last, times) && NextOccurrence(s, last, end) == At(next) && Earlier(next, end)
    ensures Enumerated(s, base, next, times + [next]) && MinuteIndex(last) < MinuteIndex(next) <= LAST_MINUTE
  {
    NextBeforeEnd(s, last, end, next);
    EarlierIsTickOrder(last, next);
    WithinLastMinute(next);
    EarlierChains(base, last, next);
    forall u: Moment ensures u in times + [next] <==> Matches(s, u) && Earlier(base, u) && !Earlier(next, u) {
      NextIsLast(s, base, last, times, next, u);
    }
    forall i | 0 <= i < |times| ensures Earlier(times[i], next) {
      assert times[i] in times;
      EarlierChains(times[i], last, next);
    }
    EarlierChains(next, last, base);
  }

  lemma NextBeforeEnd(s: Schedule, last: Moment, end: Moment, next: Moment)
    requires NextOccurrence(s, last, end) == At(next) && Earlier(next, end)
    ensures Matches(s, next) && Earlier(last, next)
    ensures forall v: Moment :: Matches(s, v) && Earlier(last, v) ==> !Earlier(v, next)
  {
    NextMatchIsEarliest(s, last);
    assert NextMatch(s, last) == Some(next);
  }

  lemma NextIsLast(s: Schedule, base: Moment, last: Moment, times: seq<Moment>, next: Moment, u: Moment)
    requires Enumerated(s, base, last, times) && Matches(s, next) && Earlier(base, next) && Earlier(last, next)
    requires forall v: Moment :: Matches(s, v) && Earlier(last, v) ==> !Earlier(v, next)
    ensures u in times + [next] <==> Matches(s, u) && Earlier(base, u) && !Earlier(next, u)
  {
    EarlierChains(u, last, next);
    if u !in times && Matches(s, u) && Earlier(base, u) && !Earlier(next, u) {
      EarlierIsTickOrder(u, next);
      EarlierIsTickOrder(next, u);
    }
  }

  lemma NoneLeft(s: Schedule, base: Moment, last: Moment, times: seq<Moment>, end: Moment)
    requires Enumerated(s, base, last, times) && (last == base || Earlier(last, end))
    requires NextOccurrence(s, last, end).At? ==> !Earlier(NextOccurrence(s, last, end).time, end)
    ensures forall u: Moment :: u in times <==> Matches(s, u) && Earlier(base, u) && Earlier(u, end)
  {
    NextMatchIsEarliest(s, last);
  }

  /** A search from base, or from a time before the end, finds a match or the end if the schedule is satisfiable. */
  lemma SearchStaysInCalendar(s: Schedule, base: Moment, last: Moment, end: Moment)
    requires s.Valid() && (last == base || Earlier(last, end))
    ensures HasPossibleDate(s) && base.year + CYCLE_YEARS <= MAX_YEAR && end.year + CYCLE_YEARS <= MAX_YEAR ==>
      NextOccurrence(s, last, end).At?
  {
    if HasPossibleDate(s) && last.year + CYCLE_YEARS <= MAX_YEAR {
      SatisfiableIffPossibleDate(s, last);
    }
  }
}
