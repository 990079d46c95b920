/** A parsed crontab expression: five fields, its text, and the search for the next occurrence. */
module CrontabSchedules {
  import opened Wrappers
  import opened Calendar
  import opened Occurrence
  import opened OccurrenceSearch
  import opened FieldText
  import opened ScheduleTexts
  import opened CrontabFields

  class CrontabSchedule {
    const minutes: CrontabField
    const hours: CrontabField
    const days: CrontabField
    const months: CrontabField
    const daysOfWeek: CrontabField

    ghost predicate HasFields() {
      && minutes.HasBits() && hours.HasBits() && days.HasBits() && months.HasBits() && daysOfWeek.HasBits()
      && minutes.kind == Kind.Minute && hours.kind == Kind.Hour && days.kind == Kind.Day
      && months.kind == Kind.Month && daysOfWeek.kind == Kind.DayOfWeek
    }

    /** The five value sets. */
    ghost function Spec(): Schedule
      requires HasFields()
      reads minutes.bits, hours.bits, days.bits, months.bits, daysOfWeek.bits
    {
      Schedule(minutes.Values(), hours.Values(), days.Values(), months.Values(), daysOfWeek.Values())
    }

    ghost predicate Valid()
      reads minutes, hours, days, months, daysOfWeek
      reads minutes.bits, hours.bits, days.bits, months.bits, daysOfWeek.bits
    {
      && HasFields() && Spec().Valid()
      && minutes.Valid() && hours.Valid() && days.Valid() && months.Valid() && daysOfWeek.Valid()
    }

    constructor (minutes: CrontabField, hours: CrontabField, days: CrontabField,
                 months: CrontabField, daysOfWeek: CrontabField)
      requires minutes.Valid() && hours.Valid() && days.Valid() && months.Valid() && daysOfWeek.Valid()
      requires minutes.kind == Kind.Minute && hours.kind == Kind.Hour && days.kind == Kind.Day
      requires months.kind == Kind.Month && daysOfWeek.kind == Kind.DayOfWeek
      requires Schedule(minutes.Values(), hours.Values(), days.Values(), months.Values(), daysOfWeek.Values()).Valid()
      ensures Valid()
      ensures Spec() == Schedule(minutes.Values(), hours.Values(), days.Values(), months.Values(), daysOfWeek.Values())
    {
      this.minutes := minutes;
      this.hours := hours;
      this.days := days;
      this.months := months;
      this.daysOfWeek := daysOfWeek;
    }

    /** Parses an expression of exactly five fields; None is an exception. */
    static method Parse(expression: string) returns (r: Option<CrontabSchedule>)
      ensures r.Some? <==> ScheduleMeaning(expression).Some?
      ensures r.Some? ==> r.value.Valid() && r.value.Spec() == ScheduleMeaning(expression).value
    {
      var fields := NonEmpty(Split(expression, ' '));
      if |fields| != 5 {
        return None;
      }
      assert forall i | 0 <= i < 5 :: fields[i] in fields;
      r := ParseFields(fields[0], fields[1], fields[2], fields[3], fields[4]);
    }

    /** The five field parses of the constructor. */
    static method ParseFields(a: string, b: string, c: string, d: string, e: string)
      returns (r: Option<CrontabSchedule>)
      requires a != "" && b != "" && c != "" && d != "" && e != ""
      ensures r.Some? <==> FieldsMeaning(a, b, c, d, e).Some?
      ensures r.Some? ==> r.value.Valid() && r.value.Spec() == FieldsMeaning(a, b, c, d, e).value
    {
      var minutes := CrontabField.Parse(Kind.Minute, a);
      if minutes.None? { return None; }
      var hours := CrontabField.Parse(Kind.Hour, b);
      if hours.None? { return None; }
      var days := CrontabField.Parse(Kind.Day, c);
      if days.None? { return None; }
      var months := CrontabField.Parse(Kind.Month, d);
      if months.None? { return None; }
      var daysOfWeek := CrontabField.Parse(Kind.DayOfWeek, e);
      if daysOfWeek.None? { return None; }
      ParsedFieldsAreValid(a, b, c, d, e);
      var schedule := new CrontabSchedule(minutes.value, hours.value, days.value, months.value, daysOfWeek.value);
      return Some(schedule);
    }

    method ToString() returns (text: string)
      requires Valid()
      ensures text == ScheduleText(Spec())
    {
      text := minutes.Format(true);
      var s := hours.Format(true);
      text := text + " " + s;
      s := days.Format(true);
      text := text + " " + s;
      s := months.Format(true);
      text := text + " " + s;
      s := daysOfWeek.Format(true);
      text := text + " " + s;
    }

    /** The next occurrence after base, or end if that comes first; see NextOccurrence for when the search
        leaves the calendar. */
    method GetNextOccurrence(base: Moment, end: Moment) returns (r: Outcome)
      requires Valid()
      ensures r == NextOccurrence(Spec(), base, end)
      decreases LAST_MINUTE - MinuteIndex(base)
    {
      var stop, nextTime := FindDate(base, end);
      if stop.Some? {
        return stop.value;
      }
      if !Earlier(nextTime, end) {
        StopsAtEnd(Spec(), base, end, nextTime);
        return At(end);
      }
      var allowed := daysOfWeek.Contains(Weekday(nextTime.year, nextTime.month, nextTime.day));
      if allowed.value {
        StopsAtMatch(Spec(), base, end, nextTime);
        return At(nextTime);
      }
      WeekdaySkipped(Spec(), base, end, nextTime);
      var endOfDay: Moment := DateTime(nextTime.year, nextTime.month, nextTime.day, 23, 59, 0);
      WithinLastMinute(endOfDay);
      r := GetNextOccurrence(endOfDay, end);
    }

    /** GetNextOccurrence up to the construction of the next time, or the outcome if it stops before that. */
    method FindDate(base: Moment, end: Moment) returns (stop: Option<Outcome>, nextTime: Moment)
      requires Valid()
      ensures stop.Some? ==> stop.value == NextOccurrence(Spec(), base, end)
      ensures stop.None? ==>
        && SlotFound(Spec(), base, nextTime.year, nextTime.month, nextTime.day, nextTime.hour, nextTime.minute)
        && NoShortMonthBefore(Spec(), base, end, nextTime.year, nextTime.month) && nextTime.tick == 0
    {
      ghost var s := Spec();
      nextTime := base;
      var year, month := base.year, base.month;
      var day, hour, minute := FindTime(base);
      day := FindDay(base, end, day, hour, minute);

      while true
        invariant year <= MAX_YEAR && DayFound(s, base, year, month, day, hour, minute)
        invariant day == -1 ==> NoShortMonthThrough(s, base, end, year, month)
        decreases MAX_YEAR - year, 12 - month, day != -1
      {
        year, month, day, hour, minute := FindSlot(base, end, year, month, day, hour, minute);

        if year > MAX_YEAR {
          LeavesCalendar(s, base, end, year, month, day, hour, minute);
          return Some(OutOfCalendar), base;
        }
        var dateChanged := day != base.day || month != base.month || year != base.year;
        if day > 28 && dateChanged && day > DaysInMonth(year, month) {
          if year >= end.year && month >= end.month && day >= end.day {
            StopsAtShortMonth(s, base, end, year, month, day, hour, minute);
            return Some(At(end)), base;
          }
          ShortMonthSkipped(s, base, end, year, month, day, hour, minute);
          day := -1;
        } else {
          SlotIsMoment(s, base, year, month, day, hour, minute);
          return None, DateTime(year, month, day, hour, minute, 0);
        }
      }
    }

    /** The minute and hour steps of GetNextOccurrence. */
    method FindTime(base: Moment) returns (day: int, hour: int, minute: int)
      requires Valid()
      ensures TimeFound(Spec(), base, day, hour, minute)
    {
      day, hour, minute := base.day, base.hour, base.minute + 1;
      minute := minutes.Next(minute);
      if minute == -1 {
        minute := minutes.GetFirst();
        hour := hour + 1;
      }
      hour := hours.Next(hour);
      if hour == -1 {
        minute := minutes.GetFirst();
        hour := hours.GetFirst();
        day := day + 1;
        NextDay(Spec(), base, hour, minute);
      } else if hour > base.hour {
        minute := minutes.GetFirst();
        LaterHour(Spec(), base, hour, minute);
      } else {
        HourOfBase(Spec(), base, minute);
      }
    }

    /** The day step of GetNextOccurrence. */
    method FindDay(base: Moment, ghost end: Moment, start: int, hour: int, minute: int) returns (day: int)
      requires Valid() && TimeFound(Spec(), base, start, hour, minute)
      ensures DayFound(Spec(), base, base.year, base.month, day, hour, minute)
      ensures day == -1 ==> NoShortMonthThrough(Spec(), base, end, base.year, base.month)
    {
      day := days.Next(start);
      DayIsFound(Spec(), base, start, hour, minute, day);
      if day == -1 {
        ExhaustedMonthIsNotShort(Spec(), base, end);
      }
    }

    /** The steps from the label RetryDayMonth to the month. */
    method FindSlot(base: Moment, ghost end: Moment, y: int, m: int, d: int, h: int, mi: int)
      returns (year: int, month: int, day: int, hour: int, minute: int)
      requires Valid() && y <= MAX_YEAR && DayFound(Spec(), base, y, m, d, h, mi)
      requires d == -1 ==> NoShortMonthThrough(Spec(), base, end, y, m)
      ensures SlotFound(Spec(), base, year, month, day, hour, minute)
      ensures NoShortMonthBefore(Spec(), base, end, year, month)
      ensures if d == -1 then EarlierMonth(y, m, year, month) else !EarlierMonth(year, month, y, m)
    {
      month, day, hour, minute := EnterDay(base, m, d, h, mi);
      ghost var start, enteredDay, enteredHour, enteredMinute := month, day, hour, minute;
      year, month, day, hour, minute := EnterMonth(base, y, month, day, hour, minute);
      SlotIsFound(Spec(), base, end, y, m, d, h, mi, start, enteredDay, enteredHour, enteredMinute,
                  year, month, day, hour, minute);
    }

    /** The first half of FindSlot: an exhausted month is left, and a later day starts at the first time. */
    method EnterDay(base: Moment, m: int, d: int, h: int, mi: int)
      returns (month: int, day: int, hour: int, minute: int)
      requires Valid()
      ensures DayEntered(Spec(), base, m, d, h, mi, month, day, hour, minute)
    {
      month, day, hour, minute := m, d, h, mi;
      if day == -1 {
        minute := minutes.GetFirst();
        hour := hours.GetFirst();
        day := days.GetFirst();
        month := month + 1;
      } else if day > base.day {
        minute := minutes.GetFirst();
        hour := hours.GetFirst();
      }
    }

    /** The second half of FindSlot: the month step, into the next year if need be. */
    method EnterMonth(base: Moment, y: int, m: int, d: int, h: int, mi: int)
      returns (year: int, month: int, day: int, hour: int, minute: int)
      requires Valid() && 1 <= m <= 13
      ensures MonthEntered(Spec(), base, y, m, d, h, mi, year, month, day, hour, minute)
    {
      year, day, hour, minute := y, d, h, mi;
      month := months.Next(m);
      if month == -1 {
        minute := minutes.GetFirst();
        hour := hours.GetFirst();
        day := days.GetFirst();
        month := months.GetFirst();
        year := year + 1;
      } else if month > base.month {
        minute := minutes.GetFirst();
        hour := hours.GetFirst();
        day := days.GetFirst();
      }
    }

    /** The next occurrence with no end but that of the calendar. */
    method GetNextOccurrenceUnbounded(base: Moment) returns (r: Outcome)
      requires Valid()
      ensures r == match NextMatch(Spec(), base) case Some(n) => At(n) case None => OutOfCalendar
    {
      UnboundedOccurrence(Spec(), base);
      r := GetNextOccurrence(base, MAX_VALUE);
    }

    /** The occurrences strictly between base and end, in ascending order and once each. The enumeration
        ends by an exception exactly when the search after the last occurrence leaves the calendar. */
    method GetNextOccurrences(base: Moment, end: Moment) returns (occurrences: seq<Moment>, threw: bool)
      requires Valid()
      ensures forall u: Moment :: u in occurrences <==> Matches(Spec(), u) && Earlier(base, u) && Earlier(u, end)
      ensures forall i, j | 0 <= i < j < |occurrences| :: Earlier(occurrences[i], occurrences[j])
      ensures threw <==> NextOccurrence(Spec(), LastOr(occurrences, base), end) == OutOfCalendar
      ensures HasPossibleDate(Spec()) && base.year + CYCLE_YEARS <= MAX_YEAR && end.year + CYCLE_YEARS <= MAX_YEAR ==>
        !threw
    {
      var last;
      occurrences, last, threw := Enumerate(base, end);
      NoneLeft(Spec(), base, last, occurrences, end);
      SearchStaysInCalendar(Spec(), base, last, end);
    }

    /** The loop of GetNextOccurrences. */
    method Enumerate(base: Moment, end: Moment) returns (occurrences: seq<Moment>, last: Moment, threw: bool)
      requires Valid()
      ensures last == LastOr(occurrences, base) && (last == base || Earlier(last, end))
      ensures Enumerated(Spec(), base, last, occurrences)
      ensures var r := NextOccurrence(Spec(), last, end);
              threw == r.OutOfCalendar? && (r.At? ==> !Earlier(r.time, end))
    {
      ghost var s := Spec();
      occurrences, last := [], base;
      var occurrence := GetNextOccurrence(base, end);
      while occurrence.At? && Earlier(occurrence.time, end)
        invariant last == LastOr(occurrences, base) && occurrence == NextOccurrence(s, last, end)
        invariant Enumerated(s, base, last, occurrences) && (last == base || Earlier(last, end))
        decreases LAST_MINUTE - MinuteIndex(last)
      {
        ghost var before, times := last, occurrences;
        last := occurrence.time;
        occurrences := occurrences + [last];
        occurrence := Advance(base, before, times, last, end);
      }
      threw := occurrence.OutOfCalendar?;
    }

    /** The loop step of Enumerate: the search after the next occurrence. */
    method Advance(ghost base: Moment, ghost last: Moment, ghost times: seq<Moment>, next: Moment, end: Moment)
      returns (r: Outcome)
      requires Valid() && Enumerated(Spec(), base, last, times)
      requires NextOccurrence(Spec(), last, end) == At(next) && Earlier(next, end)
      ensures Enumerated(Spec(), base, next, times + [next]) && MinuteIndex(last) < MinuteIndex(next) <= LAST_MINUTE
      ensures r == NextOccurrence(Spec(), next, end)
    {
      NextIsEnumerated(Spec(), base, last, times, end, next);
      r := GetNextOccurrence(next, end);
    }
  }

  function LastOr(times: seq<Moment>, base: Moment): Moment {
    if times == [] then base else times[|times| - 1]
  }
}
