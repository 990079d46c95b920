/** Crontab texts with their known meanings and occurrences, most of them those of the repository's own tests and
    comments. They fix what the laws leave to convention: the order of the fields, the names of the days, the phase
    of the week. */
module KnownAnswers {
  import opened Wrappers
  import opened Calendar
  import opened Occurrence
  import opened FieldText
  import opened FieldRoundTrip
  import opened FieldLaws
  import opened ScheduleTexts
  import opened ScheduleLaws

  // ----- Fields

  lemma FieldOfToken(kind: Kind, token: string)
    requires token != "" && ',' !in token
    ensures FieldMeaning(kind, token) == TokenMeaning(kind, token)
  {
    AbsentMeansNoIndex(token, ',');
  }

  const STAR := "*"

  lemma StarField(kind: Kind)
    ensures FieldMeaning(kind, STAR) == Some(kind.Range()) && IsWord(STAR)
  {
    StarMeansRange(kind);
  }

  lemma NumberIsValue(kind: Kind, v: int)
    requires 0 <= v < 100
    ensures Atom(NumberText(v)) && Plain(NumberText(v)) && ValueMeaning(kind, NumberText(v)) == Some(v)
  {
    NumberRoundTrip(v);
    PlainHasNoSeparators(NumberText(v));
  }

  lemma NumberField(kind: Kind, v: int)
    requires kind.Min() <= v <= kind.Max()
    ensures FieldMeaning(kind, NumberText(v)) == Some({v}) && IsWord(NumberText(v))
  {
    NumberIsValue(kind, v);
    FieldOfToken(kind, NumberText(v));
    TokenMeans(kind, Value(NumberText(v)));
    StepOneIsAll(kind, v, v);
    assert Interval(v, v) == {v};
  }

  lemma RangeField(kind: Kind, v: int, w: int)
    requires kind.Min() <= v <= w <= kind.Max()
    ensures var text := NumberText(v) + "-" + NumberText(w);
            FieldMeaning(kind, text) == Some(Interval(v, w)) && IsWord(text)
  {
    NumberIsValue(kind, v);
    NumberIsValue(kind, w);
    FieldOfToken(kind, NumberText(v) + "-" + NumberText(w));
    DashText(NumberText(v), NumberText(w));
    TokenMeans(kind, Dash(NumberText(v), NumberText(w)));
    StepOneIsAll(kind, v, w);
  }

  lemma StarStepField(kind: Kind, n: int)
    requires 1 <= n < 100
    ensures var text := "*/" + NumberText(n);
            FieldMeaning(kind, text) == Some(Progression(kind.Min(), kind.Max(), n)) && IsWord(text)
  {
    NumberIsValue(kind, n);
    PlainHasNoSeparators(NumberText(n));
    FieldOfToken(kind, "*/" + NumberText(n));
    NumberRoundTrip(n);
    SteppedTokenMeans(kind, Star, NumberText(n), n);
    assert "*/" + NumberText(n) == "*" + "/" + NumberText(n);
    StepsAccepted(kind, kind.Min(), kind.Max(), n);
  }

  // ----- Schedules

  const HOURS := Kind.Hour.Range()
  const DAYS := Kind.Day.Range()
  const MONTHS := Kind.Month.Range()
  const WEEKDAYS := Kind.DayOfWeek.Range()

  /** The texts below are their fields with blanks between them. */
  lemma Blanks()
    ensures Spaced("*/3", STAR, STAR, STAR, STAR) == "*/3 * * * *"
    ensures Spaced("0", "9-17", STAR, STAR, STAR) == "0 9-17 * * *"
    ensures Spaced("0", "0", STAR, STAR, "1") == "0 0 * * 1"
    ensures Spaced("0", "0", STAR, STAR, "1-5") == "0 0 * * 1-5"
  {
    StepByStep("*/3", "*", "*", "*", "*", "*/3 *", "*/3 * *", "*/3 * * *", "*/3 * * * *");
    StepByStep("0", "9-17", "*", "*", "*", "0 9-17", "0 9-17 *", "0 9-17 * *", "0 9-17 * * *");
    StepByStep("0", "0", "*", "*", "1", "0 0", "0 0 *", "0 0 * *", "0 0 * * 1");
    StepByStep("0", "0", "*", "*", "1-5", "0 0", "0 0 *", "0 0 * *", "0 0 * * 1-5");
  }

  lemma StepByStep(a: string, b: string, c: string, d: string, e: string,
                   ab: string, abc: string, abcd: string, all: string)
    requires a + " " + b == ab && ab + " " + c == abc && abc + " " + d == abcd && abcd + " " + e == all
    ensures Spaced(a, b, c, d, e) == all
  {
  }

  lemma Digits()
    ensures NumberText(0) == "0" && NumberText(1) == "1" && "*/" + NumberText(3) == "*/3"
    ensures NumberText(9) + "-" + NumberText(17) == "9-17" && NumberText(1) + "-" + NumberText(5) == "1-5"
  {
  }

  lemma Stars()
    ensures forall kind: Kind :: FieldMeaning(kind, STAR) == Some(kind.Range())
    ensures IsWord(STAR)
  {
    forall kind: Kind ensures FieldMeaning(kind, STAR) == Some(kind.Range()) {
      StarField(kind);
    }
  }

  /** Six fields, with seconds, are refused. */
  lemma SixStars()
    ensures ScheduleMeaning("* * * * * *").None?
  {
    var words := ["*", "*", "*", "*", "*", "*"];
    JoinMore(["*", "*", "*", "*", "*"], "*");
    JoinFive("*", "*", "*", "*", "*");
    assert ["*", "*", "*", "*", "*"] + ["*"] == words;
    assert Join(words, ' ') == "* * * * * *";
    FiveFields(words);
  }

  const THIRDS := Schedule(Progression(0, 59, 3), HOURS, DAYS, MONTHS, WEEKDAYS)

  lemma EveryThirdMinuteText(text: string)
    requires text == "*/3 * * * *"
    ensures ScheduleMeaning(text) == Some(THIRDS)
  {
    StarStepField(Kind.Minute, 3);
    Stars();
    Digits();
    Blanks();
    FieldsInOrder("*/" + NumberText(3), STAR, STAR, STAR, STAR, THIRDS);
  }

  /** Every third minute, over the end of the year 2021. */
  lemma EveryThirdMinute(t: Moment, n: Moment)
    requires t == DateTime(2021, 12, 31, 23, 58, 0) && n == DateTime(2022, 1, 1, 0, 0, 0)
    ensures NextMatch(THIRDS, t) == Some(n)
  {
    assert OnStep(0, 0, 3) && !OnStep(0, 59, 3);
    NextMatchIs(THIRDS, t, n);
  }

  const OFFICE := Schedule({0}, Interval(9, 17), DAYS, MONTHS, WEEKDAYS)

  lemma NineToFiveText(text: string)
    requires text == "0 9-17 * * *"
    ensures ScheduleMeaning(text) == Some(OFFICE)
  {
    NumberField(Kind.Minute, 0);
    RangeField(Kind.Hour, 9, 17);
    Stars();
    Digits();
    Blanks();
    FieldsInOrder(NumberText(0), NumberText(9) + "-" + NumberText(17), STAR, STAR, STAR, OFFICE);
  }

  /** It is printed as it is read. */
  lemma NineToFivePrinted(text: string)
    requires text == "0 9-17 * * *"
    ensures ScheduleText(OFFICE) == text
  {
    assert 1 in Kind.Minute.Range() && 1 in Kind.Hour.Range();
    assert Interval(0, 0) == {0};
    IntervalText(Kind.Minute, 0, 0, true);
    IntervalText(Kind.Hour, 9, 17, true);
    RangeText(Kind.Day, true);
    RangeText(Kind.Month, true);
    RangeText(Kind.DayOfWeek, true);
    Digits();
    Blanks();
    OfficeFields(NumberText(0), NumberText(9) + "-" + NumberText(17));
  }

  lemma OfficeFields(minute: string, hours: string)
    requires SetText(Kind.Minute, OFFICE.minutes, true) == minute && SetText(Kind.Hour, OFFICE.hours, true) == hours
    requires SetText(Kind.Day, OFFICE.days, true) == SetText(Kind.Month, OFFICE.months, true) == STAR
    requires SetText(Kind.DayOfWeek, OFFICE.daysOfWeek, true) == STAR
    ensures ScheduleText(OFFICE) == Spaced(minute, hours, STAR, STAR, STAR)
  {
  }

  /** The full hours from nine to five: after five on the leap day it is nine the next day. */
  lemma NineToFive(t: Moment, n: Moment)
    requires t == DateTime(2024, 2, 29, 17, 0, 0) && n == DateTime(2024, 3, 1, 9, 0, 0)
    ensures NextMatch(OFFICE, t) == Some(n)
  {
    NextMatchIs(OFFICE, t, n);
  }

  // ----- Midnights

  function Midnights(days: set<int>, months: set<int>, daysOfWeek: set<int>): Schedule {
    Schedule({0}, {0}, days, months, daysOfWeek)
  }

  function Midnight(y: int, m: int, d: int): DateTime {
    DateTime(y, m, d, 0, 0, 0)
  }

  lemma MondaysText(text: string)
    requires text == "0 0 * * 1"
    ensures ScheduleMeaning(text) == Some(Midnights(DAYS, MONTHS, {1}))
  {
    NumberField(Kind.Minute, 0);
    NumberField(Kind.Hour, 0);
    NumberField(Kind.DayOfWeek, 1);
    Stars();
    Digits();
    Blanks();
    FieldsInOrder(NumberText(0), NumberText(0), STAR, STAR, NumberText(1), Midnights(DAYS, MONTHS, {1}));
  }

  /** Mondays at midnight: after Sunday, the last day of 2023, it is the first day of 2024. */
  lemma Mondays(t: Moment, n: Moment)
    requires t == Midnight(2023, 12, 31) && n == Midnight(2024, 1, 1)
    ensures NextMatch(Midnights(DAYS, MONTHS, {1}), t) == Some(n)
  {
    WeekdayFormula(2024, 1, 1);
    NextMatchIs(Midnights(DAYS, MONTHS, {1}), t, n);
  }

  lemma MondayToFridayText(text: string)
    requires text == "0 0 * * 1-5"
    ensures ScheduleMeaning(text) == Some(Midnights(DAYS, MONTHS, Interval(1, 5)))
  {
    NumberField(Kind.Minute, 0);
    NumberField(Kind.Hour, 0);
    RangeField(Kind.DayOfWeek, 1, 5);
    Stars();
    Digits();
    Blanks();
    FieldsInOrder(NumberText(0), NumberText(0), STAR, STAR, NumberText(1) + "-" + NumberText(5),
                  Midnights(DAYS, MONTHS, Interval(1, 5)));
  }

  /** Monday to Friday at midnight: after Friday, the 5th of January 2024, it is Monday, the 8th. */
  lemma MondayToFriday(t: Moment, n: Moment)
    requires t == Midnight(2024, 1, 5) && n == Midnight(2024, 1, 8)
    ensures NextMatch(Midnights(DAYS, MONTHS, Interval(1, 5)), t) == Some(n)
  {
    WeekdayFormula(2024, 1, 6);
    WeekdayFormula(2024, 1, 7);
    WeekdayFormula(2024, 1, 8);
    NextMatchIs(Midnights(DAYS, MONTHS, Interval(1, 5)), t, n);
  }

  /** The leap day: after the 1st of March 2023 it is the 29th of February 2024. */
  lemma LeapDay(t: Moment, n: Moment)
    requires t == Midnight(2023, 3, 1) && n == DateTime(2024, 2, 29, 0, 0, 0)
    ensures NextMatch(Midnights({29}, {2}, WEEKDAYS), t) == Some(n)
  {
    KnownYears();
    NextMatchIs(Midnights({29}, {2}, WEEKDAYS), t, n);
  }

  /** The 31st: April is too short, and May is not. */
  lemma LastOfMay(t: Moment, n: Moment)
    requires t == Midnight(2024, 3, 31) && n == Midnight(2024, 5, 31)
    ensures NextMatch(Midnights({31}, MONTHS, WEEKDAYS), t) == Some(n)
  {
    NextMatchIs(Midnights({31}, MONTHS, WEEKDAYS), t, n);
  }

  /** The 15th and the 31st, from the first of January 2000 on. */
  lemma MiddleAndEnd(t: Moment, n: Moment)
    requires || (t == Midnight(2000, 1, 1) && n == Midnight(2000, 1, 15))
             || (t == Midnight(2000, 1, 15) && n == Midnight(2000, 1, 31))
             || (t == Midnight(2000, 1, 31) && n == Midnight(2000, 2, 15))
             || (t == Midnight(2000, 2, 15) && n == Midnight(2000, 3, 15))
             || (t == Midnight(2000, 3, 15) && n == Midnight(2000, 3, 31))
             || (t == Midnight(2000, 4, 15) && n == Midnight(2000, 5, 15))
    ensures NextMatch(Midnights({15, 31}, MONTHS, WEEKDAYS), t) == Some(n)
  {
    NextMatchIs(Midnights({15, 31}, MONTHS, WEEKDAYS), t, n);
  }

  /** A day of the month and a day of the week must both allow a date: the first Friday the 13th of 2024. */
  lemma FridayThe13th(t: Moment, n: Moment)
    requires t == Midnight(2024, 1, 1) && n == Midnight(2024, 9, 13)
    ensures NextMatch(Midnights({13}, MONTHS, {5}), t) == Some(n)
  {
    var s := Midnights({13}, MONTHS, {5});
    forall m | 1 <= m <= 9 ensures Weekday(2024, m, 13) == 5 <==> m == 9 {
      Thirteenths(m);
    }
    NextMatchIs(s, t, n);
  }

  lemma Thirteenths(m: int)
    requires 1 <= m <= 9
    ensures Weekday(2024, m, 13) == 5 <==> m == 9
  {
    WeekdayFormula(2024, m, 13);
  }

  // ----- A day that never comes

  const NEVER := Midnights({30}, {2}, WEEKDAYS)

  lemma NeverMatches(base: Moment)
    ensures NextMatch(NEVER, base).None? && forall t: Moment :: !FieldMatch(NEVER, t)
  {
    NextMatchIsEarliest(NEVER, base);
  }

  /** The search for the 30th of February stops at an end whose date it passes component by component. */
  lemma NeverStopsAtEnd(base: Moment, end: Moment)
    requires base == Midnight(2024, 1, 1) && end == Midnight(2024, 2, 1)
    ensures NextOccurrence(NEVER, base, end) == At(end)
  {
    NeverMatches(base);
    assert FirstMissingDay(NEVER, 2024, 2, 30);
    assert ShortMonthPastEnd(NEVER, 2024, 2, end);
  }

  /** It leaves the calendar if the end is in December, even one in the past: February is not December. */
  lemma NeverLeavesCalendar(base: Moment, end: Moment)
    requires base == Midnight(2024, 1, 1) && end == Midnight(2023, 12, 31)
    ensures NextOccurrence(NEVER, base, end) == OutOfCalendar
  {
    NeverMatches(base);
    assert forall y, m :: !ShortMonthPastEnd(NEVER, y, m, end);
  }
}
