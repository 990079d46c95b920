/** The scheduler with the cron parser of CrontabSchedule: a resource's text, from the Sync that adds it to the fire
    times that are published for it. */
module CronRuns {
  import opened Wrappers
  import opened Calendar
  import opened Occurrence
  import opened ScheduleTexts
  import opened Resources
  import opened SchedulerModel
  import opened Reconciliation
  import opened SchedulerRuns
  import opened LocalTime

  const CRON: Parser := (text: string) => ScheduleMeaning(text)

  /** The text is a cron expression some month of which can have one of its days. */
  ghost predicate HasOccurrences(text: string) {
    ScheduleMeaning(text).Some? && HasPossibleDate(ScheduleMeaning(text).value)
  }

  /** Up to year 9599 a text can run exactly if it has occurrences. */
  lemma CanRunIffOccurrences(x: Resource, now: Moment)
    requires now.year + CYCLE_YEARS <= MAX_YEAR
    ensures CanRun(CRON, x, now) <==> HasOccurrences(x.schedule)
  {
    if ScheduleMeaning(x.schedule).Some? {
      ParsedScheduleIsValid(x.schedule);
      SatisfiableIffPossibleDate(ScheduleMeaning(x.schedule).value, now);
      UnboundedOccurrence(ScheduleMeaning(x.schedule).value, now);
    }
  }

  lemma OccurrencesAreSatisfiable(items: seq<Resource>)
    requires forall x <- items :: HasOccurrences(x.schedule)
    ensures SatisfiableItems(CRON, items)
  {
    forall x <- items ensures ScheduleMeaning(x.schedule).value.Valid() {
      ParsedScheduleIsValid(x.schedule);
    }
  }

  // ----- From the first Sync on, for any parser

  /** The state after a first Sync. */
  function Started(parse: Parser, items: seq<Resource>, created: Moment): State {
    State(Sync(parse, [], items, created).0, [])
  }

  /** A first Sync adds a task that is due at once. */
  lemma FirstSync(parse: Parser, items: seq<Resource>, x: Resource, keyOf: string -> string, created: Moment)
    requires ProperItems(items, keyOf) && x in items && forall y <- items :: CanRun(parse, y, created)
    ensures var tasks := Started(parse, items, created).tasks;
            && ProperTasks(tasks, keyOf) && SchedulesParsed(parse, tasks)
            && FindUid(tasks, x.uid) != -1
            && NewTask(parse, x, created) == Some(tasks[FindUid(tasks, x.uid)])
  {
    SyncIs(parse, [], items, keyOf, created);
    SyncReconciles(parse, [], items, keyOf, created);
  }

  lemma FireTimesFromStart(parse: Parser, zone: Zone, items: seq<Resource>, x: Resource, s: Schedule, steps: seq<Step>,
                           keyOf: string -> string, created: Moment)
    requires parse(x.schedule) == Some(s)
    requires ProperItems(items, keyOf) && x in items && forall y <- items :: CanRun(parse, y, created)
    requires KeepsText(steps, keyOf, x.uid, x.schedule)
    ensures var fires := FiresOf(Run(parse, zone, Started(parse, items, created), steps).log, x.uid);
            ExactFires(s, created, fires)
  {
    FirstSync(parse, items, x, keyOf, created);
    FireTimesAreExact(parse, zone, Started(parse, items, created), steps, keyOf, x.uid, created);
  }

  lemma LagFromStart(parse: Parser, zone: Zone, items: seq<Resource>, x: Resource, steps: seq<Step>,
                     keyOf: string -> string, created: Moment)
    requires ProperItems(items, keyOf) && x in items && forall y <- items :: CanRun(parse, y, created)
    requires SatisfiableItems(parse, items) && created.year + CYCLE_YEARS <= MAX_YEAR && created != MIN_VALUE
    requires KeepsText(steps, keyOf, x.uid, x.schedule) && Regular(parse, zone, steps, created)
    requires NeverOverlooked(parse, zone, Started(parse, items, created), steps, x.uid)
    ensures var tasks := Run(parse, zone, Started(parse, items, created), steps).tasks;
            && FindUid(tasks, x.uid) != -1
            && Ticks(tasks[FindUid(tasks, x.uid)].next) > Ticks(LastTick(steps, created)) - TICKS_PER_MINUTE
  {
    FirstSync(parse, items, x, keyOf, created);
    SyncKeepsSatisfiable(parse, [], items, keyOf, created);
    LagIsBounded(parse, zone, Started(parse, items, created), steps, keyOf, x.uid, created);
  }

  // ----- With the cron parser

  lemma OccurrencesCanRun(items: seq<Resource>, now: Moment)
    requires now.year + CYCLE_YEARS <= MAX_YEAR && forall x <- items :: HasOccurrences(x.schedule)
    ensures forall x <- items :: CanRun(CRON, x, now)
  {
    forall x <- items ensures CanRun(CRON, x, now) {
      CanRunIffOccurrences(x, now);
    }
  }

  /** From the Sync that adds a resource on, in any time zone and over any ticks and resyncs that leave its text
      unchanged, the fire times published for it are its creation time and then the occurrences of its cron
      expression, all of them up to the last. */
  lemma CronFireTimes(zone: Zone, items: seq<Resource>, x: Resource, s: Schedule, steps: seq<Step>,
                      keyOf: string -> string, created: Moment)
    requires ScheduleMeaning(x.schedule) == Some(s)
    requires ProperItems(items, keyOf) && x in items && created.year + CYCLE_YEARS <= MAX_YEAR
    requires forall y <- items :: HasOccurrences(y.schedule)
    requires KeepsText(steps, keyOf, x.uid, x.schedule)
    ensures var fires := FiresOf(Run(CRON, zone, Started(CRON, items, created), steps).log, x.uid);
            ExactFires(s, created, fires)
  {
    OccurrencesCanRun(items, created);
    FireTimesFromStart(CRON, zone, items, x, s, steps, keyOf, created);
  }

  /** With clocks that keep the order of time and ticks at most a minute apart, its next run is always later than a
      minute before the last tick. */
  lemma CronLagIsBounded(zone: Zone, items: seq<Resource>, x: Resource, steps: seq<Step>, keyOf: string -> string,
                         created: Moment)
    requires ProperItems(items, keyOf) && x in items && created.year + CYCLE_YEARS <= MAX_YEAR && created != MIN_VALUE
    requires forall y <- items :: HasOccurrences(y.schedule)
    requires KeepsText(steps, keyOf, x.uid, x.schedule)
    requires KeepsOrder(zone) && Regular(CRON, zone, steps, created)
    ensures var tasks := Run(CRON, zone, Started(CRON, items, created), steps).tasks;
            && FindUid(tasks, x.uid) != -1
            && Ticks(tasks[FindUid(tasks, x.uid)].next) > Ticks(LastTick(steps, created)) - TICKS_PER_MINUTE
  {
    OccurrencesCanRun(items, created);
    OccurrencesAreSatisfiable(items);
    OrderKeptOverlooksNothing(CRON, zone, Started(CRON, items, created), steps, x.uid);
    LagFromStart(CRON, zone, items, x, steps, keyOf, created);
  }
}
