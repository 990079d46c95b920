/** What the scheduler's test on local times means in a given time zone: when it is the test on the times themselves,
    and what becomes of a task when the clocks go back. */
module LocalTime {
  import opened Wrappers
  import opened Calendar
  import opened Occurrence
  import opened Resources
  import opened SchedulerModel
  import opened Reconciliation
  import opened SchedulerRuns

  // ----- Clocks that keep the order of time

  /** The local test is the test on the times themselves, for every task at every time, if and only if the local
      clock keeps the order of time. */
  lemma DueIsPastIff(zone: Zone)
    ensures KeepsOrder(zone) <==> forall t: Task, now: Moment :: IsDue(t, now, zone) <==> IsPast(t, now)
  {
    if KeepsOrder(zone) {
      forall t: Task, now: Moment ensures IsDue(t, now, zone) <==> IsPast(t, now) {
        OrderKeptDue(zone, t, now);
      }
    }
    if forall t: Task, now: Moment :: IsDue(t, now, zone) <==> IsPast(t, now) {
      forall a: Moment, b: Moment ensures zone(a) < zone(b) <==> Earlier(a, b) {
        var t := Task("", HOURLY, Resource("", "", "", "", 0, None), b, a);
        assert IsDue(t, b, zone) <==> IsPast(t, b);
        EarlierIsTickOrder(a, b);
      }
    }
  }

  lemma OrderKeptDue(zone: Zone, t: Task, now: Moment)
    requires KeepsOrder(zone)
    ensures IsDue(t, now, zone) <==> IsPast(t, now)
  {
    EarlierIsTickOrder(t.last, t.next);
    EarlierIsTickOrder(t.next, t.last);
    assert t.last != t.next ==> Earlier(t.last, t.next) || Earlier(t.next, t.last);
  }

  /** Such clocks overlook no task, and reach no later year than the times themselves. */
  lemma {:induction false} OrderKeptOverlooksNothing(parse: Parser, zone: Zone, st: State, steps: seq<Step>,
                                                     uid: string)
    requires KeepsOrder(zone)
    ensures NeverOverlooked(parse, zone, st, steps, uid)
    ensures forall now: Moment :: now.year + CYCLE_YEARS <= MAX_YEAR ==> BeforeLastCycle(zone, now)
    decreases |steps|
  {
    if steps != [] {
      var i := FindUid(st.tasks, uid);
      if steps[0].TickAt? && i != -1 {
        OrderKeptDue(zone, st.tasks[i], steps[0].now);
      }
      OrderKeptOverlooksNothing(parse, zone, Do(parse, zone, st, steps[0]), steps[1..], uid);
    }
  }

  /** A time zone with a fixed offset. */
  function FixedOffset(offset: int): Zone {
    (t: Moment) => Ticks(t) + offset
  }

  lemma FixedOffsetKeepsOrder(offset: int)
    ensures KeepsOrder(FixedOffset(offset))
  {
    forall a: Moment, b: Moment ensures FixedOffset(offset)(a) < FixedOffset(offset)(b) <==> Earlier(a, b) {
      EarlierIsTickOrder(a, b);
    }
  }

  // ----- Clocks that show a time twice

  /** Over any run that leaves the text of a task unchanged, a task whose last and next run show the same local
      time publishes nothing and keeps its times, however late it gets. */
  lemma {:induction false} StuckForever(parse: Parser, zone: Zone, st: State, steps: seq<Step>, keyOf: string -> string,
                                        uid: string)
    requires ProperTasks(st.tasks, keyOf) && SchedulesParsed(parse, st.tasks) && FindUid(st.tasks, uid) != -1
    requires var t := st.tasks[FindUid(st.tasks, uid)];
             zone(t.last) == zone(t.next) && KeepsText(steps, keyOf, uid, t.item.schedule)
    ensures var end := Run(parse, zone, st, steps);
            && TimerKept(st.tasks, end.tasks, uid)
            && FiresOf(end.log, uid) == FiresOf(st.log, uid)
    decreases |steps|
  {
    if steps != [] {
      assert steps[0] in steps && forall s <- steps[1..] :: s in steps;
      StuckStep(parse, zone, st, steps[0], keyOf, uid);
      StuckForever(parse, zone, Do(parse, zone, st, steps[0]), steps[1..], keyOf, uid);
    }
  }

  lemma StuckStep(parse: Parser, zone: Zone, st: State, step: Step, keyOf: string -> string, uid: string)
    requires ProperTasks(st.tasks, keyOf) && SchedulesParsed(parse, st.tasks) && FindUid(st.tasks, uid) != -1
    requires var t := st.tasks[FindUid(st.tasks, uid)];
             zone(t.last) == zone(t.next) && (step.Resync? ==> KeepsTextIn(step.items, keyOf, uid, t.item.schedule))
    ensures var st' := Do(parse, zone, st, step);
            && ProperTasks(st'.tasks, keyOf) && SchedulesParsed(parse, st'.tasks)
            && TimerKept(st.tasks, st'.tasks, uid)
            && FiresOf(st'.log, uid) == FiresOf(st.log, uid)
  {
    match step {
      case TickAt(now) =>
        TickKeepsProper(parse, zone, st.tasks, keyOf, now, uid);
        TickOfTask(st.tasks, now, zone, FindUid(st.tasks, uid));
        FiresOfSum(st.log, Tick(st.tasks, now, zone).events, uid);
      case Resync(items, now) =>
        SyncIs(parse, st.tasks, items, keyOf, now);
        SyncKeepsTimer(parse, st.tasks, items, keyOf, now, uid);
    }
  }

  /** A task can be due again, at a time that the clock shows as late enough, if and only if its last and next
      run show different local times. */
  lemma DueAgainIff(t: Task, zone: Zone, late: Moment)
    requires zone(t.next) < zone(late)
    ensures (exists now: Moment :: IsDue(t, now, zone)) <==> zone(t.last) != zone(t.next)
  {
    assert zone(t.last) != zone(t.next) ==> IsDue(t, late, zone);
  }

  // ----- The end of daylight saving in Melbourne in 2023

  const CLOCKS_GO_BACK: Moment := DateTime(2023, 4, 1, 16, 0, 0)
  const HOUR := 60 * TICKS_PER_MINUTE

  /** Melbourne around that change: 11 hours ahead before it, 10 hours from then on. */
  const MELBOURNE: Zone := (t: Moment) => Ticks(t) + (if Earlier(t, CLOCKS_GO_BACK) then 11 else 10) * HOUR

  /** Every full hour. */
  const HOURLY := Schedule({0}, set v | 0 <= v <= 23, set v | 1 <= v <= 31, set v | 1 <= v <= 12, set v | 0 <= v <= 6)

  const HOUR_BEFORE: Moment := DateTime(2023, 4, 1, 15, 0, 0)

  lemma HourlyNext()
    ensures NextMatch(HOURLY, HOUR_BEFORE) == Some(CLOCKS_GO_BACK)
  {
    NextMatchIs(HOURLY, HOUR_BEFORE, CLOCKS_GO_BACK);
  }

  lemma MelbourneTimes()
    ensures MELBOURNE(HOUR_BEFORE) == MELBOURNE(CLOCKS_GO_BACK)
  {
    assert MinuteIndex(CLOCKS_GO_BACK) == MinuteIndex(HOUR_BEFORE) + 60;
  }

  /** An hourly task that runs for the hour before the change is never due again. */
  lemma HourlyTaskSticks(t: Task)
    requires t.schedule == HOURLY && t.next == HOUR_BEFORE
    ensures var t' := t.(last := HOUR_BEFORE, next := CLOCKS_GO_BACK);
            && Incremented(t) == (t', true)
            && (forall now: Moment :: !IsDue(t', now, MELBOURNE))
            && (forall now: Moment :: IsPast(t', now) <==> Earlier(CLOCKS_GO_BACK, now))
  {
    HourlyNext();
    MelbourneTimes();
  }
}
