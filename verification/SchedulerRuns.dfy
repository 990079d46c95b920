/** Whole runs of the scheduler: ticks interleaved with resyncs, and the fire times that they publish. */
module SchedulerRuns {
  import opened Wrappers
  import opened Calendar
  import opened Occurrence
  import opened Resources
  import opened SchedulerModel
  import opened Reconciliation

  datatype Step = TickAt(now: Moment) | Resync(items: seq<Resource>, now: Moment)

  datatype State = State(tasks: seq<Task>, log: seq<Event>)

  function Do(parse: Parser, zone: Zone, st: State, step: Step): State {
    match step
    case TickAt(now) => var r := Tick(st.tasks, now, zone); State(r.tasks, st.log + r.events)
    case Resync(items, now) => st.(tasks := Sync(parse, st.tasks, items, now).0)
  }

  function Run(parse: Parser, zone: Zone, st: State, steps: seq<Step>): State
    decreases |steps|
  {
    if steps == [] then st else Run(parse, zone, Do(parse, zone, st, steps[0]), steps[1..])
  }

  /** The fire times published for a uid, in order of publication. */
  function FiresOf(log: seq<Event>, uid: string): seq<Moment> {
    if log == [] then []
    else
      var earlier := FiresOf(log[..|log| - 1], uid);
      if log[|log| - 1].uid == uid then earlier + [log[|log| - 1].fire] else earlier
  }

  lemma {:induction false} FiresOfSum(a: seq<Event>, b: seq<Event>, uid: string)
    ensures FiresOf(a + b, uid) == FiresOf(a, uid) + FiresOf(b, uid)
  {
    if b == [] {
      assert a + b == a;
    } else {
      var b' := b[..|b| - 1];
      FiresOfSum(a, b', uid);
      assert (a + b)[..|a + b| - 1] == a + b';
    }
  }

  // ----- One tick

  /** How a tick treats one task and which fire times it publishes for it. */
  ghost predicate Ticked(t: Task, t': Task, fires: seq<Moment>, now: Moment, zone: Zone, ok: bool) {
    || (t' == t && fires == [] && (ok ==> !IsDue(t, now, zone)))
    || (IsDue(t, now, zone) && t' == Incremented(t).0 && fires == if Incremented(t).1 then [t.next] else [])
  }

  /** Each task is ticked by itself, whatever the others do, except that an exception ends the tick. */
  lemma {:induction false} TickOfTask(tasks: seq<Task>, now: Moment, zone: Zone, i: nat)
    requires i < |tasks| && DistinctTasks(tasks)
    ensures var r := Tick(tasks, now, zone);
            && Ticked(tasks[i], r.tasks[i], FiresOf(r.events, tasks[i].uid), now, zone, r.ok)
            && (r.ok && IsDue(tasks[i], now, zone) ==> Incremented(tasks[i]).1)
    decreases |tasks|
  {
    var rest := Tick(tasks[1..], now, zone);
    var uid := tasks[i].uid;
    if i == 0 {
      NoFires(tasks[1..], now, zone, uid);
      FirstFire(tasks[0], rest.events, now);
    } else {
      LaterFires(tasks, now, zone, uid);
      TickOfTask(tasks[1..], now, zone, i - 1);
    }
  }

  lemma LaterFires(tasks: seq<Task>, now: Moment, zone: Zone, uid: string)
    requires tasks != [] && tasks[0].uid != uid
    ensures var r, rest := Tick(tasks, now, zone), Tick(tasks[1..], now, zone);
            if IsDue(tasks[0], now, zone) && !Incremented(tasks[0]).1
            then !r.ok && r.tasks[1..] == tasks[1..] && FiresOf(r.events, uid) == []
            else r.ok == rest.ok && r.tasks[1..] == rest.tasks && FiresOf(r.events, uid) == FiresOf(rest.events, uid)
  {
    if IsDue(tasks[0], now, zone) && Incremented(tasks[0]).1 {
      OtherFire(Incremented(tasks[0]).0, Tick(tasks[1..], now, zone).events, now, uid);
    }
  }

  lemma FirstFire(t: Task, events: seq<Event>, now: Moment)
    requires FiresOf(events, t.uid) == []
    ensures FiresOf([Event(t.uid, t.item, t.next, now)] + events, t.uid) == [t.next]
  {
    var e := Event(t.uid, t.item, t.next, now);
    FiresOfSum([e], events, t.uid);
    assert FiresOf([e][..0], t.uid) == [];
  }

  lemma OtherFire(t: Task, events: seq<Event>, now: Moment, uid: string)
    requires t.uid != uid
    ensures FiresOf([Event(t.uid, t.item, t.last, now)] + events, uid) == FiresOf(events, uid)
  {
    var e := Event(t.uid, t.item, t.last, now);
    FiresOfSum([e], events, uid);
    assert FiresOf([e][..0], uid) == [];
  }

  lemma {:induction false} NoFires(tasks: seq<Task>, now: Moment, zone: Zone, uid: string)
    requires forall t <- tasks :: t.uid != uid
    ensures FiresOf(Tick(tasks, now, zone).events, uid) == []
    decreases |tasks|
  {
    if tasks != [] {
      assert tasks[0] in tasks;
      NoFires(tasks[1..], now, zone, uid);
      if IsDue(tasks[0], now, zone) && Incremented(tasks[0]).1 {
        OtherFire(Incremented(tasks[0]).0, Tick(tasks[1..], now, zone).events, now, uid);
      }
    }
  }

  lemma {:induction false} TickKeepsItems(tasks: seq<Task>, now: Moment, zone: Zone)
    ensures var r := Tick(tasks, now, zone);
            forall i | 0 <= i < |tasks| ::
              && r.tasks[i].uid == tasks[i].uid && r.tasks[i].item == tasks[i].item
              && r.tasks[i].schedule == tasks[i].schedule
    decreases |tasks|
  {
    if tasks != [] {
      TickKeepsItems(tasks[1..], now, zone);
    }
  }

  lemma TickKeepsProper(parse: Parser, zone: Zone, tasks: seq<Task>, keyOf: string -> string, now: Moment, uid: string)
    requires ProperTasks(tasks, keyOf) && SchedulesParsed(parse, tasks)
    ensures var tasks' := Tick(tasks, now, zone).tasks;
            ProperTasks(tasks', keyOf) && SchedulesParsed(parse, tasks') && FindUid(tasks', uid) == FindUid(tasks, uid)
  {
    TickKeepsItems(tasks, now, zone);
    var tasks' := Tick(tasks, now, zone).tasks;
    forall t' <- tasks' ensures t'.item.uid == t'.uid && t'.item.Key() == keyOf(t'.uid) &&
                                parse(t'.item.schedule) == Some(t'.schedule)
    {
      var i :| 0 <= i < |tasks'| && tasks'[i] == t';
      assert tasks[i] in tasks;
    }
    SameUidsSameFind(tasks, tasks', uid);
  }

  /** A tick publishes nothing before it is due on the local clock. */
  lemma {:induction false} TickPublishesDue(tasks: seq<Task>, now: Moment, zone: Zone)
    ensures forall e <- Tick(tasks, now, zone).events :: e.tick == now && zone(e.fire) < zone(now)
    decreases |tasks|
  {
    if tasks != [] {
      TickPublishesDue(tasks[1..], now, zone);
    }
  }

  /** A message carries the item and the due time of a due task, and the time of the tick. */
  lemma {:induction false} TickPublishesTasks(tasks: seq<Task>, now: Moment, zone: Zone)
    ensures forall e <- Tick(tasks, now, zone).events :: exists i ::
      && 0 <= i < |tasks| && IsDue(tasks[i], now, zone)
      && e.uid == tasks[i].uid && e.item == tasks[i].item && e.fire == tasks[i].next && e.tick == now
    decreases |tasks|
  {
    if tasks != [] {
      TickPublishesTasks(tasks[1..], now, zone);
      forall e <- Tick(tasks, now, zone).events ensures exists i ::
        && 0 <= i < |tasks| && IsDue(tasks[i], now, zone)
        && e.uid == tasks[i].uid && e.item == tasks[i].item && e.fire == tasks[i].next && e.tick == now
      {
        if e in Tick(tasks[1..], now, zone).events {
          var i :| 0 <= i < |tasks[1..]| && IsDue(tasks[1..][i], now, zone) && e.uid == tasks[1..][i].uid &&
            e.item == tasks[1..][i].item && e.fire == tasks[1..][i].next && e.tick == now;
          assert tasks[i + 1] == tasks[1..][i];
        }
      }
    }
  }

  // ----- The timeline of one task

  /** The fire times are the creation time and then each next match of the schedule, and the task waits for
      the one after the last; or it has stopped because the calendar has none. */
  ghost predicate Timeline(created: Moment, t: Task, fires: seq<Moment>) {
    && (if fires == [] then t.next == created
        else fires[0] == created && NextMatch(t.schedule, fires[|fires| - 1]) == Some(t.next))
    && (forall i | 0 <= i < |fires| - 1 :: NextMatch(t.schedule, fires[i]) == Some(fires[i + 1]))
    && (|| t.last == (if fires == [] then MIN_VALUE else fires[|fires| - 1])
        || (t.last == t.next && NextMatch(t.schedule, t.next).None?))
  }

  lemma TickedTimeline(created: Moment, t: Task, t': Task, before: seq<Moment>, fires: seq<Moment>, now: Moment,
                       zone: Zone, ok: bool)
    requires Timeline(created, t, before) && Ticked(t, t', fires, now, zone, ok)
    ensures Timeline(created, t', before + fires)
  {
    assert before + [] == before;
  }

  /** The state of the task of a uid: where it is, its text, and its timeline so far. */
  ghost predicate OnTime(parse: Parser, st: State, keyOf: string -> string, uid: string, text: string,
                         created: Moment) {
    && ProperTasks(st.tasks, keyOf) && SchedulesParsed(parse, st.tasks)
    && var i := FindUid(st.tasks, uid);
       i != -1 && st.tasks[i].item.schedule == text && Timeline(created, st.tasks[i], FiresOf(st.log, uid))
  }

  /** Resyncs list proper items, among them the uid with its text unchanged. */
  ghost predicate KeepsText(steps: seq<Step>, keyOf: string -> string, uid: string, text: string) {
    forall s <- steps :: s.Resync? ==> KeepsTextIn(s.items, keyOf, uid, text)
  }

  ghost predicate KeepsTextIn(items: seq<Resource>, keyOf: string -> string, uid: string, text: string) {
    ProperItems(items, keyOf) && ItemFor(items, uid).Some? && ItemFor(items, uid).value.schedule == text
  }

  lemma TickOnTime(parse: Parser, zone: Zone, st: State, now: Moment, keyOf: string -> string, uid: string,
                   text: string, created: Moment)
    requires OnTime(parse, st, keyOf, uid, text, created)
    ensures OnTime(parse, Do(parse, zone, st, TickAt(now)), keyOf, uid, text, created)
  {
    var i, r := FindUid(st.tasks, uid), Tick(st.tasks, now, zone);
    TickKeepsProper(parse, zone, st.tasks, keyOf, now, uid);
    TickKeepsItems(st.tasks, now, zone);
    TickOfTask(st.tasks, now, zone, i);
    FiresOfSum(st.log, r.events, uid);
    TickedTimeline(created, st.tasks[i], r.tasks[i], FiresOf(st.log, uid), FiresOf(r.events, uid), now, zone, r.ok);
  }

  lemma ResyncOnTime(parse: Parser, zone: Zone, st: State, items: seq<Resource>, now: Moment, keyOf: string -> string,
                     uid: string, text: string, created: Moment)
    requires OnTime(parse, st, keyOf, uid, text, created) && KeepsTextIn(items, keyOf, uid, text)
    ensures OnTime(parse, Do(parse, zone, st, Resync(items, now)), keyOf, uid, text, created)
  {
    SyncIs(parse, st.tasks, items, keyOf, now);
    SyncKeepsTimer(parse, st.tasks, items, keyOf, now, uid);
    TimerKeptOnTime(parse, st, Sync(parse, st.tasks, items, now).0, keyOf, uid, text, created);
  }

  lemma TimerKeptOnTime(parse: Parser, st: State, tasks: seq<Task>, keyOf: string -> string, uid: string,
                        text: string, created: Moment)
    requires OnTime(parse, st, keyOf, uid, text, created) && TimerKept(st.tasks, tasks, uid)
    requires ProperTasks(tasks, keyOf) && SchedulesParsed(parse, tasks)
    ensures OnTime(parse, State(tasks, st.log), keyOf, uid, text, created)
  {
    var t, t' := st.tasks[FindUid(st.tasks, uid)], tasks[FindUid(tasks, uid)];
    SameTimerTimeline(created, t, t', FiresOf(st.log, uid));
  }

  lemma SameTimerTimeline(created: Moment, t: Task, t': Task, fires: seq<Moment>)
    requires Timeline(created, t, fires) && SameTimer(t, t')
    ensures Timeline(created, t', fires)
  {
  }

  lemma StepOnTime(parse: Parser, zone: Zone, st: State, step: Step, keyOf: string -> string, uid: string,
                   text: string, created: Moment)
    requires OnTime(parse, st, keyOf, uid, text, created)
    requires step.Resync? ==> KeepsTextIn(step.items, keyOf, uid, text)
    ensures OnTime(parse, Do(parse, zone, st, step), keyOf, uid, text, created)
  {
    match step {
      case TickAt(now) => TickOnTime(parse, zone, st, now, keyOf, uid, text, created);
      case Resync(items, now) => ResyncOnTime(parse, zone, st, items, now, keyOf, uid, text, created);
    }
  }

  /** Over any run of ticks and of resyncs, failed ones included, that leave a task's schedule text
      unchanged, the task stays on its timeline. */
  lemma {:induction false} RunOnTime(parse: Parser, zone: Zone, st: State, steps: seq<Step>, keyOf: string -> string,
                                     uid: string, text: string, created: Moment)
    requires OnTime(parse, st, keyOf, uid, text, created) && KeepsText(steps, keyOf, uid, text)
    ensures OnTime(parse, Run(parse, zone, st, steps), keyOf, uid, text, created)
    decreases |steps|
  {
    if steps != [] {
      assert steps[0] in steps && forall s <- steps[1..] :: s in steps;
      StepOnTime(parse, zone, st, steps[0], keyOf, uid, text, created);
      RunOnTime(parse, zone, Do(parse, zone, st, steps[0]), steps[1..], keyOf, uid, text, created);
    }
  }

  /** The fire times published so far: the creation time first, then matching minutes only, strictly
      increasing, and no matching minute up to the last one is missing. */
  ghost predicate ExactFires(schedule: Schedule, created: Moment, fires: seq<Moment>) {
    && (fires != [] ==> fires[0] == created)
    && (forall i | 1 <= i < |fires| :: Matches(schedule, fires[i]))
    && (forall i, j | 0 <= i < j < |fires| :: Earlier(fires[i], fires[j]))
    && (fires != [] ==> forall u: Moment ::
          Matches(schedule, u) && Earlier(created, u) && !Earlier(fires[|fires| - 1], u) ==> u in fires)
  }

  lemma {:induction false} ChainIsExact(schedule: Schedule, fires: seq<Moment>)
    requires fires != []
    requires forall i | 0 <= i < |fires| - 1 :: NextMatch(schedule, fires[i]) == Some(fires[i + 1])
    ensures ExactFires(schedule, fires[0], fires)
  {
    if |fires| > 1 {
      var earlier, last := fires[..|fires| - 1], fires[|fires| - 1];
      ChainIsExact(schedule, earlier);
      NextMatchIsEarliest(schedule, earlier[|earlier| - 1]);
      ChainExtended(schedule, earlier, last);
      assert fires == earlier + [last];
    }
  }

  lemma ChainExtended(schedule: Schedule, earlier: seq<Moment>, last: Moment)
    requires earlier != [] && ExactFires(schedule, earlier[0], earlier)
    requires Matches(schedule, last) && Earlier(earlier[|earlier| - 1], last)
    requires forall v: Moment :: Matches(schedule, v) && Earlier(earlier[|earlier| - 1], v) ==> !Earlier(v, last)
    ensures ExactFires(schedule, earlier[0], earlier + [last])
  {
    var fires := earlier + [last];
    forall u: Moment | Matches(schedule, u) && Earlier(earlier[0], u) && !Earlier(last, u) ensures u in fires {
      if Earlier(earlier[|earlier| - 1], u) {
        EarlierIsTickOrder(u, last);
        EarlierIsTickOrder(last, u);
        assert fires[|earlier|] == last;
      } else {
        assert u in earlier;
      }
    }
  }

  /** From its creation on, over any such run, the fire times published for a task are exact, and none was
      published before it was due, by the local clock and so by any clock that keeps the order of time. */
  lemma FireTimesAreExact(parse: Parser, zone: Zone, st: State, steps: seq<Step>, keyOf: string -> string,
                          uid: string, created: Moment)
    requires ProperTasks(st.tasks, keyOf) && SchedulesParsed(parse, st.tasks) && FiresOf(st.log, uid) == []
    requires FindUid(st.tasks, uid) != -1
    requires var t := st.tasks[FindUid(st.tasks, uid)];
             NewTask(parse, t.item, created) == Some(t) && KeepsText(steps, keyOf, uid, t.item.schedule)
    requires forall e <- st.log :: zone(e.fire) < zone(e.tick)
    ensures var t := st.tasks[FindUid(st.tasks, uid)];
            var end := Run(parse, zone, st, steps);
            && ExactFires(t.schedule, created, FiresOf(end.log, uid))
            && (forall e <- end.log :: zone(e.fire) < zone(e.tick))
            && (KeepsOrder(zone) ==> forall e <- end.log :: Earlier(e.fire, e.tick))
  {
    var t := st.tasks[FindUid(st.tasks, uid)];
    assert t in st.tasks;
    RunOnTime(parse, zone, st, steps, keyOf, uid, t.item.schedule, created);
    RunPublishesDue(parse, zone, st, steps);
    var end := Run(parse, zone, st, steps);
    var fires, t' := FiresOf(end.log, uid), end.tasks[FindUid(end.tasks, uid)];
    assert t' in end.tasks;
    assert t'.schedule == t.schedule;
    if fires != [] {
      ChainIsExact(t.schedule, fires);
    }
  }

  lemma {:induction false} RunPublishesDue(parse: Parser, zone: Zone, st: State, steps: seq<Step>)
    requires forall e <- st.log :: zone(e.fire) < zone(e.tick)
    ensures forall e <- Run(parse, zone, st, steps).log :: zone(e.fire) < zone(e.tick)
    decreases |steps|
  {
    if steps != [] {
      if steps[0].TickAt? {
        TickPublishesDue(st.tasks, steps[0].now, zone);
      }
      RunPublishesDue(parse, zone, Do(parse, zone, st, steps[0]), steps[1..]);
    }
  }

  // ----- Bounded lag

  /** After a tick, the task waits for a time later than one minute before that tick: either a minute of its
      schedule, or still its creation time, which is then not before the tick. */
  ghost predicate LagBounded(t: Task, created: Moment, tick: Moment) {
    || (t.next.tick == 0 && Ticks(t.next) > Ticks(tick) - TICKS_PER_MINUTE)
    || (t.next == created && Ticks(created) >= Ticks(tick))
  }

  lemma TickedLag(created: Moment, t: Task, t': Task, before: seq<Moment>, fires: seq<Moment>, last: Moment,
                  now: Moment, zone: Zone)
    requires Timeline(created, t, before) && Ticked(t, t', fires, now, zone, true) && LagBounded(t, created, last)
    requires (IsPast(t, now) ==> IsDue(t, now, zone)) && (IsDue(t, now, zone) ==> Incremented(t).1)
    requires t.schedule.Valid() && HasPossibleDate(t.schedule) && created != MIN_VALUE
    requires created.year + CYCLE_YEARS <= MAX_YEAR && now.year + CYCLE_YEARS <= MAX_YEAR
    requires Ticks(now) <= Ticks(last) + TICKS_PER_MINUTE
    ensures LagBounded(t', created, now)
  {
    if IsDue(t, now, zone) {
      NextIsMinuteLater(t.schedule, t.next);
    } else {
      NotPastIsNotBefore(created, t, before, now);
    }
  }

  /** The next match is a whole minute, and later by a minute or more than a whole minute. */
  lemma NextIsMinuteLater(schedule: Schedule, t: Moment)
    requires NextMatch(schedule, t).Some?
    ensures var n := NextMatch(schedule, t).value;
            n.tick == 0 && Ticks(t) < Ticks(n) && (t.tick == 0 ==> Ticks(t) + TICKS_PER_MINUTE <= Ticks(n))
  {
    NextMatchIsEarliest(schedule, t);
    var n := NextMatch(schedule, t).value;
    EarlierIsTickOrder(t, n);
    WholeMinutes(MinuteIndex(t), MinuteIndex(n));
  }

  lemma WholeMinutes(a: int, b: int)
    ensures a * TICKS_PER_MINUTE < b * TICKS_PER_MINUTE ==>
            a * TICKS_PER_MINUTE + TICKS_PER_MINUTE <= b * TICKS_PER_MINUTE
  {
  }

  /** A task whose next run is not past waits for a time that is not before now, as it has not stopped. */
  lemma NotPastIsNotBefore(created: Moment, t: Task, before: seq<Moment>, now: Moment)
    requires Timeline(created, t, before) && !IsPast(t, now) && created != MIN_VALUE
    requires t.schedule.Valid() && HasPossibleDate(t.schedule) && now.year + CYCLE_YEARS <= MAX_YEAR
    ensures Ticks(now) <= Ticks(t.next)
  {
    EarlierIsTickOrder(t.next, now);
    if Earlier(t.next, now) {
      SatisfiableIffPossibleDate(t.schedule, t.next);
      LastIsNotNext(created, t, before);
    }
  }

  lemma LastIsNotNext(created: Moment, t: Task, before: seq<Moment>)
    requires Timeline(created, t, before) && NextMatch(t.schedule, t.next).Some? && created != MIN_VALUE
    ensures t.last != t.next
  {
    if before != [] {
      NextMatchIsEarliest(t.schedule, before[|before| - 1]);
    }
  }

  /** Every task's schedule can go on forever, as far as the calendar reaches. */
  ghost predicate AllSatisfiable(tasks: seq<Task>) {
    forall t <- tasks :: t.schedule.Valid() && HasPossibleDate(t.schedule)
  }

  ghost predicate SatisfiableItems(parse: Parser, items: seq<Resource>) {
    forall x <- items ::
      parse(x.schedule).Some? && parse(x.schedule).value.Valid() && HasPossibleDate(parse(x.schedule).value)
  }

  /** Every time that the local clock places before now has a whole cycle of the calendar after it. */
  ghost predicate BeforeLastCycle(zone: Zone, now: Moment) {
    forall t: Moment :: zone(t) < zone(now) ==> t.year + CYCLE_YEARS <= MAX_YEAR
  }

  lemma {:induction false} SatisfiableTickSucceeds(tasks: seq<Task>, now: Moment, zone: Zone)
    requires AllSatisfiable(tasks) && BeforeLastCycle(zone, now)
    ensures Tick(tasks, now, zone).ok
    decreases |tasks|
  {
    if tasks != [] {
      assert tasks[0] in tasks && forall t <- tasks[1..] :: t in tasks;
      SatisfiableTickSucceeds(tasks[1..], now, zone);
      if IsDue(tasks[0], now, zone) {
        SatisfiableIffPossibleDate(tasks[0].schedule, tasks[0].next);
      }
    }
  }

  lemma TickKeepsSatisfiable(tasks: seq<Task>, now: Moment, zone: Zone)
    requires AllSatisfiable(tasks)
    ensures AllSatisfiable(Tick(tasks, now, zone).tasks)
  {
    TickKeepsItems(tasks, now, zone);
    forall t' <- Tick(tasks, now, zone).tasks ensures t'.schedule.Valid() && HasPossibleDate(t'.schedule) {
      var i :| 0 <= i < |tasks| && Tick(tasks, now, zone).tasks[i] == t';
      assert tasks[i] in tasks;
    }
  }

  lemma SyncKeepsSatisfiable(parse: Parser, tasks: seq<Task>, items: seq<Resource>, keyOf: string -> string,
                             now: Moment)
    requires ProperTasks(tasks, keyOf) && ProperItems(items, keyOf) && SchedulesParsed(parse, tasks)
    requires SatisfiableItems(parse, items) && now.year + CYCLE_YEARS <= MAX_YEAR
    ensures AllSatisfiable(Sync(parse, tasks, items, now).0)
  {
    forall x <- items ensures CanRun(parse, x, now) {
      SatisfiableIffPossibleDate(parse(x.schedule).value, now);
    }
    SyncReconciles(parse, tasks, items, keyOf, now);
    SyncIs(parse, tasks, items, keyOf, now);
    var after := Sync(parse, tasks, items, now).0;
    forall t <- after ensures t.schedule.Valid() && HasPossibleDate(t.schedule) {
      var i :| 0 <= i < |after| && after[i] == t;
      FoundAt(after, i);
      var x := ItemFor(items, t.uid).value;
      assert CarriesItem(parse, tasks, x, now, after[FindUid(after, x.uid)]);
    }
  }

  /** Ticks follow each other, and the given earlier time, within a minute, in years up to 9599 by either clock,
      and the items synced are satisfiable. */
  ghost predicate Regular(parse: Parser, zone: Zone, steps: seq<Step>, last: Moment)
    decreases |steps|
  {
    steps != [] ==>
      && steps[0].now.year + CYCLE_YEARS <= MAX_YEAR
      && match steps[0]
         case TickAt(now) =>
           && Ticks(now) <= Ticks(last) + TICKS_PER_MINUTE && BeforeLastCycle(zone, now)
           && Regular(parse, zone, steps[1..], now)
         case Resync(items, _) => SatisfiableItems(parse, items) && Regular(parse, zone, steps[1..], last)
  }

  /** No tick of the run overlooks the task of the uid: if its next run is past, the local test says so. */
  ghost predicate NeverOverlooked(parse: Parser, zone: Zone, st: State, steps: seq<Step>, uid: string)
    decreases |steps|
  {
    steps != [] ==>
      && (steps[0].TickAt? ==> NotOverlooked(zone, st.tasks, uid, steps[0].now))
      && NeverOverlooked(parse, zone, Do(parse, zone, st, steps[0]), steps[1..], uid)
  }

  predicate NotOverlooked(zone: Zone, tasks: seq<Task>, uid: string, now: Moment) {
    var i := FindUid(tasks, uid);
    i != -1 && IsPast(tasks[i], now) ==> IsDue(tasks[i], now, zone)
  }

  function LastTick(steps: seq<Step>, last: Moment): Moment
    decreases |steps|
  {
    if steps == [] then last
    else LastTick(steps[1..], if steps[0].TickAt? then steps[0].now else last)
  }

  /** What a regular run keeps for the task of a uid. */
  ghost predicate LagKept(parse: Parser, st: State, keyOf: string -> string, uid: string, text: string,
                          created: Moment, last: Moment)
  {
    && OnTime(parse, st, keyOf, uid, text, created) && AllSatisfiable(st.tasks)
    && LagBounded(st.tasks[FindUid(st.tasks, uid)], created, last)
  }

  lemma TickLag(parse: Parser, zone: Zone, st: State, now: Moment, keyOf: string -> string, uid: string, text: string,
                created: Moment, last: Moment)
    requires LagKept(parse, st, keyOf, uid, text, created, last) && created != MIN_VALUE
    requires created.year + CYCLE_YEARS <= MAX_YEAR && now.year + CYCLE_YEARS <= MAX_YEAR
    requires Ticks(now) <= Ticks(last) + TICKS_PER_MINUTE
    requires NotOverlooked(zone, st.tasks, uid, now) && BeforeLastCycle(zone, now)
    ensures LagKept(parse, Do(parse, zone, st, TickAt(now)), keyOf, uid, text, created, now)
  {
    var i := FindUid(st.tasks, uid);
    var r := Tick(st.tasks, now, zone);
    TickOnTime(parse, zone, st, now, keyOf, uid, text, created);
    TickKeepsSatisfiable(st.tasks, now, zone);
    SatisfiableTickSucceeds(st.tasks, now, zone);
    TickKeepsProper(parse, zone, st.tasks, keyOf, now, uid);
    TickOfTask(st.tasks, now, zone, i);
    assert st.tasks[i] in st.tasks;
    TickedLag(created, st.tasks[i], r.tasks[i], FiresOf(st.log, uid), FiresOf(r.events, uid), last, now, zone);
  }

  lemma ResyncLag(parse: Parser, zone: Zone, st: State, items: seq<Resource>, now: Moment, keyOf: string -> string,
                  uid: string,
                  text: string, created: Moment, last: Moment)
    requires LagKept(parse, st, keyOf, uid, text, created, last) && KeepsTextIn(items, keyOf, uid, text)
    requires SatisfiableItems(parse, items) && now.year + CYCLE_YEARS <= MAX_YEAR
    ensures LagKept(parse, Do(parse, zone, st, Resync(items, now)), keyOf, uid, text, created, last)
  {
    ResyncOnTime(parse, zone, st, items, now, keyOf, uid, text, created);
    SyncKeepsTimer(parse, st.tasks, items, keyOf, now, uid);
    SyncKeepsSatisfiable(parse, st.tasks, items, keyOf, now);
  }

  lemma {:induction false} RunLag(parse: Parser, zone: Zone, st: State, steps: seq<Step>, keyOf: string -> string,
                                  uid: string,
                                  text: string, created: Moment, last: Moment)
    requires LagKept(parse, st, keyOf, uid, text, created, last) && created != MIN_VALUE
    requires KeepsText(steps, keyOf, uid, text) && Regular(parse, zone, steps, last)
    requires NeverOverlooked(parse, zone, st, steps, uid)
    requires created.year + CYCLE_YEARS <= MAX_YEAR
    ensures LagKept(parse, Run(parse, zone, st, steps), keyOf, uid, text, created, LastTick(steps, last))
    decreases |steps|
  {
    if steps != [] {
      assert steps[0] in steps && forall s <- steps[1..] :: s in steps;
      match steps[0] {
        case TickAt(now) =>
          TickLag(parse, zone, st, now, keyOf, uid, text, created, last);
          RunLag(parse, zone, Do(parse, zone, st, steps[0]), steps[1..], keyOf, uid, text, created, now);
        case Resync(items, now) =>
          ResyncLag(parse, zone, st, items, now, keyOf, uid, text, created, last);
          RunLag(parse, zone, Do(parse, zone, st, steps[0]), steps[1..], keyOf, uid, text, created, last);
      }
    }
  }

  /** Bounded lag: if ticks follow each other within a minute, the first within a minute of the task's creation,
      and no tick overlooks the task because of its local clock, then after every tick the task's next run is later
      than a minute before that tick, although a tick runs at most one occurrence of a task. */
  lemma LagIsBounded(parse: Parser, zone: Zone, st: State, steps: seq<Step>, keyOf: string -> string,
                     uid: string, created: Moment)
    requires ProperTasks(st.tasks, keyOf) && SchedulesParsed(parse, st.tasks) && AllSatisfiable(st.tasks)
    requires FiresOf(st.log, uid) == [] && FindUid(st.tasks, uid) != -1
    requires var t := st.tasks[FindUid(st.tasks, uid)];
             NewTask(parse, t.item, created) == Some(t) && KeepsText(steps, keyOf, uid, t.item.schedule)
    requires created != MIN_VALUE && created.year + CYCLE_YEARS <= MAX_YEAR
    requires Regular(parse, zone, steps, created) && NeverOverlooked(parse, zone, st, steps, uid)
    ensures var end, tick := Run(parse, zone, st, steps), LastTick(steps, created);
            && FindUid(end.tasks, uid) != -1
            && Ticks(end.tasks[FindUid(end.tasks, uid)].next) > Ticks(tick) - TICKS_PER_MINUTE
  {
    var t := st.tasks[FindUid(st.tasks, uid)];
    RunLag(parse, zone, st, steps, keyOf, uid, t.item.schedule, created, created);
  }
}
