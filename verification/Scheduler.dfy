/** The scheduler's objects: tasks that are updated in place, the repository that holds them, and the
    job that ticks over a snapshot of them. */
module Scheduler {
  import opened Wrappers
  import opened Calendar
  import opened Occurrence
  import opened Resources
  import opened SchedulerModel
  import opened TickPhases
  import Reconciliation

  class ScheduledTask {
    var uid: string
    var schedule: Schedule
    var task: Resource
    var lastRunTime: Moment
    var nextRunTime: Moment

    function Abs(): Task
      reads this
    {
      Task(uid, schedule, task, lastRunTime, nextRunTime)
    }

    constructor (task: Resource, schedule: Schedule, referenceTime: Moment)
      ensures Abs() == Task(task.uid, schedule, task, MIN_VALUE, referenceTime)
    {
      this.uid := task.uid;
      this.schedule := schedule;
      this.task := task;
      this.lastRunTime := MIN_VALUE;
      this.nextRunTime := referenceTime;
    }

    /** The source's constructor; None is the exception of a text that does not parse. */
    static method Create(parse: Parser, task: Resource, referenceTime: Moment) returns (r: Option<ScheduledTask>)
      ensures r.None? <==> NewTask(parse, task, referenceTime).None?
      ensures r.Some? ==> fresh(r.value) && NewTask(parse, task, referenceTime) == Some(r.value.Abs())
    {
      match parse(task.schedule) {
        case None => r := None;
        case Some(schedule) =>
          var t := new ScheduledTask(task, schedule, referenceTime);
          r := Some(t);
      }
    }

    /** False is an exception, thrown after the last run time was set. */
    method Increment() returns (ok: bool)
      modifies this
      ensures (Abs(), ok) == Incremented(old(Abs()))
    {
      lastRunTime := nextRunTime;
      match NextMatch(schedule, nextRunTime) {
        case None => ok := false;
        case Some(n) =>
          nextRunTime := n;
          ok := true;
      }
    }

    /** Times are compared as the clocks of a time zone show them. */
    predicate ShouldRun(currentTime: Moment, zone: Zone)
      reads this
      ensures ShouldRun(currentTime, zone) <==> IsDue(Abs(), currentTime, zone)
    {
      var localNextRunTime := zone(nextRunTime);
      var localCurrentTime, localLastRunTime := zone(currentTime), zone(lastRunTime);
      localNextRunTime < localCurrentTime && localLastRunTime != localNextRunTime
    }
  }

  function AbsAll(tasks: seq<ScheduledTask>): (r: seq<Task>)
    reads tasks
    ensures |r| == |tasks| && forall i | 0 <= i < |tasks| :: r[i] == tasks[i].Abs()
  {
    seq(|tasks|, i requires 0 <= i < |tasks| reads tasks => tasks[i].Abs())
  }

  ghost predicate Distinct(tasks: seq<ScheduledTask>) {
    forall i, j | 0 <= i < j < |tasks| :: tasks[i] != tasks[j]
  }

  function AllTasks(repositories: seq<SchedulerRepository>): seq<ScheduledTask>
    reads repositories
  {
    if repositories == [] then [] else repositories[0].scheduledTasks + AllTasks(repositories[1..])
  }

  /** How many tasks the repositories hold. */
  function TaskCount(repositories: seq<SchedulerRepository>): nat
    reads repositories
  {
    if repositories == [] then 0 else |repositories[0].scheduledTasks| + TaskCount(repositories[1..])
  }

  /** A snapshot holds the tasks of every repository, one repository after the other: those of the i-th stand behind
      as many as the ones before it hold, in their order. */
  lemma {:induction false} SnapshotHoldsAll(repositories: seq<SchedulerRepository>, i: nat)
    requires i < |repositories|
    ensures var start, tasks := TaskCount(repositories[..i]), repositories[i].scheduledTasks;
            && |AllTasks(repositories)| == TaskCount(repositories)
            && start + |tasks| <= |AllTasks(repositories)|
            && AllTasks(repositories)[start..start + |tasks|] == tasks
    decreases |repositories|
  {
    var first, rest := repositories[0].scheduledTasks, repositories[1..];
    SnapshotLength(repositories);
    if i > 0 {
      SnapshotHoldsAll(rest, i - 1);
      assert repositories[..i][1..] == rest[..i - 1];
      var start, n := TaskCount(rest[..i - 1]), |repositories[i].scheduledTasks|;
      BehindFirst(first, AllTasks(rest), start, n);
    }
  }

  lemma {:induction false} SnapshotLength(repositories: seq<SchedulerRepository>)
    ensures |AllTasks(repositories)| == TaskCount(repositories)
  {
    if repositories != [] {
      SnapshotLength(repositories[1..]);
    }
  }

  lemma BehindFirst(first: seq<ScheduledTask>, rest: seq<ScheduledTask>, start: nat, n: nat)
    requires start + n <= |rest|
    ensures (first + rest)[|first| + start..|first| + start + n] == rest[start..start + n]
  {
  }

  /** Repositories that share no task object give a snapshot without duplicates. */
  lemma {:induction false} SnapshotIsDistinct(repositories: seq<SchedulerRepository>)
    requires forall r <- repositories :: Distinct(r.scheduledTasks)
    requires forall i, j | 0 <= i < j < |repositories| ::
      forall t <- repositories[i].scheduledTasks :: t !in repositories[j].scheduledTasks
    ensures Distinct(AllTasks(repositories))
    ensures forall t <- AllTasks(repositories) :: exists r :: r in repositories && t in r.scheduledTasks
  {
    if repositories != [] {
      var first, rest := repositories[0], repositories[1..];
      assert first in repositories && forall r <- rest :: r in repositories;
      SnapshotIsDistinct(rest);
      forall r <- rest ensures forall t <- first.scheduledTasks :: t !in r.scheduledTasks {
        var j :| 0 <= j < |rest| && rest[j] == r;
        assert repositories[j + 1] == r;
      }
      DistinctSum(first.scheduledTasks, AllTasks(rest));
      forall t <- AllTasks(repositories) ensures exists r :: r in repositories && t in r.scheduledTasks {
        if t !in first.scheduledTasks {
          var r :| r in rest && t in r.scheduledTasks;
          assert r in repositories;
        }
      }
    }
  }

  lemma DistinctSum(a: seq<ScheduledTask>, b: seq<ScheduledTask>)
    requires Distinct(a) && Distinct(b) && forall t <- a :: t !in b
    ensures Distinct(a + b)
  {
    forall i, j | 0 <= i < j < |a + b| ensures (a + b)[i] != (a + b)[j] {
      if i < |a| <= j {
        assert a[i] in a && b[j - |a|] in b;
      }
    }
  }

  class BusScheduler {
    var scheduledTasks: seq<ScheduledTask>
    /** What has been published on the bus. */
    var published: seq<Event>

    /** A snapshot of the tasks of all registered repositories. */
    constructor (repositories: seq<SchedulerRepository>)
      ensures scheduledTasks == AllTasks(repositories) && published == []
    {
      var tasks: seq<ScheduledTask> := [];
      for k := 0 to |repositories|
        invariant AllTasks(repositories) == tasks + AllTasks(repositories[k..])
      {
        assert repositories[k..][1..] == repositories[k + 1..];
        tasks := tasks + repositories[k].scheduledTasks;
      }
      scheduledTasks := tasks;
      published := [];
    }

    /** One tick; false is an exception, which ends it. */
    method Execute(referenceTime: Moment, zone: Zone) returns (ok: bool)
      requires Distinct(scheduledTasks)
      modifies this`published, scheduledTasks
      ensures var r := Tick(old(AbsAll(scheduledTasks)), referenceTime, zone);
              && AbsAll(scheduledTasks) == r.tasks
              && published == old(published) + r.events
              && ok == r.ok
    {
      var tasksThatShouldRun, positions := Collect(referenceTime, zone);
      ghost var events;
      ok, events := RunAll(tasksThatShouldRun, AbsAll(scheduledTasks), positions, referenceTime, zone);
    }

    /** The loop of Execute. */
    method RunAll(due: seq<ScheduledTask>, ghost before: seq<Task>, ghost positions: seq<nat>,
                  referenceTime: Moment, zone: Zone)
      returns (ok: bool, ghost events: seq<Event>)
      requires Distinct(scheduledTasks) && before == AbsAll(scheduledTasks)
      requires DuePositions(before, |before|, positions, referenceTime, zone)
      requires |due| == |positions| && forall k | 0 <= k < |positions| :: due[k] == scheduledTasks[positions[k]]
      modifies this`published, scheduledTasks
      ensures published == old(published) + events
      ensures Tick(before, referenceTime, zone) == TickResult(AbsAll(scheduledTasks), events, ok)
    {
      events := [];
      ghost var current := before;
      TickFromFirstDue(before, positions, referenceTime, zone);
      for k := 0 to |due|
        invariant scheduledTasks == old(scheduledTasks) && published == old(published) + events
        invariant current == AbsAll(scheduledTasks)
        invariant TickedUpTo(before, current, events, Upcoming(before, positions, k), referenceTime, zone)
      {
        ghost var p, q := Upcoming(before, positions, k), Upcoming(before, positions, k + 1);
        NextIsDue(before, positions, k, referenceTime, zone);
        ok, events := RunNext(due[k], before, p, q, old(published), events, referenceTime, zone);
        current := AbsAll(scheduledTasks);
        if !ok {
          return;
        }
      }
      EverythingTicked(before, current, events, referenceTime, zone);
      ok := true;
    }

    /** The due tasks, in order, with their positions. */
    method Collect(referenceTime: Moment, zone: Zone) returns (due: seq<ScheduledTask>, ghost positions: seq<nat>)
      ensures DuePositions(AbsAll(scheduledTasks), |scheduledTasks|, positions, referenceTime, zone)
      ensures |due| == |positions| && forall k | 0 <= k < |positions| :: due[k] == scheduledTasks[positions[k]]
    {
      due, positions := [], [];
      for i := 0 to |scheduledTasks|
        invariant DuePositions(AbsAll(scheduledTasks), i, positions, referenceTime, zone)
        invariant |due| == |positions| && forall k | 0 <= k < |positions| :: due[k] == scheduledTasks[positions[k]]
      {
        if scheduledTasks[i].ShouldRun(referenceTime, zone) {
          due := due + [scheduledTasks[i]];
          positions := positions + [i];
        }
      }
    }

    /** The next due task is one more step of the tick; its exception is the last one. */
    method RunNext(t: ScheduledTask, ghost before: seq<Task>, ghost p: nat, ghost q: nat, ghost earlier: seq<Event>,
                   ghost events: seq<Event>, referenceTime: Moment, zone: Zone)
      returns (ok: bool, ghost events': seq<Event>)
      requires Distinct(scheduledTasks) && published == earlier + events
      requires NextDue(before, p, q, referenceTime, zone) && p < |scheduledTasks| && t == scheduledTasks[p]
      requires TickedUpTo(before, AbsAll(scheduledTasks), events, p, referenceTime, zone)
      modifies this`published, scheduledTasks
      ensures published == earlier + events'
      ensures if ok then TickedUpTo(before, AbsAll(scheduledTasks), events', q, referenceTime, zone)
              else Tick(before, referenceTime, zone) == TickResult(AbsAll(scheduledTasks), events', false)
    {
      ghost var current := AbsAll(scheduledTasks);
      ok := RunOne(t, p, referenceTime);
      TickedOneMore(before, current, AbsAll(scheduledTasks), p, q, events, referenceTime, zone);
      events' := if ok then events + [Fired(before[p], referenceTime)] else events;
    }

    /** The body of Execute's loop: a due task is incremented and published. */
    method RunOne(t: ScheduledTask, ghost p: nat, referenceTime: Moment) returns (ok: bool)
      requires Distinct(scheduledTasks) && p < |scheduledTasks| && t == scheduledTasks[p]
      modifies this`published, t
      ensures var before := old(AbsAll(scheduledTasks));
              && AbsAll(scheduledTasks) == before[p := Incremented(before[p]).0]
              && ok == Incremented(before[p]).1
              && published == if ok then old(published) + [Fired(before[p], referenceTime)] else old(published)
    {
      ok := t.Increment();
      if ok {
        published := published + [Event(t.uid, t.task, t.lastRunTime, referenceTime)];
      }
    }
  }

  class SchedulerRepository {
    const parse: Parser
    var scheduledTasks: seq<ScheduledTask>

    constructor (parse: Parser)
      ensures this.parse == parse && scheduledTasks == []
    {
      this.parse := parse;
      scheduledTasks := [];
    }

    /** The index of the first task with the uid, or -1. */
    method FindByUid(uid: string) returns (i: int)
      ensures i == FindUid(AbsAll(scheduledTasks), uid)
    {
      for k := 0 to |scheduledTasks|
        invariant forall j | 0 <= j < k :: scheduledTasks[j].uid != uid
      {
        if scheduledTasks[k].uid == uid {
          return k;
        }
      }
      return -1;
    }

    /** The index of the first task whose item has the key, or -1. */
    method FindByKey(key: string) returns (i: int)
      ensures i == FindKey(AbsAll(scheduledTasks), key)
    {
      for k := 0 to |scheduledTasks|
        invariant forall j | 0 <= j < k :: scheduledTasks[j].task.Key() != key
      {
        if scheduledTasks[k].task.Key() == key {
          return k;
        }
      }
      return -1;
    }

    /** False is an exception: of the parser, or of the log line after the task was added. */
    method Add(item: Resource, now: Moment) returns (ok: bool)
      requires Distinct(scheduledTasks)
      modifies this
      ensures (AbsAll(scheduledTasks), ok) == AddOne(parse, old(AbsAll(scheduledTasks)), item, now)
      ensures Distinct(scheduledTasks) && old(scheduledTasks) <= scheduledTasks
      ensures forall t <- scheduledTasks :: t in old(scheduledTasks) || fresh(t)
    {
      var scheduledTask := ScheduledTask.Create(parse, item, now);
      if scheduledTask.None? {
        return false;
      }
      ghost var before := AbsAll(scheduledTasks);
      scheduledTasks := scheduledTasks + [scheduledTask.value];
      assert AbsAll(scheduledTasks) == before + [scheduledTask.value.Abs()];
      return NextMatch(scheduledTask.value.schedule, now).Some?;
    }

    method Remove(item: Resource)
      requires Distinct(scheduledTasks)
      modifies this
      ensures var before := old(AbsAll(scheduledTasks));
              var i := FindUid(before, item.uid);
              AbsAll(scheduledTasks) == if i == -1 then before else before[..i] + before[i + 1..]
    {
      var i := FindByUid(item.uid);
      if i != -1 {
        scheduledTasks := scheduledTasks[..i] + scheduledTasks[i + 1..];
      }
    }

    /** Replaces the task of the item's uid by a new one. */
    method UpdateSchedulerRepository(item: Resource, now: Moment) returns (ok: bool)
      requires Distinct(scheduledTasks)
      modifies this
      ensures (AbsAll(scheduledTasks), ok) == ReplaceOne(parse, old(AbsAll(scheduledTasks)), item, now)
      ensures Distinct(scheduledTasks) && forall t <- scheduledTasks :: t in old(scheduledTasks) || fresh(t)
    {
      var scheduledTask := ScheduledTask.Create(parse, item, now);
      if scheduledTask.None? {
        return false;
      }
      var i := FindByUid(item.uid);
      if i == -1 {
        return true;
      }
      ghost var before := AbsAll(scheduledTasks);
      scheduledTasks := scheduledTasks[i := scheduledTask.value];
      assert AbsAll(scheduledTasks) == before[i := scheduledTask.value.Abs()];
      return NextMatch(scheduledTask.value.schedule, now).Some?;
    }

    /** Gives the task of the item's uid the item, in place. */
    method UpdateTask(item: Resource, now: Moment) returns (ok: bool)
      requires Distinct(scheduledTasks)
      modifies scheduledTasks
      ensures (AbsAll(scheduledTasks), ok) == RetainOne(old(AbsAll(scheduledTasks)), item, now)
    {
      var i := FindByUid(item.uid);
      if i == -1 {
        return true;
      }
      ghost var before := AbsAll(scheduledTasks);
      scheduledTasks[i].task := item;
      assert AbsAll(scheduledTasks) == before[i := before[i].(item := item)];
      return NextMatch(scheduledTasks[i].schedule, now).Some?;
    }

    /** Reconciles the repository with the items; false is an exception. */
    method Sync(items: Option<seq<Resource>>, now: Moment) returns (ok: bool)
      requires Distinct(scheduledTasks)
      modifies this, scheduledTasks
      ensures items.None? ==>
        ok && scheduledTasks == old(scheduledTasks) && AbsAll(scheduledTasks) == old(AbsAll(scheduledTasks))
      ensures items.Some? ==>
        (AbsAll(scheduledTasks), ok) == SchedulerModel.Sync(parse, old(AbsAll(scheduledTasks)), items.value, now)
      ensures Distinct(scheduledTasks)
    {
      if items.None? {
        return true;
      }
      ok := SyncItems(items.value, now);
    }

    /** Sync with a list of items. */
    method SyncItems(items: seq<Resource>, now: Moment) returns (ok: bool)
      requires Distinct(scheduledTasks)
      modifies this, scheduledTasks
      ensures (AbsAll(scheduledTasks), ok) == SchedulerModel.Sync(parse, old(AbsAll(scheduledTasks)), items, now)
      ensures Distinct(scheduledTasks)
    {
      ghost var before := AbsAll(scheduledTasks);
      var itemsToAdd := ItemsBy(items, AbsAll(scheduledTasks), false);
      var itemsToUpdate := ItemsBy(items, AbsAll(scheduledTasks), true);
      var itemsToRemove := Unlisted(scheduledTasks, items);

      ok := AddItems(itemsToAdd, now);
      if !ok {
        return;
      }
      AddedAreListed(parse, scheduledTasks, old(scheduledTasks), before, itemsToAdd, items, now);
      RemoveTasks(itemsToRemove, items);
      assert forall i | 0 <= i < |scheduledTasks| :: scheduledTasks[i] in scheduledTasks;
      ok := UpdateItems(itemsToUpdate, now);
    }

    /** The first loop of Sync. */
    method AddItems(items: seq<Resource>, now: Moment) returns (ok: bool)
      requires Distinct(scheduledTasks)
      modifies this
      ensures (AbsAll(scheduledTasks), ok) == AddAll(parse, old(AbsAll(scheduledTasks)), items, now)
      ensures Distinct(scheduledTasks) && old(scheduledTasks) <= scheduledTasks
      ensures forall t <- scheduledTasks :: t in old(scheduledTasks) || fresh(t)
    {
      ghost var before := AbsAll(scheduledTasks);
      for k := 0 to |items|
        invariant AddAll(parse, before, items, now) == AddAll(parse, AbsAll(scheduledTasks), items[k..], now)
        invariant Distinct(scheduledTasks) && old(scheduledTasks) <= scheduledTasks
        invariant forall t <- scheduledTasks :: t in old(scheduledTasks) || fresh(t)
      {
        assert items[k..][1..] == items[k + 1..];
        ok := Add(items[k], now);
        if !ok {
          return;
        }
      }
      return true;
    }

    /** The last loop of Sync. */
    method UpdateItems(items: seq<Resource>, now: Moment) returns (ok: bool)
      requires Distinct(scheduledTasks)
      modifies this, scheduledTasks
      ensures (AbsAll(scheduledTasks), ok) == UpdateAll(parse, old(AbsAll(scheduledTasks)), items, now)
      ensures Distinct(scheduledTasks)
    {
      ghost var before := AbsAll(scheduledTasks);
      for k := 0 to |items|
        invariant UpdateAll(parse, before, items, now) == UpdateAll(parse, AbsAll(scheduledTasks), items[k..], now)
        invariant Distinct(scheduledTasks)
        invariant forall t <- scheduledTasks :: t in old(scheduledTasks) || fresh(t)
      {
        assert items[k..][1..] == items[k + 1..];
        assert forall i | 0 <= i < |scheduledTasks| :: scheduledTasks[i] in scheduledTasks;
        ok := UpdateItem(items[k], now);
        if !ok {
          return;
        }
      }
      return true;
    }

    /** The body of that loop. */
    method UpdateItem(item: Resource, now: Moment) returns (ok: bool)
      requires Distinct(scheduledTasks)
      modifies this, scheduledTasks
      ensures (AbsAll(scheduledTasks), ok) == UpdateOne(parse, old(AbsAll(scheduledTasks)), item, now)
      ensures Distinct(scheduledTasks) && forall t <- scheduledTasks :: t in old(scheduledTasks) || fresh(t)
    {
      var k := FindByKey(item.Key());
      if k == -1 || item.schedule != scheduledTasks[k].task.schedule {
        ok := UpdateSchedulerRepository(item, now);
      } else {
        ok := UpdateTask(item, now);
      }
    }

    /** The middle loop of Sync: the given tasks are removed, by identity. */
    method RemoveTasks(tasks: seq<ScheduledTask>, ghost items: seq<Resource>)
      requires Distinct(scheduledTasks)
      requires forall t <- scheduledTasks :: t in tasks <==> ItemFor(items, t.uid).None?
      modifies this
      ensures AbsAll(scheduledTasks) == Listed(old(AbsAll(scheduledTasks)), items)
      ensures Distinct(scheduledTasks) && forall t <- scheduledTasks :: t in old(scheduledTasks)
    {
      MinusIsListed(scheduledTasks, tasks, items);
      MinusIsDistinct(scheduledTasks, tasks);
      MinusNothing(scheduledTasks);
      for k := 0 to |tasks|
        invariant scheduledTasks == Minus(old(scheduledTasks), tasks[..k])
      {
        MinusOne(old(scheduledTasks), tasks[..k], tasks[k]);
        assert tasks[..k] + [tasks[k]] == tasks[..k + 1];
        scheduledTasks := RemoveFirst(scheduledTasks, tasks[k]);
      }
      assert tasks[..|tasks|] == tasks;
    }
  }

  /** The tasks whose uid no item has. */
  function Unlisted(tasks: seq<ScheduledTask>, items: seq<Resource>): (r: seq<ScheduledTask>)
    reads tasks
    ensures forall t <- r :: t in tasks && ItemFor(items, t.uid).None?
    ensures forall t <- tasks :: ItemFor(items, t.uid).None? ==> t in r
  {
    if tasks == [] then []
    else if ItemFor(items, tasks[0].uid).None? then [tasks[0]] + Unlisted(tasks[1..], items)
    else Unlisted(tasks[1..], items)
  }

  /** A list without the first occurrence of an object. */
  function RemoveFirst(tasks: seq<ScheduledTask>, t: ScheduledTask): seq<ScheduledTask> {
    if tasks == [] then [] else if tasks[0] == t then tasks[1..] else [tasks[0]] + RemoveFirst(tasks[1..], t)
  }

  /** A list without the given objects. */
  ghost function Minus(tasks: seq<ScheduledTask>, removed: seq<ScheduledTask>): (r: seq<ScheduledTask>)
    ensures forall t <- r :: t in tasks && t !in removed
    ensures forall t <- tasks :: t !in removed ==> t in r
  {
    if tasks == [] then []
    else if tasks[0] in removed then Minus(tasks[1..], removed)
    else [tasks[0]] + Minus(tasks[1..], removed)
  }

  lemma {:induction false} MinusNothing(tasks: seq<ScheduledTask>)
    ensures Minus(tasks, []) == tasks
  {
    if tasks != [] {
      MinusNothing(tasks[1..]);
    }
  }

  lemma {:induction false} RemoveAbsent(tasks: seq<ScheduledTask>, t: ScheduledTask)
    requires t !in tasks
    ensures RemoveFirst(tasks, t) == tasks
  {
    if tasks != [] {
      RemoveAbsent(tasks[1..], t);
    }
  }

  lemma {:induction false} MinusOne(tasks: seq<ScheduledTask>, removed: seq<ScheduledTask>, t: ScheduledTask)
    requires Distinct(tasks)
    ensures RemoveFirst(Minus(tasks, removed), t) == Minus(tasks, removed + [t])
  {
    if tasks != [] {
      MinusOne(tasks[1..], removed, t);
      if tasks[0] == t {
        assert t !in tasks[1..];
        RemoveAbsent(Minus(tasks[1..], removed), t);
      }
    }
  }

  /** The tasks that the first loop added have the uids of items, so they are not among the unlisted ones. */
  lemma AddedAreListed(parse: Parser, tasks: seq<ScheduledTask>, earlier: seq<ScheduledTask>, before: seq<Task>,
                       added: seq<Resource>,
                       items: seq<Resource>, now: Moment)
    requires earlier <= tasks && |earlier| == |before| && Distinct(tasks)
    requires AddAll(parse, before, added, now) == (AbsAll(tasks), true) && forall x <- added :: x in items
    ensures forall t <- tasks :: t !in earlier ==> ItemFor(items, t.uid).Some?
  {
    var extra := Reconciliation.AddAllIs(parse, before, added, now);
    forall t <- tasks | t !in earlier ensures ItemFor(items, t.uid).Some? {
      var i :| 0 <= i < |tasks| && tasks[i] == t;
      assert AbsAll(tasks)[i] == extra[i - |before|];
      assert added[i - |before|] in items;
    }
  }

  lemma {:induction false} MinusIsDistinct(tasks: seq<ScheduledTask>, removed: seq<ScheduledTask>)
    requires Distinct(tasks)
    ensures Distinct(Minus(tasks, removed))
  {
    if tasks != [] {
      MinusIsDistinct(tasks[1..], removed);
      assert tasks[0] !in tasks[1..];
    }
  }

  lemma AbsAllOfFirst(t: ScheduledTask, rest: seq<ScheduledTask>)
    ensures AbsAll([t] + rest) == [t.Abs()] + AbsAll(rest)
  {
  }

  /** Removing the unlisted tasks leaves the listed ones. */
  lemma {:induction false} MinusIsListed(tasks: seq<ScheduledTask>, removed: seq<ScheduledTask>, items: seq<Resource>)
    requires forall t <- tasks :: t in removed <==> ItemFor(items, t.uid).None?
    ensures AbsAll(Minus(tasks, removed)) == Listed(AbsAll(tasks), items)
  {
    if tasks != [] {
      var t, rest := tasks[0], tasks[1..];
      assert t in tasks && forall t' <- rest :: t' in tasks;
      assert tasks == [t] + rest;
      MinusIsListed(rest, removed, items);
      AbsAllOfFirst(t, rest);
      ListedOfFirst(t.Abs(), AbsAll(rest), items);
      if t !in removed {
        AbsAllOfFirst(t, Minus(rest, removed));
      }
    }
  }

  lemma ListedOfFirst(t: Task, rest: seq<Task>, items: seq<Resource>)
    ensures Listed([t] + rest, items) ==
            (if ItemFor(items, t.uid).Some? then [t] + Listed(rest, items) else Listed(rest, items))
  {
    assert ([t] + rest)[1..] == rest;
  }
}
