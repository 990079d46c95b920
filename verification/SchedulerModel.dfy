/** The scheduler on values: scheduled tasks, a tick over them, and the reconciliation of the repository
    with a list of items. The classes of Scheduler are proved against these functions. */
module SchedulerModel {
  import opened Wrappers
  import opened Calendar
  import opened Occurrence
  import opened Resources

  datatype Task = Task(uid: string, schedule: Schedule, item: Resource, last: Moment, next: Moment)

  /** A message published by a tick: the task's item, the time it was due, and the time of the tick. */
  datatype Event = Event(uid: string, item: Resource, fire: Moment, tick: Moment)

  /** The cron parser that the scheduler relies on; CrontabSchedule.Parse computes the actual one, ScheduleMeaning. */
  type Parser = string -> Option<Schedule>

  // ----- One task

  /** The constructor: the first run is due at the reference time itself. */
  function NewTask(parse: Parser, item: Resource, now: Moment): Option<Task> {
    match parse(item.schedule)
    case Some(schedule) => Some(Task(item.uid, schedule, item, MIN_VALUE, now))
    case None => None
  }

  /** A time zone: the local time, in ticks, that its clocks show at a moment. */
  type Zone = Moment -> int

  /** The test of ShouldRun, which compares local times. */
  predicate IsDue(t: Task, now: Moment, zone: Zone) {
    zone(t.next) < zone(now) && zone(t.last) != zone(t.next)
  }

  /** The clocks never go back, nor stand still. */
  ghost predicate KeepsOrder(zone: Zone) {
    forall a: Moment, b: Moment :: zone(a) < zone(b) <==> Earlier(a, b)
  }

  /** What the test is meant to say: the next run lies in the past, and was not yet run. */
  predicate IsPast(t: Task, now: Moment) {
    Earlier(t.next, now) && t.last != t.next
  }

  /** Increment; false is the exception of a search that leaves the calendar. */
  function Incremented(t: Task): (Task, bool) {
    match NextMatch(t.schedule, t.next)
    case Some(n) => (t.(last := t.next, next := n), true)
    case None => (t.(last := t.next), false)
  }

  // ----- A tick

  datatype TickResult = TickResult(tasks: seq<Task>, events: seq<Event>, ok: bool)

  /** Every due task is incremented and published, in order; an exception ends the tick. */
  function Tick(tasks: seq<Task>, now: Moment, zone: Zone): (r: TickResult)
    ensures |r.tasks| == |tasks|
  {
    if tasks == [] then TickResult([], [], true)
    else if !IsDue(tasks[0], now, zone) then
      var rest := Tick(tasks[1..], now, zone);
      rest.(tasks := [tasks[0]] + rest.tasks)
    else
      var (t, ok) := Incremented(tasks[0]);
      if !ok then TickResult([t] + tasks[1..], [], false)
      else
        var rest := Tick(tasks[1..], now, zone);
        TickResult([t] + rest.tasks, [Event(t.uid, t.item, t.last, now)] + rest.events, rest.ok)
  }

  // ----- Reconciliation

  function FindUid(tasks: seq<Task>, uid: string): (i: int)
    ensures i == -1 ==> forall t <- tasks :: t.uid != uid
    ensures i != -1 ==> 0 <= i < |tasks| && tasks[i].uid == uid && forall j | 0 <= j < i :: tasks[j].uid != uid
  {
    if tasks == [] then -1
    else if tasks[0].uid == uid then 0
    else var i := FindUid(tasks[1..], uid); if i == -1 then -1 else i + 1
  }

  function FindKey(tasks: seq<Task>, key: string): (i: int)
    ensures i == -1 ==> forall t <- tasks :: t.item.Key() != key
    ensures i != -1 ==>
      0 <= i < |tasks| && tasks[i].item.Key() == key && forall j | 0 <= j < i :: tasks[j].item.Key() != key
  {
    if tasks == [] then -1
    else if tasks[0].item.Key() == key then 0
    else var i := FindKey(tasks[1..], key); if i == -1 then -1 else i + 1
  }

  /** The items whose uid the repository has, or does not have. */
  function ItemsBy(items: seq<Resource>, tasks: seq<Task>, known: bool): (r: seq<Resource>)
    ensures forall x :: x in r <==> x in items && (FindUid(tasks, x.uid) != -1) == known
  {
    if items == [] then []
    else
      var rest := ItemsBy(items[1..], tasks, known);
      if (FindUid(tasks, items[0].uid) != -1) == known then [items[0]] + rest else rest
  }

  /** The tasks whose uid is among the items. */
  function Listed(tasks: seq<Task>, items: seq<Resource>): (r: seq<Task>)
    ensures forall t :: t in r <==> t in tasks && ItemFor(items, t.uid).Some?
  {
    if tasks == [] then []
    else if ItemFor(items, tasks[0].uid).Some? then [tasks[0]] + Listed(tasks[1..], items)
    else Listed(tasks[1..], items)
  }

  /** The log line that computes the next occurrence throws if there is none. */
  predicate CanLog(schedule: Schedule, now: Moment) {
    NextMatch(schedule, now).Some?
  }

  function AddOne(parse: Parser, tasks: seq<Task>, item: Resource, now: Moment): (seq<Task>, bool) {
    match NewTask(parse, item, now)
    case Some(t) => (tasks + [t], CanLog(t.schedule, now))
    case None => (tasks, false)
  }

  /** The first task with the item's uid is replaced by a new one. */
  function ReplaceOne(parse: Parser, tasks: seq<Task>, item: Resource, now: Moment): (seq<Task>, bool) {
    var i := FindUid(tasks, item.uid);
    match NewTask(parse, item, now)
    case Some(t) => if i == -1 then (tasks, true) else (tasks[i := t], CanLog(t.schedule, now))
    case None => (tasks, false)
  }

  /** The first task with the item's uid gets the item, and keeps its schedule and times. */
  function RetainOne(tasks: seq<Task>, item: Resource, now: Moment): (seq<Task>, bool) {
    var i := FindUid(tasks, item.uid);
    if i == -1 then (tasks, true) else (tasks[i := tasks[i].(item := item)], CanLog(tasks[i].schedule, now))
  }

  /** The schedule text is compared with that of the first task with the item's key. */
  function UpdateOne(parse: Parser, tasks: seq<Task>, item: Resource, now: Moment): (seq<Task>, bool) {
    var k := FindKey(tasks, item.Key());
    if k == -1 || item.schedule != tasks[k].item.schedule then ReplaceOne(parse, tasks, item, now)
    else RetainOne(tasks, item, now)
  }

  function AddAll(parse: Parser, tasks: seq<Task>, items: seq<Resource>, now: Moment): (seq<Task>, bool)
    decreases |items|
  {
    if items == [] then (tasks, true)
    else
      var (tasks', ok) := AddOne(parse, tasks, items[0], now);
      if ok then AddAll(parse, tasks', items[1..], now) else (tasks', false)
  }

  function UpdateAll(parse: Parser, tasks: seq<Task>, items: seq<Resource>, now: Moment): (seq<Task>, bool)
    decreases |items|
  {
    if items == [] then (tasks, true)
    else
      var (tasks', ok) := UpdateOne(parse, tasks, items[0], now);
      if ok then UpdateAll(parse, tasks', items[1..], now) else (tasks', false)
  }

  /** Sync: add, remove, update; false is an exception, which leaves the work done so far. */
  function Sync(parse: Parser, tasks: seq<Task>, items: seq<Resource>, now: Moment): (seq<Task>, bool) {
    var (added, ok) := AddAll(parse, tasks, ItemsBy(items, tasks, false), now);
    if !ok then (added, false)
    else UpdateAll(parse, Listed(added, items), ItemsBy(items, tasks, true), now)
  }
}
