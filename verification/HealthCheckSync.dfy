/** The health-check sync job: one list of resources feeds the memory list, the scheduler repository and
    the Redis hash, one after the other. */
module HealthCheckSync {
  import opened Wrappers
  import opened Calendar
  import opened Resources
  import opened SchedulerModel
  import opened Reconciliation
  import SchedulerRuns
  import opened Scheduler
  import opened RedisDictionaries

  const KEY: Resource -> string := (r: Resource) => r.Key()

  /** The resource with the sync time and the related service set. */
  function Stamped(r: Resource, syncTime: int, relatedTo: Resource -> Option<string>): Resource {
    r.(latestSync := syncTime, relatedService := relatedTo(r))
  }

  function StampedAll(items: seq<Resource>, syncTime: int, relatedTo: Resource -> Option<string>): (r: seq<Resource>)
    ensures |r| == |items| && forall i | 0 <= i < |items| :: r[i] == Stamped(items[i], syncTime, relatedTo)
  {
    seq(|items|, i requires 0 <= i < |items| => Stamped(items[i], syncTime, relatedTo))
  }

  /** Every item gets the time of the sync and its related service, and is otherwise left as it was. */
  lemma StampedAllIs(items: seq<Resource>, syncTime: int, relatedTo: Resource -> Option<string>, i: nat)
    requires i < |items|
    ensures var x, r := items[i], StampedAll(items, syncTime, relatedTo)[i];
            && r.latestSync == syncTime && r.relatedService == relatedTo(x)
            && r.uid == x.uid && r.name == x.name && r.space == x.space && r.schedule == x.schedule
            && r.Key() == x.Key()
  {
  }

  function TaskKeys(tasks: seq<Task>): set<string> {
    set i | 0 <= i < |tasks| :: tasks[i].item.Key()
  }

  class HealthCheckSyncJob {
    const repository: SchedulerRepository
    const redis: RedisDictionary<Resource>
    const notFound: RedisDictionary<Resource>
    /** The health checks of the in-memory repository. */
    var healthChecks: seq<Resource>

    ghost predicate Valid()
      reads this, repository
    {
      && redis != notFound && redis.keyOf == KEY && notFound.keyOf == KEY
      && Distinct(repository.scheduledTasks)
    }

    constructor (repository: SchedulerRepository, redis: RedisDictionary<Resource>, notFound: RedisDictionary<Resource>)
      ensures this.repository == repository && this.redis == redis && this.notFound == notFound
    {
      this.repository := repository;
      this.redis := redis;
      this.notFound := notFound;
      this.healthChecks := [];
    }

    /** False is an exception of the repository, after which the Redis hash is left as it was. */
    method Execute(checks: seq<Resource>, relatedTo: Resource -> Option<string>, syncTime: int, now: Moment)
      returns (ok: bool)
      requires Valid()
      modifies this, repository, repository.scheduledTasks, redis, notFound
      ensures Valid()
      ensures healthChecks == StampedAll(checks, syncTime, relatedTo)
      ensures (AbsAll(repository.scheduledTasks), ok) ==
              SchedulerModel.Sync(repository.parse, old(AbsAll(repository.scheduledTasks)), healthChecks, now)
      ensures redis.hash == if ok then Reconciled(old(redis.hash), healthChecks, KEY, true) else old(redis.hash)
      ensures notFound.hash.Keys == old(notFound.hash.Keys) +
              set i | 0 <= i < |checks| && relatedTo(checks[i]).None? :: checks[i].Key()
      ensures ok && DistinctTasks(old(AbsAll(repository.scheduledTasks))) && DistinctUids(healthChecks) ==>
        redis.hash.Keys == TaskKeys(AbsAll(repository.scheduledTasks)) == KeysOf(healthChecks, KEY)
    {
      ghost var before := AbsAll(repository.scheduledTasks);
      var items := Stamp(checks, relatedTo, syncTime);
      assert AbsAll(repository.scheduledTasks) == before;
      healthChecks := items;
      ok := Feed(items, now);
    }

    /** The two stores behind the memory list are fed one after the other. */
    method Feed(items: seq<Resource>, now: Moment) returns (ok: bool)
      requires Valid()
      modifies repository, repository.scheduledTasks, redis
      ensures Valid()
      ensures (AbsAll(repository.scheduledTasks), ok) ==
              SchedulerModel.Sync(repository.parse, old(AbsAll(repository.scheduledTasks)), items, now)
      ensures redis.hash == if ok then Reconciled(old(redis.hash), items, KEY, true) else old(redis.hash)
      ensures ok && DistinctTasks(old(AbsAll(repository.scheduledTasks))) && DistinctUids(items) ==>
        redis.hash.Keys == TaskKeys(AbsAll(repository.scheduledTasks)) == KeysOf(items, KEY)
    {
      ghost var before := AbsAll(repository.scheduledTasks);
      ok := repository.Sync(Some(items), now);
      if ok {
        StoresAgree(repository.parse, before, items, now);
        FeedRedis(items);
      }
    }

    method FeedRedis(items: seq<Resource>)
      requires redis.keyOf == KEY
      modifies redis
      ensures redis.hash == Reconciled(old(redis.hash), items, KEY, true) && redis.hash.Keys == KeysOf(items, KEY)
      ensures AbsAll(repository.scheduledTasks) == old(AbsAll(repository.scheduledTasks))
    {
      redis.Sync(items, true);
    }

    /** The loop over the items: each is stamped, and one without a related service is noted. */
    method Stamp(checks: seq<Resource>, relatedTo: Resource -> Option<string>, syncTime: int)
      returns (items: seq<Resource>)
      requires notFound.keyOf == KEY
      modifies notFound
      ensures items == StampedAll(checks, syncTime, relatedTo)
      ensures notFound.hash.Keys == old(notFound.hash.Keys) +
              set i | 0 <= i < |checks| && relatedTo(checks[i]).None? :: checks[i].Key()
    {
      items := [];
      for k := 0 to |checks|
        invariant items == StampedAll(checks, syncTime, relatedTo)[..k]
        invariant notFound.hash.Keys == old(notFound.hash.Keys) +
                  set i | 0 <= i < k && relatedTo(checks[i]).None? :: checks[i].Key()
      {
        var p := Stamped(checks[k], syncTime, relatedTo);
        items := items + [p];
        if p.relatedService.None? {
          notFound.Add(p);
        }
      }
    }
  }

  // ----- Agreement of the stores

  /** The item of the task's uid, or the one that the task has. */
  function ItemOr(items: seq<Resource>, t: Task): Resource {
    match ItemFor(items, t.uid) case Some(x) => x case None => t.item
  }

  lemma UpdateOneCarries(parse: Parser, tasks: seq<Task>, x: Resource, now: Moment)
    requires DistinctTasks(tasks) && UpdateOne(parse, tasks, x, now).1
    ensures var after := UpdateOne(parse, tasks, x, now).0;
            && |after| == |tasks|
            && forall i | 0 <= i < |tasks| ::
                 after[i].uid == tasks[i].uid && after[i].item == if tasks[i].uid == x.uid then x else tasks[i].item
  {
    var k := FindUid(tasks, x.uid);
    forall i | 0 <= i < |tasks| ensures tasks[i].uid == x.uid <==> i == k {
      assert tasks[i] in tasks;
    }
  }

  /** Every item that updates a task is carried by it afterwards; the uids stay in place. */
  lemma {:induction false} UpdateAllCarries(parse: Parser, tasks: seq<Task>, xs: seq<Resource>, now: Moment)
    requires DistinctTasks(tasks) && DistinctUids(xs) && UpdateAll(parse, tasks, xs, now).1
    ensures var after := UpdateAll(parse, tasks, xs, now).0;
            && |after| == |tasks|
            && forall i | 0 <= i < |tasks| :: after[i].uid == tasks[i].uid && after[i].item == ItemOr(xs, tasks[i])
    decreases |xs|
  {
    if xs != [] {
      var first := UpdateOne(parse, tasks, xs[0], now).0;
      UpdateOneCarries(parse, tasks, xs[0], now);
      UpdateAllCarries(parse, first, xs[1..], now);
      forall i | 0 <= i < |tasks| ensures ItemOr(xs[1..], first[i]) == ItemOr(xs, tasks[i]) {
        ItemOrFirst(xs, tasks[i], first[i]);
      }
    }
  }

  lemma ItemOrFirst(xs: seq<Resource>, t: Task, t': Task)
    requires xs != [] && DistinctUids(xs)
    requires t'.uid == t.uid && t'.item == if t.uid == xs[0].uid then xs[0] else t.item
    ensures ItemOr(xs[1..], t') == ItemOr(xs, t)
  {
    assert ItemFor(xs[1..], xs[0].uid).None?;
  }

  lemma KeptAndAddedDistinct(parse: Parser, tasks: seq<Task>, items: seq<Resource>, added: seq<Task>, now: Moment)
    requires DistinctTasks(tasks) && DistinctUids(items)
    requires NewTasks(parse, added, ItemsBy(items, tasks, false), now)
    ensures DistinctTasks(Listed(tasks, items) + added)
  {
    var kept, unknown := Listed(tasks, items), ItemsBy(items, tasks, false);
    ListedIsDistinct(tasks, items);
    ItemsByDistinct(items, tasks, false);
    forall i, j | 0 <= i < |kept| && 0 <= j < |added| ensures kept[i].uid != added[j].uid {
      assert kept[i] in kept && unknown[j] in unknown;
    }
  }

  ghost predicate HaveItems(tasks: seq<Task>, xs: seq<Resource>) {
    |tasks| == |xs| && forall i | 0 <= i < |tasks| :: tasks[i].uid == xs[i].uid && tasks[i].item == xs[i]
  }

  lemma NewTasksHaveItems(parse: Parser, added: seq<Task>, xs: seq<Resource>, now: Moment)
    requires NewTasks(parse, added, xs, now) && |added| == |xs|
    ensures HaveItems(added, xs)
  {
    forall i | 0 <= i < |added| ensures added[i].uid == xs[i].uid && added[i].item == xs[i] {
      assert NewTask(parse, xs[i], now) == Some(added[i]);
    }
  }

  /** A listed task, or an added one, carries an item after the updates. */
  lemma TaskCarriesItem(tasks: seq<Task>, items: seq<Resource>, added: seq<Task>, t: Task)
    requires DistinctUids(items) && HaveItems(added, ItemsBy(items, tasks, false))
    requires t in Listed(tasks, items) || t in added
    ensures ItemOr(ItemsBy(items, tasks, true), t) in items
  {
    var known, unknown := ItemsBy(items, tasks, true), ItemsBy(items, tasks, false);
    if t in Listed(tasks, items) {
      KeptIsKnown(tasks, items, t);
    } else {
      var i :| 0 <= i < |added| && added[i] == t;
      assert unknown[i] in unknown;
      assert ItemFor(known, t.uid).None?;
    }
  }

  lemma KeptIsKnown(tasks: seq<Task>, items: seq<Resource>, t: Task)
    requires DistinctUids(items) && t in Listed(tasks, items)
    ensures ItemFor(items, t.uid).Some?
    ensures ItemFor(ItemsBy(items, tasks, true), t.uid) == ItemFor(items, t.uid)
  {
    ItemsByDistinct(items, tasks, true);
    ItemForIs(ItemsBy(items, tasks, true), ItemFor(items, t.uid).value);
  }

  /** Every item is carried by a listed task or by an added one. */
  lemma ItemIsCarried(tasks: seq<Task>, items: seq<Resource>, added: seq<Task>, x: Resource) returns (t: Task)
    requires DistinctUids(items) && HaveItems(added, ItemsBy(items, tasks, false)) && x in items
    ensures (t in Listed(tasks, items) || t in added) && ItemOr(ItemsBy(items, tasks, true), t) == x
  {
    var k, unknown := FindUid(tasks, x.uid), ItemsBy(items, tasks, false);
    ItemForIs(items, x);
    if k != -1 {
      t := tasks[k];
      KeptIsKnown(tasks, items, t);
    } else {
      assert x in unknown;
      var i :| 0 <= i < |unknown| && unknown[i] == x;
      t := added[i];
      assert ItemFor(ItemsBy(items, tasks, true), x.uid).None?;
    }
  }

  /** After a Sync that succeeds, for any earlier tasks of distinct uids, the keys of the tasks are those of the
      items. */
  lemma StoresAgree(parse: Parser, tasks: seq<Task>, items: seq<Resource>, now: Moment)
    requires SchedulerModel.Sync(parse, tasks, items, now).1
    ensures DistinctTasks(tasks) && DistinctUids(items) ==>
      TaskKeys(SchedulerModel.Sync(parse, tasks, items, now).0) == KeysOf(items, KEY)
  {
    if DistinctTasks(tasks) && DistinctUids(items) {
      SameKeysAfterSync(parse, tasks, items, now);
    }
  }

  lemma SameKeysAfterSync(parse: Parser, tasks: seq<Task>, items: seq<Resource>, now: Moment)
    requires DistinctTasks(tasks) && DistinctUids(items) && SchedulerModel.Sync(parse, tasks, items, now).1
    ensures TaskKeys(SchedulerModel.Sync(parse, tasks, items, now).0) == KeysOf(items, KEY)
  {
    var unknown := ItemsBy(items, tasks, false);
    var added := AddAllIs(parse, tasks, unknown, now);
    ListedAfterAdding(parse, tasks, items, added, unknown, now);
    KeptAndAddedDistinct(parse, tasks, items, added, now);
    ItemsByDistinct(items, tasks, true);
    NewTasksHaveItems(parse, added, unknown, now);
    UpdateAllCarries(parse, Listed(tasks, items) + added, ItemsBy(items, tasks, true), now);
    SameKeysAsCarried(tasks, items, added, SchedulerModel.Sync(parse, tasks, items, now).0);
  }

  lemma SameKeysAsCarried(tasks: seq<Task>, items: seq<Resource>, added: seq<Task>, after: seq<Task>)
    requires DistinctUids(items) && HaveItems(added, ItemsBy(items, tasks, false))
    requires var listed := Listed(tasks, items) + added;
             && |after| == |listed|
             && forall i | 0 <= i < |listed| :: after[i].item == ItemOr(ItemsBy(items, tasks, true), listed[i])
    ensures TaskKeys(after) == KeysOf(items, KEY)
  {
    var listed := Listed(tasks, items) + added;
    forall key | key in TaskKeys(after) ensures key in KeysOf(items, KEY) {
      var i :| 0 <= i < |after| && after[i].item.Key() == key;
      assert listed[i] in listed;
      TaskCarriesItem(tasks, items, added, listed[i]);
      var j :| 0 <= j < |items| && items[j] == after[i].item;
      assert KEY(items[j]) == key;
    }
    forall key | key in KeysOf(items, KEY) ensures key in TaskKeys(after) {
      var i :| 0 <= i < |items| && KEY(items[i]) == key;
      var t := ItemIsCarried(tasks, items, added, items[i]);
      assert t in listed;
      var j :| 0 <= j < |listed| && listed[j] == t;
      assert after[j].item.Key() == key;
    }
  }

  // ----- The hypothesis on uids, over runs

  lemma {:induction false} UpdateAllKeepsUids(parse: Parser, tasks: seq<Task>, xs: seq<Resource>, now: Moment)
    requires DistinctTasks(tasks)
    ensures DistinctTasks(UpdateAll(parse, tasks, xs, now).0)
    decreases |xs|
  {
    if xs != [] {
      var first := UpdateOne(parse, tasks, xs[0], now).0;
      assert |first| == |tasks| && forall i | 0 <= i < |tasks| :: first[i].uid == tasks[i].uid;
      UpdateAllKeepsUids(parse, first, xs[1..], now);
    }
  }

  /** A Sync with items of distinct uids, failed or not, keeps the uids of the tasks distinct. */
  lemma SyncKeepsDistinct(parse: Parser, tasks: seq<Task>, items: seq<Resource>, now: Moment)
    requires DistinctTasks(tasks) && DistinctUids(items)
    ensures DistinctTasks(SchedulerModel.Sync(parse, tasks, items, now).0)
  {
    var unknown := ItemsBy(items, tasks, false);
    var added := AddAllIs(parse, tasks, unknown, now);
    AddedAreDistinct(parse, tasks, items, added, now);
    if AddAll(parse, tasks, unknown, now).1 {
      ListedIsDistinct(tasks + added, items);
      UpdateAllKeepsUids(parse, Listed(tasks + added, items), ItemsBy(items, tasks, true), now);
    }
  }

  lemma AddedAreDistinct(parse: Parser, tasks: seq<Task>, items: seq<Resource>, added: seq<Task>, now: Moment)
    requires DistinctTasks(tasks) && DistinctUids(items)
    requires NewTasks(parse, added, ItemsBy(items, tasks, false), now)
    ensures DistinctTasks(tasks + added)
  {
    var unknown := ItemsBy(items, tasks, false);
    ItemsByDistinct(items, tasks, false);
    forall i, j | 0 <= i < |tasks| && 0 <= j < |added| ensures tasks[i].uid != added[j].uid {
      assert tasks[i] in tasks && unknown[j] in unknown;
    }
  }

  ghost predicate ListsDistinct(steps: seq<SchedulerRuns.Step>) {
    forall s <- steps :: s.Resync? ==> DistinctUids(s.items)
  }

  lemma {:induction false} RunKeepsDistinct(parse: Parser, zone: Zone, st: SchedulerRuns.State,
                                            steps: seq<SchedulerRuns.Step>)
    requires DistinctTasks(st.tasks) && ListsDistinct(steps)
    ensures DistinctTasks(SchedulerRuns.Run(parse, zone, st, steps).tasks)
    decreases |steps|
  {
    if steps != [] {
      assert steps[0] in steps && forall s <- steps[1..] :: s in steps;
      match steps[0] {
        case TickAt(now) => SchedulerRuns.TickKeepsItems(st.tasks, now, zone);
        case Resync(items, now) => SyncKeepsDistinct(parse, st.tasks, items, now);
      }
      RunKeepsDistinct(parse, zone, SchedulerRuns.Do(parse, zone, st, steps[0]), steps[1..]);
    }
  }

  /** Whatever ticks and Syncs, failed ones included, have come before, a Sync that succeeds leaves the task keys as
      the item keys, as long as the uids of each list are distinct. */
  lemma StoresAgreeAfterAnyRun(parse: Parser, zone: Zone, steps: seq<SchedulerRuns.Step>, items: seq<Resource>,
                               now: Moment)
    requires ListsDistinct(steps) && DistinctUids(items)
    ensures var tasks := SchedulerRuns.Run(parse, zone, SchedulerRuns.State([], []), steps).tasks;
            var (after, ok) := SchedulerModel.Sync(parse, tasks, items, now);
            ok ==> TaskKeys(after) == KeysOf(items, KEY)
  {
    RunKeepsDistinct(parse, zone, SchedulerRuns.State([], []), steps);
    var tasks := SchedulerRuns.Run(parse, zone, SchedulerRuns.State([], []), steps).tasks;
    if SchedulerModel.Sync(parse, tasks, items, now).1 {
      StoresAgree(parse, tasks, items, now);
    }
  }

  /** Distinct resources have distinct keys, so they never merge in a store: namespaces contain no dot. */
  lemma DistinctResourcesNeverMerge(items: seq<Resource>)
    requires forall x <- items :: '.' !in x.space
    ensures DistinctKeys(items) <==>
            forall i, j | 0 <= i < j < |items| :: items[i].name != items[j].name || items[i].space != items[j].space
  {
    forall i, j | 0 <= i < j < |items|
      ensures items[i].Key() == items[j].Key() <==> items[i].name == items[j].name && items[i].space == items[j].space
    {
      KeyIsInjective(items[i], items[j]);
    }
  }
}
