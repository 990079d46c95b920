/** What a Sync does to the whole repository. */
module Reconciliation {
  import opened Wrappers
  import opened Calendar
  import opened Occurrence
  import opened Resources
  import opened SchedulerModel

  // ----- What is asked of items and repository

  /** Uids and keys are distinct, and the key of a uid never changes. */
  ghost predicate ProperItems(items: seq<Resource>, keyOf: string -> string) {
    && DistinctUids(items) && DistinctKeys(items)
    && forall x <- items :: x.Key() == keyOf(x.uid)
  }

  ghost predicate DistinctTasks(tasks: seq<Task>) {
    forall i, j | 0 <= i < j < |tasks| :: tasks[i].uid != tasks[j].uid
  }

  /** One task per uid, with the key of that uid. */
  ghost predicate ProperTasks(tasks: seq<Task>, keyOf: string -> string) {
    && DistinctTasks(tasks)
    && forall t <- tasks :: t.item.uid == t.uid && t.item.Key() == keyOf(t.uid)
  }

  /** Every task's schedule is the parse of its item's text. */
  ghost predicate SchedulesParsed(parse: Parser, tasks: seq<Task>) {
    forall t <- tasks :: parse(t.item.schedule) == Some(t.schedule)
  }

  /** The text parses, and there is an occurrence after now. */
  predicate CanRun(parse: Parser, item: Resource, now: Moment) {
    match parse(item.schedule)
    case Some(s) => NextMatch(s, now).Some?
    case None => false
  }

  predicate AllCanRun(parse: Parser, items: seq<Resource>, now: Moment) {
    items == [] || (CanRun(parse, items[0], now) && AllCanRun(parse, items[1..], now))
  }

  lemma {:induction false} AllCanRunMeansEach(parse: Parser, items: seq<Resource>, now: Moment)
    ensures AllCanRun(parse, items, now) <==> forall x <- items :: CanRun(parse, x, now)
  {
    if items != [] {
      AllCanRunMeansEach(parse, items[1..], now);
      assert items == [items[0]] + items[1..];
    }
  }

  // ----- The result in closed form

  /** A task keeps its schedule and times if its item's text is unchanged, and starts anew otherwise. */
  function Refreshed(parse: Parser, t: Task, item: Resource, now: Moment): Task {
    if item.schedule == t.item.schedule then t.(item := item)
    else match NewTask(parse, item, now) case Some(t') => t' case None => t
  }

  /** The task after the update by the item of its uid, if there is one. */
  function RefreshedBy(parse: Parser, t: Task, items: seq<Resource>, now: Moment): Task {
    match ItemFor(items, t.uid)
    case Some(item) => Refreshed(parse, t, item, now)
    case None => t
  }

  /** Every task, in the same order, is refreshed by the item of its uid. */
  ghost predicate AllRefreshed(parse: Parser, before: seq<Task>, after: seq<Task>, items: seq<Resource>, now: Moment) {
    && |after| == |before|
    && forall i | 0 <= i < |before| :: after[i] == RefreshedBy(parse, before[i], items, now)
  }

  // ----- One update

  /** The uid of every task is among those of the items. */
  ghost predicate AllListed(tasks: seq<Task>, items: seq<Resource>) {
    forall t <- tasks :: ItemFor(items, t.uid).Some?
  }

  lemma KeyFindsUid(tasks: seq<Task>, items: seq<Resource>, keyOf: string -> string, item: Resource)
    requires ProperTasks(tasks, keyOf) && ProperItems(items, keyOf) && AllListed(tasks, items) && item in items
    ensures FindKey(tasks, item.Key()) == FindUid(tasks, item.uid)
  {
    var k, i := FindKey(tasks, item.Key()), FindUid(tasks, item.uid);
    if k != -1 {
      assert tasks[k] in tasks;
      SameKeySameUid(items, keyOf, ItemFor(items, tasks[k].uid).value, item);
    }
    if i != -1 {
      assert tasks[i] in tasks;
      assert tasks[i].item.Key() == item.Key();
    }
  }

  lemma SameKeySameUid(items: seq<Resource>, keyOf: string -> string, a: Resource, b: Resource)
    requires ProperItems(items, keyOf) && a in items && b in items && a.Key() == b.Key()
    ensures a == b
  {
    var i :| 0 <= i < |items| && items[i] == a;
    var j :| 0 <= j < |items| && items[j] == b;
    assert i == j;
  }

  /** An update changes the task of the item's uid, and no other. */
  lemma UpdateOneIs(parse: Parser, tasks: seq<Task>, items: seq<Resource>, keyOf: string -> string, item: Resource,
                    now: Moment)
    requires ProperTasks(tasks, keyOf) && ProperItems(items, keyOf) && AllListed(tasks, items) && item in items
    requires FindUid(tasks, item.uid) != -1 && SchedulesParsed(parse, tasks)
    ensures var i := FindUid(tasks, item.uid);
            var (tasks', ok) := UpdateOne(parse, tasks, item, now);
            && tasks' == tasks[i := Refreshed(parse, tasks[i], item, now)]
            && ok == CanRun(parse, item, now)
  {
    KeyFindsUid(tasks, items, keyOf, item);
    var i := FindUid(tasks, item.uid);
    assert tasks[i] in tasks;
    if item.schedule == tasks[i].item.schedule {
      assert UpdateOne(parse, tasks, item, now) == RetainOne(tasks, item, now);
    } else {
      ReplaceOneIs(parse, tasks, item, now);
    }
  }

  lemma ReplaceOneIs(parse: Parser, tasks: seq<Task>, item: Resource, now: Moment)
    requires FindUid(tasks, item.uid) != -1
    ensures var i := FindUid(tasks, item.uid);
            var t := match NewTask(parse, item, now) case Some(t') => t' case None => tasks[i];
            ReplaceOne(parse, tasks, item, now) == (tasks[i := t], CanRun(parse, item, now))
  {
    var i := FindUid(tasks, item.uid);
    assert tasks[i := tasks[i]] == tasks;
  }

  lemma RefreshedIsProper(parse: Parser, t: Task, item: Resource, now: Moment)
    requires t.uid == item.uid && t.item.uid == t.uid && t.item.Key() == item.Key()
    requires parse(t.item.schedule) == Some(t.schedule)
    ensures var t' := Refreshed(parse, t, item, now);
            && t'.uid == item.uid && t'.item.uid == item.uid && t'.item.Key() == item.Key()
            && parse(t'.item.schedule) == Some(t'.schedule)
            && (CanRun(parse, item, now) ==> t'.item == item)
  {
  }

  /** Replacing one task by a proper one of the same uid keeps the repository proper. */
  lemma UpdatedTasksAreProper(parse: Parser, tasks: seq<Task>, items: seq<Resource>, keyOf: string -> string,
                              i: nat, t: Task)
    requires ProperTasks(tasks, keyOf) && AllListed(tasks, items) && SchedulesParsed(parse, tasks) && i < |tasks|
    requires t.uid == tasks[i].uid && t.item.uid == t.uid && t.item.Key() == keyOf(t.uid)
    requires parse(t.item.schedule) == Some(t.schedule)
    ensures ProperTasks(tasks[i := t], keyOf) && AllListed(tasks[i := t], items)
    ensures SchedulesParsed(parse, tasks[i := t])
  {
    assert tasks[i] in tasks;
    assert forall t' <- tasks[i := t] :: t' == t || t' in tasks;
  }

  lemma UpdateOneKeeps(parse: Parser, tasks: seq<Task>, items: seq<Resource>, keyOf: string -> string,
                       item: Resource, now: Moment)
    requires ProperTasks(tasks, keyOf) && ProperItems(items, keyOf) && AllListed(tasks, items) && item in items
    requires FindUid(tasks, item.uid) != -1 && SchedulesParsed(parse, tasks)
    ensures var tasks' := UpdateOne(parse, tasks, item, now).0;
            && |tasks'| == |tasks| && (forall i | 0 <= i < |tasks| :: tasks'[i].uid == tasks[i].uid)
            && ProperTasks(tasks', keyOf) && AllListed(tasks', items) && SchedulesParsed(parse, tasks')
  {
    UpdateOneIs(parse, tasks, items, keyOf, item, now);
    var i := FindUid(tasks, item.uid);
    assert tasks[i] in tasks;
    RefreshedIsProper(parse, tasks[i], item, now);
    UpdatedTasksAreProper(parse, tasks, items, keyOf, i, Refreshed(parse, tasks[i], item, now));
  }

  // ----- All updates

  ghost predicate Updatable(parse: Parser, tasks: seq<Task>, items: seq<Resource>, keyOf: string -> string,
                            xs: seq<Resource>) {
    && ProperTasks(tasks, keyOf) && ProperItems(items, keyOf) && AllListed(tasks, items)
    && SchedulesParsed(parse, tasks)
    && DistinctUids(xs) && forall x <- xs :: x in items && FindUid(tasks, x.uid) != -1
  }

  lemma SameUidsSameFind(a: seq<Task>, b: seq<Task>, uid: string)
    requires |a| == |b| && forall i | 0 <= i < |a| :: a[i].uid == b[i].uid
    ensures FindUid(a, uid) == FindUid(b, uid)
  {
    var i, j := FindUid(a, uid), FindUid(b, uid);
    assert i != -1 ==> b[i] in b;
    assert j != -1 ==> a[j] in a;
  }

  lemma UpdatableRest(parse: Parser, tasks: seq<Task>, first: seq<Task>, items: seq<Resource>,
                      keyOf: string -> string, xs: seq<Resource>)
    requires xs != [] && Updatable(parse, tasks, items, keyOf, xs)
    requires |first| == |tasks| && forall i | 0 <= i < |tasks| :: first[i].uid == tasks[i].uid
    requires ProperTasks(first, keyOf) && AllListed(first, items) && SchedulesParsed(parse, first)
    ensures Updatable(parse, first, items, keyOf, xs[1..])
  {
    forall x <- xs[1..] ensures x in items && FindUid(first, x.uid) != -1 {
      assert x in xs;
      SameUidsSameFind(tasks, first, x.uid);
    }
  }

  /** The updates stop at the first item that cannot run; if there is none, every task is refreshed. */
  lemma {:induction false} UpdateAllIs(parse: Parser, tasks: seq<Task>, items: seq<Resource>, keyOf: string -> string,
                                       xs: seq<Resource>, now: Moment)
    requires Updatable(parse, tasks, items, keyOf, xs)
    ensures var (tasks', ok) := UpdateAll(parse, tasks, xs, now);
            && ProperTasks(tasks', keyOf) && AllListed(tasks', items) && SchedulesParsed(parse, tasks')
            && (ok <==> AllCanRun(parse, xs, now))
            && (ok ==> AllRefreshed(parse, tasks, tasks', xs, now))
    decreases |xs|
  {
    if xs != [] {
      var x := xs[0];
      assert x in xs;
      UpdateOneIs(parse, tasks, items, keyOf, x, now);
      UpdateOneKeeps(parse, tasks, items, keyOf, x, now);
      var (first, ok) := UpdateOne(parse, tasks, x, now);
      UpdatableRest(parse, tasks, first, items, keyOf, xs);
      if ok {
        UpdateAllIs(parse, first, items, keyOf, xs[1..], now);
        if UpdateAll(parse, first, xs[1..], now).1 {
          RefreshedInTurn(parse, tasks, keyOf, xs, now, first, UpdateAll(parse, first, xs[1..], now).0);
        }
      }
    }
  }

  /** Refreshing by the first item and then by the rest is refreshing by all. */
  lemma RefreshedInTurn(parse: Parser, tasks: seq<Task>, keyOf: string -> string, xs: seq<Resource>, now: Moment,
                        first: seq<Task>, all: seq<Task>)
    requires xs != [] && DistinctUids(xs) && ProperTasks(tasks, keyOf) && FindUid(tasks, xs[0].uid) != -1
    requires var i := FindUid(tasks, xs[0].uid); first == tasks[i := Refreshed(parse, tasks[i], xs[0], now)]
    requires forall i | 0 <= i < |tasks| :: first[i].uid == tasks[i].uid
    requires AllRefreshed(parse, first, all, xs[1..], now)
    ensures AllRefreshed(parse, tasks, all, xs, now)
  {
    var k := FindUid(tasks, xs[0].uid);
    forall i | 0 <= i < |tasks| ensures all[i] == RefreshedBy(parse, tasks[i], xs, now) {
      if i == k {
        assert ItemFor(xs[1..], xs[0].uid).None?;
      } else {
        assert tasks[i].uid != tasks[k].uid;
      }
    }
  }

  // ----- All additions

  ghost predicate Addable(parse: Parser, tasks: seq<Task>, keyOf: string -> string, xs: seq<Resource>) {
    && ProperTasks(tasks, keyOf) && SchedulesParsed(parse, tasks)
    && DistinctUids(xs) && forall x <- xs :: x.Key() == keyOf(x.uid) && FindUid(tasks, x.uid) == -1
  }

  lemma AppendedIsProper(parse: Parser, tasks: seq<Task>, keyOf: string -> string, t: Task)
    requires ProperTasks(tasks, keyOf) && SchedulesParsed(parse, tasks) && FindUid(tasks, t.uid) == -1
    requires t.item.uid == t.uid && t.item.Key() == keyOf(t.uid) && parse(t.item.schedule) == Some(t.schedule)
    ensures ProperTasks(tasks + [t], keyOf) && SchedulesParsed(parse, tasks + [t])
  {
    assert forall t' <- tasks + [t] :: t' in tasks || t' == t;
  }

  lemma AppendedIsElsewhere(tasks: seq<Task>, t: Task, uid: string)
    requires FindUid(tasks, uid) == -1 && t.uid != uid
    ensures FindUid(tasks + [t], uid) == -1
  {
    assert forall t' <- tasks + [t] :: t' in tasks || t' == t;
  }

  lemma AddOneKeeps(parse: Parser, tasks: seq<Task>, keyOf: string -> string, xs: seq<Resource>, t: Task)
    requires xs != [] && Addable(parse, tasks, keyOf, xs)
    requires t.uid == xs[0].uid && t.item == xs[0] && parse(t.item.schedule) == Some(t.schedule)
    ensures Addable(parse, tasks + [t], keyOf, xs[1..])
  {
    assert xs[0] in xs;
    AppendedIsProper(parse, tasks, keyOf, t);
    forall y <- xs[1..] ensures y.Key() == keyOf(y.uid) && FindUid(tasks + [t], y.uid) == -1 {
      assert y in xs;
      AppendedIsElsewhere(tasks, t, y.uid);
    }
  }

  /** The tasks added are new tasks of the first items, up to one that cannot run. */
  ghost predicate NewTasks(parse: Parser, added: seq<Task>, xs: seq<Resource>, now: Moment) {
    && |added| <= |xs|
    && forall i | 0 <= i < |added| :: NewTask(parse, xs[i], now) == Some(added[i])
  }

  lemma {:induction false} AddAllIs(parse: Parser, tasks: seq<Task>, xs: seq<Resource>, now: Moment)
    returns (added: seq<Task>)
    ensures var (tasks', ok) := AddAll(parse, tasks, xs, now);
            && tasks' == tasks + added && NewTasks(parse, added, xs, now)
            && (ok <==> AllCanRun(parse, xs, now))
            && (ok ==> |added| == |xs|)
    decreases |xs|
  {
    added := [];
    if xs != [] && NewTask(parse, xs[0], now).Some? {
      var t := NewTask(parse, xs[0], now).value;
      added := [t];
      if CanLog(t.schedule, now) {
        var rest := AddAllIs(parse, tasks + [t], xs[1..], now);
        added := [t] + rest;
        assert tasks + [t] + rest == tasks + added;
      }
    }
  }

  lemma {:induction false} AddAllKeeps(parse: Parser, tasks: seq<Task>, keyOf: string -> string, xs: seq<Resource>,
                                       now: Moment)
    requires Addable(parse, tasks, keyOf, xs)
    ensures ProperTasks(AddAll(parse, tasks, xs, now).0, keyOf)
    ensures SchedulesParsed(parse, AddAll(parse, tasks, xs, now).0)
    decreases |xs|
  {
    if xs != [] && NewTask(parse, xs[0], now).Some? {
      var t := NewTask(parse, xs[0], now).value;
      AddOneKeeps(parse, tasks, keyOf, xs, t);
      if CanLog(t.schedule, now) {
        AddAllKeeps(parse, tasks + [t], keyOf, xs[1..], now);
      }
    }
  }

  // ----- Sync

  lemma {:induction false} ListedIsDistinct(tasks: seq<Task>, items: seq<Resource>)
    requires DistinctTasks(tasks)
    ensures DistinctTasks(Listed(tasks, items))
  {
    if tasks != [] {
      ListedIsDistinct(tasks[1..], items);
      var rest := Listed(tasks[1..], items);
      forall i | 0 <= i < |rest| ensures rest[i].uid != tasks[0].uid {
        assert rest[i] in tasks[1..];
      }
    }
  }

  lemma ListedIsProper(parse: Parser, tasks: seq<Task>, items: seq<Resource>, keyOf: string -> string)
    requires ProperTasks(tasks, keyOf) && SchedulesParsed(parse, tasks)
    ensures ProperTasks(Listed(tasks, items), keyOf) && SchedulesParsed(parse, Listed(tasks, items))
    ensures AllListed(Listed(tasks, items), items)
  {
    ListedIsDistinct(tasks, items);
  }

  lemma {:induction false} ListedOfSum(a: seq<Task>, b: seq<Task>, items: seq<Resource>)
    ensures Listed(a + b, items) == Listed(a, items) + Listed(b, items)
  {
    if a == [] {
      assert a + b == b;
    } else {
      assert (a + b)[1..] == a[1..] + b;
      ListedOfSum(a[1..], b, items);
    }
  }

  lemma {:induction false} ListedKeepsAll(tasks: seq<Task>, items: seq<Resource>)
    requires AllListed(tasks, items)
    ensures Listed(tasks, items) == tasks
  {
    if tasks != [] {
      assert forall t <- tasks[1..] :: t in tasks;
      assert tasks[0] in tasks;
      ListedKeepsAll(tasks[1..], items);
    }
  }

  lemma {:induction false} ItemsByDistinct(items: seq<Resource>, tasks: seq<Task>, known: bool)
    requires DistinctUids(items)
    ensures DistinctUids(ItemsBy(items, tasks, known))
  {
    if items != [] {
      ItemsByDistinct(items[1..], tasks, known);
      var rest := ItemsBy(items[1..], tasks, known);
      forall i | 0 <= i < |rest| ensures rest[i].uid != items[0].uid {
        assert rest[i] in items[1..];
      }
    }
  }

  /** Sync in closed form: the listed tasks refreshed, in their order, and then new tasks for the new items. */
  ghost predicate Synced(parse: Parser, tasks: seq<Task>, items: seq<Resource>, now: Moment, after: seq<Task>) {
    var kept, unknown := Listed(tasks, items), ItemsBy(items, tasks, false);
    && |after| == |kept| + |unknown|
    && AllRefreshed(parse, kept, after[..|kept|], items, now)
    && NewTasks(parse, after[|kept|..], unknown, now)
  }

  /** Sync succeeds exactly if every item can run, and then has the closed form; in any case every task
      keeps a schedule that is the parse of its item's text. */
  lemma SyncIs(parse: Parser, tasks: seq<Task>, items: seq<Resource>, keyOf: string -> string, now: Moment)
    requires ProperTasks(tasks, keyOf) && ProperItems(items, keyOf) && SchedulesParsed(parse, tasks)
    ensures var (after, ok) := Sync(parse, tasks, items, now);
            && ProperTasks(after, keyOf) && SchedulesParsed(parse, after)
            && (ok <==> forall x <- items :: CanRun(parse, x, now))
            && (ok ==> Synced(parse, tasks, items, now, after))
  {
    var unknown, known := ItemsBy(items, tasks, false), ItemsBy(items, tasks, true);
    ItemsByDistinct(items, tasks, false);
    ItemsByDistinct(items, tasks, true);
    AllCanRunMeansEach(parse, unknown, now);
    AllCanRunMeansEach(parse, known, now);
    assert forall x <- items :: x in unknown || x in known;
    AddAllKeeps(parse, tasks, keyOf, unknown, now);
    var added := AddAllIs(parse, tasks, unknown, now);
    if AddAll(parse, tasks, unknown, now).1 {
      ListedAfterAdding(parse, tasks, items, added, unknown, now);
      ListedIsProper(parse, tasks + added, items, keyOf);
      var listed := Listed(tasks, items) + added;
      KnownAreUpdatable(parse, tasks, items, keyOf, added, listed, known);
      UpdateAllIs(parse, listed, items, keyOf, known, now);
      if UpdateAll(parse, listed, known, now).1 {
        RefreshedListed(parse, tasks, items, keyOf, added, now, UpdateAll(parse, listed, known, now).0);
      }
    }
  }

  lemma ListedAfterAdding(parse: Parser, tasks: seq<Task>, items: seq<Resource>, added: seq<Task>,
                          unknown: seq<Resource>, now: Moment)
    requires NewTasks(parse, added, unknown, now) && forall x <- unknown :: x in items
    ensures Listed(tasks + added, items) == Listed(tasks, items) + added
  {
    ListedOfSum(tasks, added, items);
    forall t <- added ensures ItemFor(items, t.uid).Some? {
      var i :| 0 <= i < |added| && added[i] == t;
      assert unknown[i] in items;
    }
    ListedKeepsAll(added, items);
  }

  lemma KnownAreUpdatable(parse: Parser, tasks: seq<Task>, items: seq<Resource>, keyOf: string -> string,
                          added: seq<Task>, listed: seq<Task>, known: seq<Resource>)
    requires ProperItems(items, keyOf) && DistinctUids(known)
    requires listed == Listed(tasks, items) + added && known == ItemsBy(items, tasks, true)
    requires ProperTasks(listed, keyOf) && SchedulesParsed(parse, listed) && AllListed(listed, items)
    ensures Updatable(parse, listed, items, keyOf, known)
  {
    forall x <- known ensures FindUid(listed, x.uid) != -1 {
      var t := tasks[FindUid(tasks, x.uid)];
      assert t in Listed(tasks, items);
      assert t in listed;
    }
  }

  lemma RefreshedListed(parse: Parser, tasks: seq<Task>, items: seq<Resource>, keyOf: string -> string,
                        added: seq<Task>, now: Moment, after: seq<Task>)
    requires ProperTasks(tasks, keyOf) && ProperItems(items, keyOf)
    requires NewTasks(parse, added, ItemsBy(items, tasks, false), now) && |added| == |ItemsBy(items, tasks, false)|
    requires AllRefreshed(parse, Listed(tasks, items) + added, after, ItemsBy(items, tasks, true), now)
    ensures Synced(parse, tasks, items, now, after)
  {
    var kept, unknown := Listed(tasks, items), ItemsBy(items, tasks, false);
    forall i | 0 <= i < |kept| ensures after[i] == RefreshedBy(parse, kept[i], items, now) {
      KnownItem(tasks, items, keyOf, kept[i]);
    }
    forall i | 0 <= i < |added| ensures after[|kept| + i] == added[i] {
      assert unknown[i] in unknown;
      UnknownItem(tasks, items, unknown[i]);
    }
  }

  lemma UnknownItem(tasks: seq<Task>, items: seq<Resource>, x: Resource)
    requires x in ItemsBy(items, tasks, false)
    ensures ItemFor(ItemsBy(items, tasks, true), x.uid).None?
  {
  }

  lemma KnownItem(tasks: seq<Task>, items: seq<Resource>, keyOf: string -> string, t: Task)
    requires ProperTasks(tasks, keyOf) && ProperItems(items, keyOf) && t in Listed(tasks, items)
    ensures ItemFor(items, t.uid).Some? && ItemFor(ItemsBy(items, tasks, true), t.uid) == ItemFor(items, t.uid)
  {
    ItemsByDistinct(items, tasks, true);
    var x := ItemFor(items, t.uid).value;
    assert x in ItemsBy(items, tasks, true);
    ItemForIs(ItemsBy(items, tasks, true), x);
  }

  // ----- What the closed form means

  lemma FoundAt(tasks: seq<Task>, i: nat)
    requires i < |tasks| && DistinctTasks(tasks)
    ensures FindUid(tasks, tasks[i].uid) == i
  {
  }

  /** What the task of an item is after a Sync. */
  ghost predicate CarriesItem(parse: Parser, tasks: seq<Task>, x: Resource, now: Moment, t: Task) {
    var i := FindUid(tasks, x.uid);
    && t.item == x
    && if i != -1 && tasks[i].item.schedule == x.schedule then t == tasks[i].(item := x)
       else NewTask(parse, x, now) == Some(t)
  }

  /** After a Sync that succeeds there is exactly one task per item; it carries the item, and keeps its
      schedule and times if the schedule text is unchanged. */
  lemma SyncReconciles(parse: Parser, tasks: seq<Task>, items: seq<Resource>, keyOf: string -> string, now: Moment)
    requires ProperTasks(tasks, keyOf) && ProperItems(items, keyOf) && SchedulesParsed(parse, tasks)
    requires forall x <- items :: CanRun(parse, x, now)
    ensures var (after, ok) := Sync(parse, tasks, items, now);
            && ok && DistinctTasks(after) && AllListed(after, items)
            && (forall x <- items :: FindUid(after, x.uid) != -1 &&
                                     CarriesItem(parse, tasks, x, now, after[FindUid(after, x.uid)]))
  {
    SyncIs(parse, tasks, items, keyOf, now);
    var after := Sync(parse, tasks, items, now).0;
    forall x <- items ensures
      FindUid(after, x.uid) != -1 && CarriesItem(parse, tasks, x, now, after[FindUid(after, x.uid)])
    {
      SyncedItem(parse, tasks, items, keyOf, now, after, x);
    }
    forall t <- after ensures ItemFor(items, t.uid).Some? {
      SyncedTask(parse, tasks, items, now, after, t);
    }
  }

  lemma SyncedItem(parse: Parser, tasks: seq<Task>, items: seq<Resource>, keyOf: string -> string, now: Moment,
                   after: seq<Task>, x: Resource)
    requires ProperItems(items, keyOf) && x in items && CanRun(parse, x, now) && DistinctTasks(tasks)
    requires Synced(parse, tasks, items, now, after) && DistinctTasks(after)
    ensures FindUid(after, x.uid) != -1 && CarriesItem(parse, tasks, x, now, after[FindUid(after, x.uid)])
  {
    if FindUid(tasks, x.uid) != -1 {
      SyncedKnown(parse, tasks, items, keyOf, now, after, x);
    } else {
      SyncedUnknown(parse, tasks, items, now, after, x);
    }
  }

  lemma SyncedKnown(parse: Parser, tasks: seq<Task>, items: seq<Resource>, keyOf: string -> string, now: Moment,
                    after: seq<Task>, x: Resource)
    requires ProperItems(items, keyOf) && x in items && CanRun(parse, x, now) && FindUid(tasks, x.uid) != -1
    requires Synced(parse, tasks, items, now, after) && DistinctTasks(after)
    ensures FindUid(after, x.uid) != -1 && CarriesItem(parse, tasks, x, now, after[FindUid(after, x.uid)])
  {
    var kept, t := Listed(tasks, items), tasks[FindUid(tasks, x.uid)];
    ItemForIs(items, x);
    assert t in kept;
    var j :| 0 <= j < |kept| && kept[j] == t;
    assert after[j] == after[..|kept|][j] == Refreshed(parse, t, x, now);
    RefreshedCarries(parse, tasks, x, now);
    FoundAt(after, j);
  }

  lemma SyncedUnknown(parse: Parser, tasks: seq<Task>, items: seq<Resource>, now: Moment, after: seq<Task>, x: Resource)
    requires x in items && CanRun(parse, x, now) && FindUid(tasks, x.uid) == -1
    requires Synced(parse, tasks, items, now, after) && DistinctTasks(after)
    ensures FindUid(after, x.uid) != -1 && CarriesItem(parse, tasks, x, now, after[FindUid(after, x.uid)])
  {
    var j := UnknownAt(tasks, items, x);
    var kept := |Listed(tasks, items)|;
    NewTaskAt(parse, after, kept, ItemsBy(items, tasks, false), now, j);
    NewCarries(parse, tasks, x, now, after[kept + j]);
    FoundAt(after, kept + j);
  }

  lemma UnknownAt(tasks: seq<Task>, items: seq<Resource>, x: Resource) returns (j: nat)
    requires x in items && FindUid(tasks, x.uid) == -1
    ensures j < |ItemsBy(items, tasks, false)| && ItemsBy(items, tasks, false)[j] == x
  {
    var unknown := ItemsBy(items, tasks, false);
    assert x in unknown;
    j :| 0 <= j < |unknown| && unknown[j] == x;
  }

  lemma NewTaskAt(parse: Parser, after: seq<Task>, kept: nat, xs: seq<Resource>, now: Moment, j: nat)
    requires kept + j < |after| && NewTasks(parse, after[kept..], xs, now)
    ensures j < |xs| && NewTask(parse, xs[j], now) == Some(after[kept + j])
  {
    assert after[kept..][j] == after[kept + j];
  }

  lemma NewCarries(parse: Parser, tasks: seq<Task>, x: Resource, now: Moment, t: Task)
    requires FindUid(tasks, x.uid) == -1 && NewTask(parse, x, now) == Some(t)
    ensures t.uid == x.uid && CarriesItem(parse, tasks, x, now, t)
  {
  }

  lemma RefreshedCarries(parse: Parser, tasks: seq<Task>, x: Resource, now: Moment)
    requires CanRun(parse, x, now) && FindUid(tasks, x.uid) != -1
    ensures var t := Refreshed(parse, tasks[FindUid(tasks, x.uid)], x, now);
            t.uid == x.uid && CarriesItem(parse, tasks, x, now, t)
  {
  }

  lemma SyncedTask(parse: Parser, tasks: seq<Task>, items: seq<Resource>, now: Moment, after: seq<Task>, t: Task)
    requires Synced(parse, tasks, items, now, after) && t in after
    ensures ItemFor(items, t.uid).Some?
  {
    var kept, unknown := Listed(tasks, items), ItemsBy(items, tasks, false);
    var i :| 0 <= i < |after| && after[i] == t;
    if i < |kept| {
      assert after[i] == after[..|kept|][i] && kept[i] in kept;
    } else {
      assert after[i] == after[|kept|..][i - |kept|] && unknown[i - |kept|] in unknown;
    }
  }

  /** A second Sync with the same items changes nothing. */
  lemma SyncTwice(parse: Parser, tasks: seq<Task>, items: seq<Resource>, keyOf: string -> string, now: Moment,
                  later: Moment)
    requires ProperTasks(tasks, keyOf) && ProperItems(items, keyOf) && SchedulesParsed(parse, tasks)
    requires forall x <- items :: CanRun(parse, x, now) && CanRun(parse, x, later)
    ensures var after := Sync(parse, tasks, items, now).0; Sync(parse, after, items, later) == (after, true)
  {
    var after := Sync(parse, tasks, items, now).0;
    SyncReconciles(parse, tasks, items, keyOf, now);
    SyncIs(parse, tasks, items, keyOf, now);
    SyncIs(parse, after, items, keyOf, later);
    forall i | 0 <= i < |after| ensures RefreshedBy(parse, after[i], items, later) == after[i] {
      SelfRefresh(parse, tasks, items, now, later, after, i);
    }
    SyncedToItself(parse, after, items, later, Sync(parse, after, items, later).0);
  }

  lemma SyncedToItself(parse: Parser, tasks: seq<Task>, items: seq<Resource>, now: Moment, after: seq<Task>)
    requires Synced(parse, tasks, items, now, after) && AllListed(tasks, items)
    requires forall x <- items :: FindUid(tasks, x.uid) != -1
    requires forall i | 0 <= i < |tasks| :: RefreshedBy(parse, tasks[i], items, now) == tasks[i]
    ensures after == tasks
  {
    ListedKeepsAll(tasks, items);
    NoneUnknown(items, tasks);
    assert after[..|tasks|] == after;
  }

  lemma {:induction false} NoneUnknown(items: seq<Resource>, tasks: seq<Task>)
    requires forall x <- items :: FindUid(tasks, x.uid) != -1
    ensures ItemsBy(items, tasks, false) == []
  {
    if items != [] {
      assert items[0] in items && forall x <- items[1..] :: x in items;
      NoneUnknown(items[1..], tasks);
    }
  }

  lemma SelfRefresh(parse: Parser, tasks: seq<Task>, items: seq<Resource>, now: Moment, later: Moment,
                    after: seq<Task>, i: nat)
    requires i < |after| && DistinctTasks(after) && AllListed(after, items)
    requires forall x <- items ::
      FindUid(after, x.uid) != -1 && CarriesItem(parse, tasks, x, now, after[FindUid(after, x.uid)])
    ensures RefreshedBy(parse, after[i], items, later) == after[i]
  {
    assert after[i] in after;
    var x := ItemFor(items, after[i].uid).value;
    FoundAt(after, i);
    assert after[i].item == x;
  }

  // ----- Timers

  /** The task keeps its schedule, its text and its times. */
  predicate SameTimer(a: Task, b: Task) {
    && a.uid == b.uid && a.schedule == b.schedule && a.last == b.last && a.next == b.next
    && a.item.schedule == b.item.schedule
  }

  ghost predicate TimerKept(before: seq<Task>, after: seq<Task>, uid: string) {
    var i, j := FindUid(before, uid), FindUid(after, uid);
    i != -1 && j != -1 && SameTimer(before[i], after[j])
  }

  lemma {:induction false} UpdateAllKeepsTimer(parse: Parser, tasks: seq<Task>, items: seq<Resource>,
                                               keyOf: string -> string,
                                               xs: seq<Resource>, now: Moment, uid: string)
    requires Updatable(parse, tasks, items, keyOf, xs) && FindUid(tasks, uid) != -1
    requires forall x <- xs :: x.uid == uid ==> x.schedule == tasks[FindUid(tasks, uid)].item.schedule
    ensures TimerKept(tasks, UpdateAll(parse, tasks, xs, now).0, uid)
    decreases |xs|
  {
    if xs != [] {
      var x := xs[0];
      assert x in xs;
      UpdateOneIs(parse, tasks, items, keyOf, x, now);
      UpdateOneKeeps(parse, tasks, items, keyOf, x, now);
      var (first, ok) := UpdateOne(parse, tasks, x, now);
      UpdatableRest(parse, tasks, first, items, keyOf, xs);
      SameUidsSameFind(tasks, first, uid);
      assert SameTimer(tasks[FindUid(tasks, uid)], first[FindUid(tasks, uid)]);
      if ok {
        UpdateAllKeepsTimer(parse, first, items, keyOf, xs[1..], now, uid);
      }
    }
  }

  /** Even a Sync that fails keeps the timer of a task whose item is listed with the same schedule text. */
  lemma SyncKeepsTimer(parse: Parser, tasks: seq<Task>, items: seq<Resource>, keyOf: string -> string, now: Moment,
                       uid: string)
    requires ProperTasks(tasks, keyOf) && ProperItems(items, keyOf) && SchedulesParsed(parse, tasks)
    requires FindUid(tasks, uid) != -1 && ItemFor(items, uid).Some?
    requires ItemFor(items, uid).value.schedule == tasks[FindUid(tasks, uid)].item.schedule
    ensures TimerKept(tasks, Sync(parse, tasks, items, now).0, uid)
  {
    var unknown, known := ItemsBy(items, tasks, false), ItemsBy(items, tasks, true);
    ItemsByDistinct(items, tasks, false);
    ItemsByDistinct(items, tasks, true);
    var i := FindUid(tasks, uid);
    var added := AddAllIs(parse, tasks, unknown, now);
    AddAllKeeps(parse, tasks, keyOf, unknown, now);
    assert (tasks + added)[i] == tasks[i];
    FoundAt(tasks + added, i);
    if AddAll(parse, tasks, unknown, now).1 {
      ListedAfterAdding(parse, tasks, items, added, unknown, now);
      ListedIsProper(parse, tasks + added, items, keyOf);
      var listed := Listed(tasks, items) + added;
      KnownAreUpdatable(parse, tasks, items, keyOf, added, listed, known);
      assert tasks[i] in Listed(tasks, items);
      var j :| 0 <= j < |listed| && listed[j] == tasks[i];
      FoundAt(listed, j);
      forall x <- known | x.uid == uid ensures x.schedule == tasks[i].item.schedule {
        ItemForIs(items, x);
      }
      UpdateAllKeepsTimer(parse, listed, items, keyOf, known, now, uid);
    }
  }
}
