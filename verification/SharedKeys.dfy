/** The updates of a Sync compare the schedule text of an item with that of the first task with its key, although they
    then change the task of its uid: exactly when that leaves a schedule that is not the parse of the item's text. */
module SharedKeys {
  import opened Wrappers
  import opened Calendar
  import opened Resources
  import opened SchedulerModel
  import opened Reconciliation

  // ----- One update

  /** After an update the task of the item's uid is right exactly if the texts of item and key differ, or its old
      schedule happens to be the parse of the item's text. */
  lemma UpdateIsRightIff(parse: Parser, tasks: seq<Task>, item: Resource, now: Moment)
    requires FindUid(tasks, item.uid) != -1 && parse(item.schedule).Some?
    ensures var i, k := FindUid(tasks, item.uid), FindKey(tasks, item.Key());
            var t := UpdateOne(parse, tasks, item, now).0[i];
            && t.item == item
            && (parse(item.schedule) == Some(t.schedule) <==>
                k == -1 || tasks[k].item.schedule != item.schedule || parse(item.schedule) == Some(tasks[i].schedule))
  {
  }

  /** The task of the item's key has the item's text, and the task of its uid has another schedule. */
  predicate KeepsWrongSchedule(parse: Parser, tasks: seq<Task>, item: Resource) {
    var i, k := FindUid(tasks, item.uid), FindKey(tasks, item.Key());
    && i != -1 && k != -1 && tasks[k].item.schedule == item.schedule
    && parse(item.schedule) != Some(tasks[i].schedule)
  }

  lemma UpdateOneParsed(parse: Parser, tasks: seq<Task>, item: Resource, now: Moment)
    requires SchedulesParsed(parse, tasks)
    ensures SchedulesParsed(parse, UpdateOne(parse, tasks, item, now).0) <==> !KeepsWrongSchedule(parse, tasks, item)
    ensures KeepsWrongSchedule(parse, tasks, item) ==>
            !IsParsed(parse, UpdateOne(parse, tasks, item, now).0[FindUid(tasks, item.uid)])
  {
    var i, k := FindUid(tasks, item.uid), FindKey(tasks, item.Key());
    var after := UpdateOne(parse, tasks, item, now).0;
    assert k != -1 ==> tasks[k] in tasks;
    if i != -1 && parse(item.schedule).Some? {
      UpdateIsRightIff(parse, tasks, item, now);
      assert after == tasks[i := after[i]];
      assert after[i] in after && forall t <- after :: t == after[i] || t in tasks;
    }
  }

  predicate IsParsed(parse: Parser, t: Task) {
    parse(t.item.schedule) == Some(t.schedule)
  }

  // ----- A whole Sync

  /** No update of the list keeps a wrong schedule, as far as the updates get. */
  ghost predicate NeverKeepsWrong(parse: Parser, tasks: seq<Task>, xs: seq<Resource>, now: Moment)
    decreases |xs|
  {
    xs != [] ==>
      var (first, ok) := UpdateOne(parse, tasks, xs[0], now);
      !KeepsWrongSchedule(parse, tasks, xs[0]) && (ok ==> NeverKeepsWrong(parse, first, xs[1..], now))
  }

  /** Updates leave the tasks of other uids alone. */
  lemma {:induction false} UpdateAllLeaves(parse: Parser, tasks: seq<Task>, xs: seq<Resource>, now: Moment, i: nat)
    requires i < |tasks| && forall x <- xs :: x.uid != tasks[i].uid
    ensures var after := UpdateAll(parse, tasks, xs, now).0; |after| == |tasks| && after[i] == tasks[i]
    decreases |xs|
  {
    if xs != [] {
      assert xs[0] in xs;
      UpdateAllLeaves(parse, UpdateOne(parse, tasks, xs[0], now).0, xs[1..], now, i);
    }
  }

  lemma {:induction false} UpdateAllIsRightIff(parse: Parser, tasks: seq<Task>, xs: seq<Resource>, now: Moment)
    requires SchedulesParsed(parse, tasks) && DistinctUids(xs)
    ensures SchedulesParsed(parse, UpdateAll(parse, tasks, xs, now).0) <==> NeverKeepsWrong(parse, tasks, xs, now)
    decreases |xs|
  {
    if xs != [] {
      var (first, ok) := UpdateOne(parse, tasks, xs[0], now);
      UpdateOneParsed(parse, tasks, xs[0], now);
      if KeepsWrongSchedule(parse, tasks, xs[0]) {
        WrongStaysWrong(parse, tasks, xs, now);
      } else if ok {
        UpdateAllIsRightIff(parse, first, xs[1..], now);
      }
    }
  }

  /** A wrong schedule is not put right by the updates of the other items. */
  lemma WrongStaysWrong(parse: Parser, tasks: seq<Task>, xs: seq<Resource>, now: Moment)
    requires SchedulesParsed(parse, tasks) && xs != [] && DistinctUids(xs) && KeepsWrongSchedule(parse, tasks, xs[0])
    ensures !SchedulesParsed(parse, UpdateAll(parse, tasks, xs, now).0)
  {
    var (first, ok) := UpdateOne(parse, tasks, xs[0], now);
    var i := FindUid(tasks, xs[0].uid);
    UpdateOneParsed(parse, tasks, xs[0], now);
    if ok {
      UpdateAllLeaves(parse, first, xs[1..], now, i);
    }
    var after := UpdateAll(parse, tasks, xs, now).0;
    assert after[i] == first[i] && after[i] in after;
  }

  /** From schedules that are the parses of their texts, a Sync, failed or not, leads to such schedules again if and
      only if none of its updates keeps a wrong one. */
  lemma SyncIsRightIff(parse: Parser, tasks: seq<Task>, items: seq<Resource>, now: Moment)
    requires SchedulesParsed(parse, tasks) && DistinctUids(items)
    ensures var (added, ok) := AddAll(parse, tasks, ItemsBy(items, tasks, false), now);
            SchedulesParsed(parse, Sync(parse, tasks, items, now).0) <==>
            (ok ==> NeverKeepsWrong(parse, Listed(added, items), ItemsBy(items, tasks, true), now))
  {
    var unknown, known := ItemsBy(items, tasks, false), ItemsBy(items, tasks, true);
    var added := AddAllIs(parse, tasks, unknown, now);
    assert forall t <- tasks + added :: t in tasks || exists i :: 0 <= i < |added| && added[i] == t;
    assert SchedulesParsed(parse, tasks + added);
    ItemsByDistinct(items, tasks, true);
    UpdateAllIsRightIff(parse, Listed(tasks + added, items), known, now);
  }

  // ----- Two resources with one key

  /** It happens: two resources with one key are added, and then the second gets the text of the first. Its task
      carries the new text and keeps the schedule of the old one. */
  lemma SharedKeyKeepsWrongSchedule(parse: Parser, a: Resource, b: Resource, now: Moment, later: Moment)
    requires a.uid != b.uid && a.Key() == b.Key()
    requires CanRun(parse, a, now) && CanRun(parse, b, now)
    requires CanRun(parse, a, later) && CanRun(parse, b, later)
    ensures var b' := b.(schedule := a.schedule);
            var (first, ok) := Sync(parse, [], [a, b], now);
            var (second, ok') := Sync(parse, first, [a, b'], later);
            && ok && ok' && |second| == 2 && SchedulesParsed(parse, first)
            && second[1].item == b' && Some(second[1].schedule) == parse(b.schedule)
            && (parse(a.schedule) != parse(b.schedule) ==> !SchedulesParsed(parse, second))
  {
    var b' := b.(schedule := a.schedule);
    var ta, tb := NewTask(parse, a, now).value, NewTask(parse, b, now).value;
    BothAdded(parse, a, b, now);
    BothUpdated(parse, a, b', ta, tb, later);
    assert [ta, tb.(item := b')][1] in [ta, tb.(item := b')];
  }

  lemma BothAdded(parse: Parser, a: Resource, b: Resource, now: Moment)
    requires a.uid != b.uid && CanRun(parse, a, now) && CanRun(parse, b, now)
    ensures Sync(parse, [], [a, b], now) ==
            ([NewTask(parse, a, now).value, NewTask(parse, b, now).value], true)
  {
    var ta, tb := NewTask(parse, a, now).value, NewTask(parse, b, now).value;
    NoneKnown([a, b]);
    AllCanRunMeansEach(parse, [a, b], now);
    var added := AddAllIs(parse, [], [a, b], now);
    assert [a, b][0] == a && [a, b][1] == b;
    assert [] + added == [ta, tb];
    assert AddAll(parse, [], [a, b], now) == ([ta, tb], true);
    ListedKeepsAll([ta, tb], [a, b]);
  }

  /** An empty repository knows no item. */
  lemma {:induction false} NoneKnown(items: seq<Resource>)
    ensures ItemsBy(items, [], true) == [] && ItemsBy(items, [], false) == items
  {
    if items != [] {
      NoneKnown(items[1..]);
      assert items == [items[0]] + items[1..];
    }
  }

  lemma BothUpdated(parse: Parser, a: Resource, b: Resource, ta: Task, tb: Task, now: Moment)
    requires a.uid != b.uid && a.Key() == b.Key() && a.schedule == b.schedule
    requires ta.uid == a.uid && ta.item == a && tb.uid == b.uid
    requires CanLog(ta.schedule, now) && CanLog(tb.schedule, now)
    ensures Sync(parse, [ta, tb], [a, b], now) == ([ta, tb.(item := b)], true)
  {
    var tasks := [ta, tb];
    assert tasks[0] in tasks && tasks[1] in tasks;
    assert FindUid(tasks, a.uid) == 0 && FindUid(tasks, b.uid) == 1 && FindKey(tasks, a.Key()) == 0;
    NoneUnknown([a, b], tasks);
    assert [a, b][1..] == [b] && [b][1..] == [];
    assert ItemsBy([b], tasks, true) == [b];
    assert ItemsBy([a, b], tasks, true) == [a, b];
    ListedKeepsAll(tasks, [a, b]);
    assert RetainOne(tasks, a, now) == (tasks, true) by { assert tasks[0 := ta.(item := a)] == tasks; }
    assert RetainOne(tasks, b, now) == ([ta, tb.(item := b)], true) by {
      assert tasks[1 := tb.(item := b)] == [ta, tb.(item := b)];
    }
    assert UpdateOne(parse, tasks, a, now) == RetainOne(tasks, a, now);
    assert UpdateOne(parse, tasks, b, now) == RetainOne(tasks, b, now);
    assert UpdateAll(parse, tasks, [b], now) == ([ta, tb.(item := b)], true);
  }
}
