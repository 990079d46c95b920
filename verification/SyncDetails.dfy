/** What a Sync leaves behind when it fails, and in which order it treats items and tasks. */
module SyncDetails {
  import opened Calendar
  import opened Resources
  import opened SchedulerModel
  import opened Reconciliation

  // ----- Failure

  /** The k-th item is the first that cannot run. */
  ghost predicate FirstFailure(parse: Parser, xs: seq<Resource>, k: nat, now: Moment) {
    k < |xs| && !CanRun(parse, xs[k], now) && forall i | 0 <= i < k :: CanRun(parse, xs[i], now)
  }

  lemma FailureLater(parse: Parser, xs: seq<Resource>, k: nat, now: Moment)
    requires xs != [] && CanRun(parse, xs[0], now) && FirstFailure(parse, xs[1..], k, now)
    ensures FirstFailure(parse, xs, k + 1, now)
  {
    assert forall i | 1 <= i <= k + 1 :: xs[i] == xs[1..][i - 1];
  }

  /** The tasks of the first k items were added, and that of the next if its text parses. */
  ghost predicate AddedUpTo(parse: Parser, tasks: seq<Task>, after: seq<Task>, xs: seq<Resource>, k: nat, now: Moment) {
    && k < |xs| && |after| == |tasks| + k + (if parse(xs[k].schedule).Some? then 1 else 0)
    && after[..|tasks|] == tasks && NewTasks(parse, after[|tasks|..], xs, now)
  }

  /** The addition that fails is that of the first item that cannot run. If its text parses, its task has been added
      when the log line throws, and stays. */
  lemma {:induction false} AddAllStops(parse: Parser, tasks: seq<Task>, xs: seq<Resource>, now: Moment) returns (k: nat)
    requires !AddAll(parse, tasks, xs, now).1
    ensures FirstFailure(parse, xs, k, now)
    ensures AddedUpTo(parse, tasks, AddAll(parse, tasks, xs, now).0, xs, k, now)
    decreases |xs|
  {
    k := 0;
    var added := AddAllIs(parse, tasks, xs, now);
    if NewTask(parse, xs[0], now).Some? {
      var t := NewTask(parse, xs[0], now).value;
      if CanLog(t.schedule, now) {
        var k' := AddAllStops(parse, tasks + [t], xs[1..], now);
        k := k' + 1;
        FailureLater(parse, xs, k', now);
      }
    }
  }

  /** The update that fails is that of the first item that cannot run. It has been made when the log line throws, as
      have those before it, and none after it. */
  lemma {:induction false} UpdateAllStops(parse: Parser, tasks: seq<Task>, items: seq<Resource>,
                                          keyOf: string -> string, xs: seq<Resource>, now: Moment) returns (k: nat)
    requires Updatable(parse, tasks, items, keyOf, xs) && !UpdateAll(parse, tasks, xs, now).1
    ensures FirstFailure(parse, xs, k, now)
    ensures AllRefreshed(parse, tasks, UpdateAll(parse, tasks, xs, now).0, xs[..k + 1], now)
    decreases |xs|
  {
    var x := xs[0];
    assert x in xs;
    UpdateOneIs(parse, tasks, items, keyOf, x, now);
    UpdateOneKeeps(parse, tasks, items, keyOf, x, now);
    var (first, ok) := UpdateOne(parse, tasks, x, now);
    k := 0;
    NothingRefreshed(parse, first, now);
    assert xs[1..][..0] == [];
    if ok {
      UpdatableRest(parse, tasks, first, items, keyOf, xs);
      var k' := UpdateAllStops(parse, first, items, keyOf, xs[1..], now);
      k := k' + 1;
      FailureLater(parse, xs, k', now);
    }
    OneMoreRefreshed(parse, tasks, keyOf, xs, now, first, UpdateAll(parse, tasks, xs, now).0, k);
  }

  lemma OneMoreRefreshed(parse: Parser, tasks: seq<Task>, keyOf: string -> string, xs: seq<Resource>, now: Moment,
                         first: seq<Task>, all: seq<Task>, k: nat)
    requires k < |xs| && DistinctUids(xs) && ProperTasks(tasks, keyOf) && FindUid(tasks, xs[0].uid) != -1
    requires var i := FindUid(tasks, xs[0].uid); first == tasks[i := Refreshed(parse, tasks[i], xs[0], now)]
    requires forall i | 0 <= i < |tasks| :: first[i].uid == tasks[i].uid
    requires AllRefreshed(parse, first, all, xs[1..][..k], now)
    ensures AllRefreshed(parse, tasks, all, xs[..k + 1], now)
  {
    var prefix := xs[..k + 1];
    assert prefix[1..] == xs[1..][..k] && prefix[0] == xs[0];
    RefreshedInTurn(parse, tasks, keyOf, prefix, now, first, all);
  }

  lemma NothingRefreshed(parse: Parser, tasks: seq<Task>, now: Moment)
    ensures AllRefreshed(parse, tasks, tasks, [], now)
  {
  }

  /** A Sync that fails either adds some of the new items and removes and updates nothing, or adds them all, removes
      the tasks that are not listed, and updates some of the known ones; the item that fails comes last, and what it
      did before the log line threw stays. */
  lemma FailedSyncIs(parse: Parser, tasks: seq<Task>, items: seq<Resource>, keyOf: string -> string, now: Moment)
    returns (k: nat)
    requires ProperTasks(tasks, keyOf) && ProperItems(items, keyOf) && SchedulesParsed(parse, tasks)
    requires !Sync(parse, tasks, items, now).1
    ensures var unknown, known := ItemsBy(items, tasks, false), ItemsBy(items, tasks, true);
            var after, (added, allAdded) := Sync(parse, tasks, items, now).0, AddAll(parse, tasks, unknown, now);
            if !allAdded
            then FirstFailure(parse, unknown, k, now) && AddedUpTo(parse, tasks, after, unknown, k, now)
            else FirstFailure(parse, known, k, now) &&
                 AllRefreshed(parse, Listed(added, items), after, known[..k + 1], now)
  {
    var unknown, known := ItemsBy(items, tasks, false), ItemsBy(items, tasks, true);
    if !AddAll(parse, tasks, unknown, now).1 {
      k := AddAllStops(parse, tasks, unknown, now);
    } else {
      ItemsByDistinct(items, tasks, false);
      ItemsByDistinct(items, tasks, true);
      AddAllKeeps(parse, tasks, keyOf, unknown, now);
      var added := AddAllIs(parse, tasks, unknown, now);
      ListedAfterAdding(parse, tasks, items, added, unknown, now);
      ListedIsProper(parse, tasks + added, items, keyOf);
      var listed := Listed(tasks, items) + added;
      KnownAreUpdatable(parse, tasks, items, keyOf, added, listed, known);
      k := UpdateAllStops(parse, listed, items, keyOf, known, now);
    }
  }

  /** An update of an item that no task has the uid of changes nothing. */
  lemma UnknownChangesNothing(parse: Parser, tasks: seq<Task>, item: Resource, now: Moment)
    requires FindUid(tasks, item.uid) == -1
    ensures ReplaceOne(parse, tasks, item, now) == (tasks, parse(item.schedule).Some?)
    ensures RetainOne(tasks, item, now) == (tasks, true)
  {
  }

  // ----- Order

  /** The picked elements are those at the given positions, which are ascending. */
  ghost predicate InOrder<T>(all: seq<T>, picked: seq<T>, positions: seq<nat>) {
    && |positions| == |picked|
    && (forall k | 0 <= k < |positions| :: positions[k] < |all| && all[positions[k]] == picked[k])
    && (forall j, k | 0 <= j < k < |positions| :: positions[j] < positions[k])
  }

  /** Positions in a list without its first element, as positions in the list, with the first one if it is taken. */
  function Later(taken: bool, positions: seq<nat>): (r: seq<nat>)
    ensures |r| == |positions| + (if taken then 1 else 0)
    ensures taken ==> r[0] == 0 && forall k | 1 <= k < |r| :: r[k] == positions[k - 1] + 1
    ensures !taken ==> forall k | 0 <= k < |r| :: r[k] == positions[k] + 1
  {
    (if taken then [0] else []) + seq(|positions|, k requires 0 <= k < |positions| => positions[k] + 1)
  }

  lemma InLater(taken: bool, positions: seq<nat>, i: nat)
    ensures i in Later(taken, positions) <==> if i == 0 then taken else i - 1 in positions
  {
    var r := Later(taken, positions);
    if i > 0 && i - 1 in positions {
      var k :| 0 <= k < |positions| && positions[k] == i - 1;
      assert r[if taken then k + 1 else k] == i;
    }
  }

  lemma InOrderFirst<T>(all: seq<T>, picked: seq<T>, positions: seq<nat>, taken: bool)
    requires all != [] && InOrder(all[1..], picked, positions)
    ensures InOrder(all, if taken then [all[0]] + picked else picked, Later(taken, positions))
  {
    assert forall k | 0 <= k < |positions| :: all[positions[k] + 1] == all[1..][positions[k]] == picked[k];
  }

  /** The items that are known, or those that are not, stand in the order of the list. */
  lemma {:induction false} ItemsByInOrder(items: seq<Resource>, tasks: seq<Task>, known: bool)
    returns (positions: seq<nat>)
    ensures InOrder(items, ItemsBy(items, tasks, known), positions)
    ensures forall i | 0 <= i < |items| :: i in positions <==> (FindUid(tasks, items[i].uid) != -1) == known
  {
    positions := [];
    if items != [] {
      var later := ItemsByInOrder(items[1..], tasks, known);
      var taken := (FindUid(tasks, items[0].uid) != -1) == known;
      positions := Later(taken, later);
      InOrderFirst(items, ItemsBy(items[1..], tasks, known), later, taken);
      forall i | 0 <= i < |items| ensures i in positions <==> (FindUid(tasks, items[i].uid) != -1) == known {
        InLater(taken, later, i);
      }
    }
  }

  /** The tasks that are listed stand in the order of the repository. */
  lemma {:induction false} ListedInOrder(tasks: seq<Task>, items: seq<Resource>) returns (positions: seq<nat>)
    ensures InOrder(tasks, Listed(tasks, items), positions)
    ensures forall i | 0 <= i < |tasks| :: i in positions <==> ItemFor(items, tasks[i].uid).Some?
  {
    positions := [];
    if tasks != [] {
      var later := ListedInOrder(tasks[1..], items);
      var taken := ItemFor(items, tasks[0].uid).Some?;
      positions := Later(taken, later);
      InOrderFirst(tasks, Listed(tasks[1..], items), later, taken);
      forall i | 0 <= i < |tasks| ensures i in positions <==> ItemFor(items, tasks[i].uid).Some? {
        InLater(taken, later, i);
      }
    }
  }
}
