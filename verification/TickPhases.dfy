/** A tick in two phases, which first collects the due tasks and then increments them, against the one pass of Tick. */
module TickPhases {
  import opened Calendar
  import opened SchedulerModel

  /** The positions below n of the tasks that are due, in ascending order. */
  ghost predicate DuePositions(tasks: seq<Task>, n: nat, positions: seq<nat>, now: Moment, zone: Zone) {
    && n <= |tasks|
    && (forall k | 0 <= k < |positions| :: positions[k] < n && IsDue(tasks[positions[k]], now, zone))
    && (forall j, k | 0 <= j < k < |positions| :: positions[j] < positions[k])
    && (forall i | 0 <= i < n && IsDue(tasks[i], now, zone) :: i in positions)
  }

  /** The position of the k-th due task, or the end. */
  ghost function Upcoming(tasks: seq<Task>, positions: seq<nat>, k: nat): nat {
    if k < |positions| then positions[k] else |tasks|
  }

  /** A tick that has treated the front and goes on with the rest. */
  function Resumed(front: seq<Task>, events: seq<Event>, rest: TickResult): TickResult {
    TickResult(front + rest.tasks, events + rest.events, rest.ok)
  }

  lemma {:induction false} TickSkips(tasks: seq<Task>, p: nat, q: nat, now: Moment, zone: Zone)
    requires p <= q <= |tasks| && forall i | p <= i < q :: !IsDue(tasks[i], now, zone)
    ensures Tick(tasks[p..], now, zone) == Resumed(tasks[p..q], [], Tick(tasks[q..], now, zone))
    decreases q - p
  {
    if p == q {
      assert tasks[p..q] == [];
      ResumedAtStart(Tick(tasks[q..], now, zone));
    } else {
      TickSkips(tasks, p + 1, q, now, zone);
      assert tasks[p..] == [tasks[p]] + tasks[p + 1..];
      TickFirst(tasks[p], tasks[p + 1..], now, zone);
      ResumedSum([tasks[p]], [], tasks[p + 1..q], [], Tick(tasks[q..], now, zone));
      assert tasks[p..q] == [tasks[p]] + tasks[p + 1..q];
    }
  }

  lemma ResumedAtStart(r: TickResult)
    ensures Resumed([], [], r) == r
  {
    assert [] + r.tasks == r.tasks && [] + r.events == r.events;
  }

  lemma ResumedSum(a: seq<Task>, aEvents: seq<Event>, b: seq<Task>, bEvents: seq<Event>, r: TickResult)
    ensures Resumed(a, aEvents, Resumed(b, bEvents, r)) == Resumed(a + b, aEvents + bEvents, r)
  {
    assert a + (b + r.tasks) == a + b + r.tasks;
    assert aEvents + (bEvents + r.events) == aEvents + bEvents + r.events;
  }

  lemma TickFirst(t: Task, rest: seq<Task>, now: Moment, zone: Zone)
    ensures var (t', ok) := Incremented(t);
            Tick([t] + rest, now, zone) ==
              if !IsDue(t, now, zone) then Resumed([t], [], Tick(rest, now, zone))
              else if ok then Resumed([t'], [Fired(t, now)], Tick(rest, now, zone))
              else TickResult([t'] + rest, [], false)
  {
    assert ([t] + rest)[1..] == rest;
  }

  lemma NoneDueBetween(tasks: seq<Task>, positions: seq<nat>, k: nat, p: nat, now: Moment, zone: Zone)
    requires DuePositions(tasks, |tasks|, positions, now, zone) && k <= |positions|
    requires if k == 0 then p == 0 else p == positions[k - 1] + 1
    ensures p <= Upcoming(tasks, positions, k)
    ensures forall i | p <= i < Upcoming(tasks, positions, k) :: !IsDue(tasks[i], now, zone)
  {
    assert forall j | 0 <= j < |positions| :: !(p <= positions[j] < Upcoming(tasks, positions, k));
  }

  lemma TickFromFirstDue(tasks: seq<Task>, positions: seq<nat>, now: Moment, zone: Zone)
    requires DuePositions(tasks, |tasks|, positions, now, zone)
    ensures var p := Upcoming(tasks, positions, 0);
            TickedUpTo(tasks, tasks, [], p, now, zone)
  {
    NoneDueBetween(tasks, positions, 0, 0, now, zone);
    TickSkips(tasks, 0, Upcoming(tasks, positions, 0), now, zone);
    assert tasks[0..] == tasks;
  }

  /** The task at p is due, and none is after it up to q. */
  ghost predicate NextDue(tasks: seq<Task>, p: nat, q: nat, now: Moment, zone: Zone) {
    p < q <= |tasks| && IsDue(tasks[p], now, zone) && forall i | p < i < q :: !IsDue(tasks[i], now, zone)
  }

  lemma NextIsDue(tasks: seq<Task>, positions: seq<nat>, k: nat, now: Moment, zone: Zone)
    requires DuePositions(tasks, |tasks|, positions, now, zone) && k < |positions|
    ensures NextDue(tasks, Upcoming(tasks, positions, k), Upcoming(tasks, positions, k + 1), now, zone)
  {
    NoneDueBetween(tasks, positions, k + 1, positions[k] + 1, now, zone);
  }

  /** At a due task the tick either ends, or publishes it and goes on at the next due one. */
  lemma TickFromTo(tasks: seq<Task>, p: nat, q: nat, now: Moment, zone: Zone, front: seq<Task>, events: seq<Event>)
    requires NextDue(tasks, p, q, now, zone)
    ensures var (t, ok) := Incremented(tasks[p]);
            Resumed(front, events, Tick(tasks[p..], now, zone)) ==
              if ok
              then Resumed(front + [t] + tasks[p + 1..q], events + [Fired(tasks[p], now)], Tick(tasks[q..], now, zone))
              else TickResult(front + [t] + tasks[p + 1..], events, false)
  {
    assert tasks[p..] == [tasks[p]] + tasks[p + 1..];
    if Incremented(tasks[p]).1 {
      TickSkips(tasks, p + 1, q, now, zone);
      TickDueThen(tasks[p], tasks[p + 1..], tasks[p + 1..q], tasks[q..], now, zone, front, events);
    } else {
      TickEnds(tasks[p], tasks[p + 1..], now, zone, front, events);
    }
  }

  lemma TickDueThen(t: Task, rest: seq<Task>, idle: seq<Task>, tail: seq<Task>, now: Moment, zone: Zone,
                    front: seq<Task>, events: seq<Event>)
    requires IsDue(t, now, zone) && Incremented(t).1
    requires Tick(rest, now, zone) == Resumed(idle, [], Tick(tail, now, zone))
    ensures Resumed(front, events, Tick([t] + rest, now, zone)) ==
            Resumed(front + [Incremented(t).0] + idle, events + [Fired(t, now)], Tick(tail, now, zone))
  {
    var t', e, r := Incremented(t).0, Fired(t, now), Tick(tail, now, zone);
    TickFirst(t, rest, now, zone);
    ResumedSum([t'], [e], idle, [], r);
    ResumedSum(front, events, [t'] + idle, [e] + [], r);
    assert front + ([t'] + idle) == front + [t'] + idle;
    assert [e] + [] == [e];
  }

  lemma TickEnds(t: Task, rest: seq<Task>, now: Moment, zone: Zone, front: seq<Task>, events: seq<Event>)
    requires IsDue(t, now, zone) && !Incremented(t).1
    ensures Resumed(front, events, Tick([t] + rest, now, zone)) ==
            TickResult(front + [Incremented(t).0] + rest, events, false)
  {
    var t' := Incremented(t).0;
    TickFirst(t, rest, now, zone);
    assert front + ([t'] + rest) == front + [t'] + rest;
    assert events + [] == events;
  }

  /** The tick of the tasks as they were is the one done up to position p, with what a tick does from there on. */
  ghost predicate TickedUpTo(before: seq<Task>, current: seq<Task>, events: seq<Event>, p: nat, now: Moment,
                             zone: Zone) {
    && |current| == |before| && p <= |before| && (forall i | p <= i < |before| :: current[i] == before[i])
    && Tick(before, now, zone) == Resumed(current[..p], events, Tick(before[p..], now, zone))
  }

  /** The message of a due task that was incremented. */
  function Fired(t: Task, now: Moment): Event {
    Event(t.uid, t.item, t.next, now)
  }

  /** A due task is one more step, either to the next due task or to the end of the tick. */
  lemma TickedOneMore(before: seq<Task>, current: seq<Task>, current': seq<Task>, p: nat, q: nat,
                      events: seq<Event>, now: Moment, zone: Zone)
    requires NextDue(before, p, q, now, zone) && TickedUpTo(before, current, events, p, now, zone)
    requires current' == current[p := Incremented(current[p]).0]
    ensures current[p] == before[p]
    ensures if Incremented(before[p]).1
            then TickedUpTo(before, current', events + [Fired(before[p], now)], q, now, zone)
            else Tick(before, now, zone) == TickResult(current', events, false)
  {
    assert current[p..] == before[p..];
    TickFromTo(before, p, q, now, zone, current[..p], events);
    Spliced(before, current, Incremented(before[p]).0, p, q);
  }

  /** A list whose element at p is replaced, where it had the tail of another from p on. */
  lemma Spliced(before: seq<Task>, current: seq<Task>, t: Task, p: nat, q: nat)
    requires |current| == |before| && p < q <= |before| && current[p..] == before[p..]
    ensures var current' := current[p := t];
            && current'[q..] == before[q..] && current'[..q] == current[..p] + [t] + before[p + 1..q]
            && current' == current[..p] + [t] + before[p + 1..]
  {
    var current' := current[p := t];
    SameTail(before, current, current', p, q);
    assert current'[..q] == current[..p] + [t] + before[p + 1..q];
    assert current' == current[..p] + [t] + before[p + 1..];
  }

  lemma SameTail(before: seq<Task>, current: seq<Task>, current': seq<Task>, p: nat, q: nat)
    requires |current| == |before| == |current'| && p < q <= |before| && current[p..] == before[p..]
    requires forall i | p < i < |before| :: current'[i] == current[i]
    ensures current'[q..] == before[q..]
    ensures forall i | p < i < |before| :: current'[i] == before[i]
  {
    forall i | p < i < |before| ensures current'[i] == before[i] {
      assert current[p..][i - p] == before[p..][i - p];
    }
  }

  lemma EverythingTicked(before: seq<Task>, current: seq<Task>, events: seq<Event>, now: Moment, zone: Zone)
    requires TickedUpTo(before, current, events, |before|, now, zone)
    ensures Tick(before, now, zone) == TickResult(current, events, true)
  {
    assert before[|before|..] == [];
    assert current[..|before|] + [] == current && events + [] == events;
  }

  // ----- What a tick does in all

  /** The due tasks, in order. */
  function Due(tasks: seq<Task>, now: Moment, zone: Zone): seq<Task> {
    if tasks == [] then []
    else if IsDue(tasks[0], now, zone) then [tasks[0]] + Due(tasks[1..], now, zone)
    else Due(tasks[1..], now, zone)
  }

  function Messages(due: seq<Task>, now: Moment): (r: seq<Event>)
    ensures |r| == |due| && forall k | 0 <= k < |due| :: r[k] == Fired(due[k], now)
  {
    seq(|due|, k requires 0 <= k < |due| => Fired(due[k], now))
  }

  /** A task after a tick that got as far as it. */
  function After(t: Task, now: Moment, zone: Zone): Task {
    if IsDue(t, now, zone) then Incremented(t).0 else t
  }

  /** The due tasks below stop are published in their order and incremented; the task at stop, if there is one, is
      due and has no next run: its last run is moved on, it is not published, and the tasks after it are left alone. */
  ghost predicate StopsAt(tasks: seq<Task>, r: TickResult, stop: nat, now: Moment, zone: Zone) {
    && stop <= |tasks| == |r.tasks| && r.ok == (stop == |tasks|)
    && (stop < |tasks| ==> IsDue(tasks[stop], now, zone) && !Incremented(tasks[stop]).1)
    && (forall i | 0 <= i < stop && IsDue(tasks[i], now, zone) :: Incremented(tasks[i]).1)
    && AfterUpTo(tasks, r.tasks, stop, now, zone)
    && r.events == MessagesBelow(tasks, stop, now, zone)
  }

  ghost predicate AfterUpTo(tasks: seq<Task>, after: seq<Task>, stop: nat, now: Moment, zone: Zone) {
    && |after| == |tasks|
    && forall i | 0 <= i < |tasks| :: after[i] == if i <= stop then After(tasks[i], now, zone) else tasks[i]
  }

  /** The messages of the due tasks below stop, in order. */
  function MessagesBelow(tasks: seq<Task>, stop: nat, now: Moment, zone: Zone): seq<Event>
    requires stop <= |tasks|
  {
    Messages(Due(tasks[..stop], now, zone), now)
  }

  /** A tick stops at the first due task that has no next run, or has treated all. */
  lemma {:induction false} TickIs(tasks: seq<Task>, now: Moment, zone: Zone) returns (stop: nat)
    ensures StopsAt(tasks, Tick(tasks, now, zone), stop, now, zone)
    decreases |tasks|
  {
    if tasks == [] {
      stop := 0;
    } else {
      var t, rest := tasks[0], tasks[1..];
      assert tasks == [t] + rest;
      if IsDue(t, now, zone) && !Incremented(t).1 {
        stop := 0;
        TickFirst(t, rest, now, zone);
        StopsAtFirst(t, rest, now, zone);
      } else {
        var end := TickIs(rest, now, zone);
        stop := end + 1;
        TickGoesOn(t, rest, now, zone);
        StopsOneLater(t, rest, Tick(rest, now, zone), end, now, zone);
      }
    }
  }

  lemma StopsAtFirst(t: Task, rest: seq<Task>, now: Moment, zone: Zone)
    requires IsDue(t, now, zone) && !Incremented(t).1
    ensures StopsAt([t] + rest, TickResult([Incremented(t).0] + rest, [], false), 0, now, zone)
  {
    assert MessagesBelow([t] + rest, 0, now, zone) == [];
  }

  function FirstMessage(t: Task, now: Moment, zone: Zone): seq<Event> {
    if IsDue(t, now, zone) then [Fired(t, now)] else []
  }

  lemma TickGoesOn(t: Task, rest: seq<Task>, now: Moment, zone: Zone)
    requires IsDue(t, now, zone) ==> Incremented(t).1
    ensures Tick([t] + rest, now, zone) ==
            Resumed([After(t, now, zone)], FirstMessage(t, now, zone), Tick(rest, now, zone))
  {
    TickFirst(t, rest, now, zone);
  }

  lemma StopsOneLater(t: Task, rest: seq<Task>, r: TickResult, end: nat, now: Moment, zone: Zone)
    requires StopsAt(rest, r, end, now, zone) && (IsDue(t, now, zone) ==> Incremented(t).1)
    ensures StopsAt([t] + rest, Resumed([After(t, now, zone)], FirstMessage(t, now, zone), r), end + 1, now, zone)
  {
    MessagesOneLater(t, rest, end, now, zone);
    AfterOneLater(t, rest, r.tasks, end, now, zone);
    var tasks := [t] + rest;
    assert forall i | 1 <= i < |tasks| :: tasks[i] == rest[i - 1];
  }

  lemma AfterOneLater(t: Task, rest: seq<Task>, after: seq<Task>, end: nat, now: Moment, zone: Zone)
    requires AfterUpTo(rest, after, end, now, zone)
    ensures AfterUpTo([t] + rest, [After(t, now, zone)] + after, end + 1, now, zone)
  {
  }

  lemma MessagesOneLater(t: Task, rest: seq<Task>, end: nat, now: Moment, zone: Zone)
    requires end <= |rest|
    ensures MessagesBelow([t] + rest, end + 1, now, zone) ==
            FirstMessage(t, now, zone) + MessagesBelow(rest, end, now, zone)
  {
    assert ([t] + rest)[..end + 1] == [t] + rest[..end];
    DueFirst(t, rest[..end], now, zone);
  }

  lemma DueFirst(t: Task, rest: seq<Task>, now: Moment, zone: Zone)
    ensures Messages(Due([t] + rest, now, zone), now) ==
            FirstMessage(t, now, zone) + Messages(Due(rest, now, zone), now)
  {
    assert ([t] + rest)[1..] == rest;
    if IsDue(t, now, zone) {
      MessageFirst(t, Due(rest, now, zone), now);
    } else {
      assert [] + Messages(Due(rest, now, zone), now) == Messages(Due(rest, now, zone), now);
    }
  }

  lemma MessageFirst(t: Task, due: seq<Task>, now: Moment)
    ensures Messages([t] + due, now) == [Fired(t, now)] + Messages(due, now)
  {
  }
}
