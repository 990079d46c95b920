/** Timed runs of the watcher in which every reconnect fails soon, whatever else happens: the backoff keeps growing. */
module BackoffRuns {
  import opened Wrappers
  import opened WatcherModel

  const FAILS_WITHIN := 27_000

  datatype Timed = Timed(time: int, event: Event)

  function RunTimed(s: State, run: seq<Timed>): State
    decreases |run|
  {
    if run == [] then s else RunTimed(Do(s, run[0].event), run[1..])
  }

  /** An exception that is not a closed connection: the only event that touches the counter and the retry timer. */
  predicate IsFailure(e: Event) {
    e.OnException? && !e.io
  }

  function FailureCount(run: seq<Timed>): nat {
    if run == [] then 0 else (if IsFailure(run[0].event) then 1 else 0) + FailureCount(run[1..])
  }

  /** Each delay lies in the second that starts at the capped power of two. */
  lemma BackoffBounds(n: nat, jitter: int)
    requires 0 <= jitter < 1000
    ensures Min(Pow2(n), 32) * 1000 <= Backoff(n, jitter) < (Min(Pow2(n), 32) + 1) * 1000
    ensures 1000 <= Backoff(n, jitter) < 33_000
    ensures n >= 5 ==> Backoff(n, jitter) >= 32_000
  {
    PowerGrows(n);
  }

  lemma {:induction false} PowerGrows(n: nat)
    ensures Pow2(n) >= 1 && (n >= 5 ==> Pow2(n) >= 32)
  {
    if n > 0 {
      PowerGrows(n - 1);
      assert n == 5 ==> Pow2(4) == 16;
    }
  }

  /** Before the first failure, between a failure and the retry, and after the retry until the next failure. */
  datatype Phase = First | Waiting | Connecting(since: int)

  /** A run of the watcher that is not stopped: no timer is overdue when something else happens, timers fire when
      they are due, and each retry is followed within 27 s by an exception that is not a closed connection. Starts,
      closed connections and changes of Watching come at any time between. */
  ghost predicate Reconnecting(s: State, run: seq<Timed>, clock: int, phase: Phase)
    decreases |run|
  {
    run != [] ==>
      var t, e, rest := run[0].time, run[0].event, run[1..];
      && clock <= t
      && (s.resetAt.Some? ==> t <= s.resetAt.value)
      && (s.retryAt.Some? ==> t <= s.retryAt.value)
      && (phase.Connecting? ==> t <= phase.since + FAILS_WITHIN)
      && !e.Stop? && !e.Dispose?
      && (e.ResetFires? ==> s.resetAt == Some(t))
      && (e.RetryFires? ==> s.retryAt == Some(t))
      && (IsFailure(e) ==> e.now == t && 0 <= e.jitter < 1000)
      && Reconnecting(Do(s, e), rest, t, NextPhase(phase, run[0]))
  }

  /** The reset timer is at least 27 s after the end of any delay, so it never comes first. */
  ghost predicate ResetIsLater(s: State, phase: Phase) {
    && !s.closed && (s.cancellation.Some? ==> !s.cancellation.value.disposed)
    && match phase
       case First => s.resetAt.None? && s.retryAt.None?
       case Waiting => s.retryAt.Some? && s.resetAt.Some? && s.retryAt.value + FAILS_WITHIN < s.resetAt.value
       case Connecting(since) => s.retryAt.None? && s.resetAt.Some? && since + FAILS_WITHIN < s.resetAt.value
  }

  function NextPhase(phase: Phase, e: Timed): Phase {
    if IsFailure(e.event) then Waiting else if e.event.RetryFires? then Connecting(e.time) else phase
  }

  /** No event but a failure, a retry, a reset or a stop touches the counter, the timers or the handler. */
  lemma OtherEventsLeaveTimers(s: State, e: Event)
    requires !IsFailure(e) && !e.RetryFires? && !e.ResetFires? && !e.Stop? && !e.Dispose?
    requires s.cancellation.Some? ==> !s.cancellation.value.disposed
    ensures var s' := Do(s, e);
            && s'.attempts == s.attempts && s'.retryAt == s.retryAt && s'.resetAt == s.resetAt && s'.closed == s.closed
            && (s'.cancellation.Some? ==> !s'.cancellation.value.disposed)
  {
  }

  lemma ReconnectingStep(s: State, run: seq<Timed>, clock: int, phase: Phase)
    requires run != [] && Reconnecting(s, run, clock, phase) && ResetIsLater(s, phase)
    ensures var s', e := Do(s, run[0].event), run[0];
            && !e.event.ResetFires?
            && Reconnecting(s', run[1..], e.time, NextPhase(phase, e)) && ResetIsLater(s', NextPhase(phase, e))
            && s'.attempts == s.attempts + (if IsFailure(e.event) then 1 else 0)
            && (IsFailure(e.event) ==> s'.retryAt == Some(e.time + Backoff(s.attempts + 1, e.event.jitter)))
  {
    var e := run[0].event;
    if IsFailure(e) {
      BackoffBounds(s.attempts + 1, e.jitter);
    } else if !e.RetryFires? && !e.ResetFires? {
      OtherEventsLeaveTimers(s, e);
    }
  }

  /** In such a run the counter is never reset, so it counts the failures. */
  lemma {:induction false} CounterIsNeverReset(s: State, run: seq<Timed>, clock: int, phase: Phase)
    requires Reconnecting(s, run, clock, phase) && ResetIsLater(s, phase)
    ensures forall e <- run :: !e.event.ResetFires?
    ensures RunTimed(s, run).attempts == s.attempts + FailureCount(run)
    decreases |run|
  {
    if run != [] {
      ReconnectingStep(s, run, clock, phase);
      CounterIsNeverReset(Do(s, run[0].event), run[1..], run[0].time, NextPhase(phase, run[0]));
      assert run == [run[0]] + run[1..];
    }
  }

  /** The n-th consecutive failure waits with exponent n. */
  lemma {:induction false} NthFailureUsesNthBackoff(s: State, run: seq<Timed>, clock: int, phase: Phase, i: nat)
    requires Reconnecting(s, run, clock, phase) && ResetIsLater(s, phase)
    requires i < |run| && IsFailure(run[i].event)
    ensures RunTimed(s, run[..i + 1]).retryAt ==
            Some(run[i].time + Backoff(s.attempts + FailureCount(run[..i + 1]), run[i].event.jitter))
    decreases i
  {
    ReconnectingStep(s, run, clock, phase);
    assert run[..i + 1][1..] == run[1..][..i];
    if i > 0 {
      NthFailureUsesNthBackoff(Do(s, run[0].event), run[1..], run[0].time, NextPhase(phase, run[0]), i - 1);
    }
  }

  /** From the start: the n-th failure in a row waits for between 2^n, capped at 32, and one more second. */
  lemma ConsecutiveFailures(s: State, run: seq<Timed>, clock: int, i: nat)
    requires s.attempts == 0 && Reconnecting(s, run, clock, First) && ResetIsLater(s, First)
    requires i < |run| && IsFailure(run[i].event)
    ensures var n := FailureCount(run[..i + 1]);
            var retryAt := RunTimed(s, run[..i + 1]).retryAt;
            && retryAt.Some?
            && Min(Pow2(n), 32) * 1000 <= retryAt.value - run[i].time < (Min(Pow2(n), 32) + 1) * 1000
  {
    NthFailureUsesNthBackoff(s, run, clock, First, i);
    JitterInRange(s, run, clock, First, i);
    BackoffBounds(FailureCount(run[..i + 1]), run[i].event.jitter);
  }

  lemma {:induction false} JitterInRange(s: State, run: seq<Timed>, clock: int, phase: Phase, i: nat)
    requires Reconnecting(s, run, clock, phase) && i < |run| && IsFailure(run[i].event)
    ensures 0 <= run[i].event.jitter < 1000
    decreases i
  {
    if i > 0 {
      JitterInRange(Do(s, run[0].event), run[1..], run[0].time, NextPhase(phase, run[0]), i - 1);
    }
  }

  /** The delays in milliseconds: 2, 4, 8 and 16 seconds, then always 32, and a random part below a second. */
  lemma DelayTable(n: nat, jitter: int)
    ensures Backoff(0, jitter) == 1_000 + jitter && Backoff(1, jitter) == 2_000 + jitter
    ensures Backoff(2, jitter) == 4_000 + jitter && Backoff(3, jitter) == 8_000 + jitter
    ensures Backoff(4, jitter) == 16_000 + jitter
    ensures n >= 5 ==> Backoff(n, jitter) == 32_000 + jitter
  {
    PowerGrows(n);
    assert Pow2(1) == 2 && Pow2(2) == 4 && Pow2(3) == 8 && Pow2(4) == 16;
  }

  // ----- The counter is reset after a quiet minute

  /** A run without failures and stops in which the reset timer is not overdue when something else happens, and fires
      only when it is due. */
  ghost predicate Uneventful(s: State, run: seq<Timed>, clock: int)
    decreases |run|
  {
    run != [] ==>
      var t, e := run[0].time, run[0].event;
      && clock <= t && (s.resetAt.Some? ==> t <= s.resetAt.value)
      && !IsFailure(e) && !e.Stop? && !e.Dispose? && (e.ResetFires? ==> s.resetAt == Some(t))
      && Uneventful(Do(s, e), run[1..], t)
  }

  /** The reset timer is pending for the given time, or has fired. */
  predicate ResetPending(s: State, n: nat, due: int) {
    if s.resetAt.Some? then s.resetAt.value == due && s.attempts == n else s.attempts == 0
  }

  lemma UneventfulStep(s: State, e: Event, n: nat, due: int)
    requires ResetPending(s, n, due) && (s.cancellation.Some? ==> !s.cancellation.value.disposed)
    requires !IsFailure(e) && !e.Stop? && !e.Dispose?
    ensures var s' := Do(s, e);
            && ResetPending(s', n, due) && (s'.cancellation.Some? ==> !s'.cancellation.value.disposed)
            && s'.closed == s.closed && (s.resetAt.None? ==> s'.resetAt.None?)
  {
    if !e.RetryFires? && !e.ResetFires? {
      OtherEventsLeaveTimers(s, e);
    }
  }

  /** In a quiet run the counter stays as it is until the reset timer is due, and is 0 as soon as anything happens
      after that. */
  lemma {:induction false} QuietMinuteResets(s: State, run: seq<Timed>, clock: int, n: nat, due: int)
    requires Uneventful(s, run, clock) && ResetPending(s, n, due)
    requires s.cancellation.Some? ==> !s.cancellation.value.disposed
    ensures var s' := RunTimed(s, run);
            && ResetPending(s', n, due) && s'.closed == s.closed
            && (s'.cancellation.Some? ==> !s'.cancellation.value.disposed)
    ensures run != [] && run[|run| - 1].time > due ==> RunTimed(s, run).attempts == 0
    decreases |run|
  {
    if run != [] {
      UneventfulStep(s, run[0].event, n, due);
      QuietMinuteResets(Do(s, run[0].event), run[1..], run[0].time, n, due);
      if |run| == 1 {
        assert run[0] == run[|run| - 1];
      } else {
        assert run[1..][|run[1..]| - 1] == run[|run| - 1];
      }
    }
  }

  /** More than a minute after a failure, if no other follows, the counter is back at 0. */
  lemma MinuteAfterFailure(s: State, now: int, jitter: int, answer: Answer, run: seq<Timed>)
    requires !s.closed && (s.cancellation.Some? ==> !s.cancellation.value.disposed)
    requires Uneventful(Do(s, OnException(false, now, jitter, answer)), run, now)
    requires run != [] && run[|run| - 1].time > now + 60_000
    ensures var end := RunTimed(Do(s, OnException(false, now, jitter, answer)), run);
            end.attempts == 0 && !end.closed && (end.cancellation.Some? ==> !end.cancellation.value.disposed)
  {
    QuietMinuteResets(Do(s, OnException(false, now, jitter, answer)), run, now, s.attempts + 1, now + 60_000);
  }

  /** The next failure then counts as the first again: it is retried after two seconds and less than one more. */
  lemma FirstFailureAgain(s: State, now: int, jitter: int, answer: Answer)
    requires s.attempts == 0 && !s.closed && (s.cancellation.Some? ==> !s.cancellation.value.disposed)
    ensures var s' := Do(s, OnException(false, now, jitter, answer));
            s'.retryAt == Some(now + 2_000 + jitter) && s'.resetAt == Some(now + 60_000) && s'.attempts == 1
  {
    DelayTable(1, jitter);
  }
}
