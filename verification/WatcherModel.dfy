/** The reconnecting resource watcher as a state machine: every callback is one atomic step, and callbacks
    arrive in any order. Times are in milliseconds. */
module WatcherModel {
  import opened Wrappers

  const RESET_AFTER := 60_000

  /** A watcher handed out by the client, and whether it is still connected. */
  datatype Watch = Watch(disposed: bool, watching: bool)

  datatype Token = Token(cancelled: bool, disposed: bool)

  /** created lists every watcher ever created; current is the one in the watcher field; closed says that the
      reconnect handler and its subscription are disposed; retryAt and resetAt are the pending timers. */
  datatype State = State(created: seq<Watch>, current: Option<nat>, cancellation: Option<Token>, running: nat,
                         attempts: nat, resetAt: Option<int>, retryAt: Option<int>, closed: bool)

  const INITIAL := State([], None, None, 0, 0, None, None, false)

  /** What the client answers to a request for a watcher: an exception, or one that is connected or not yet. */
  type Answer = Option<bool>

  datatype Event =
    | Start(answer: Answer)
    | Stop
    | Dispose
    | OnClose(answer: Answer)
    | OnException(io: bool, now: int, jitter: int, answer: Answer)
    | RetryFires(answer: Answer)
    | ResetFires
    | WatchingChanges(id: nat, watching: bool)

  // ----- Backoff

  function Pow2(n: nat): nat {
    if n == 0 then 1 else 2 * Pow2(n - 1)
  }

  function Min(a: int, b: int): int {
    if a < b then a else b
  }

  /** The backoff of the n-th attempt, with a random part below a second. */
  function Backoff(n: nat, jitter: int): int {
    Min(Pow2(n), 32) * 1000 + jitter
  }

  // ----- Steps

  /** Disposes the watcher in the field, if there is one. */
  function DisposeCurrent(s: State): (s': State)
    ensures |s'.created| == |s.created|
  {
    if s.current.Some? && s.current.value < |s.created|
    then s.(created := s.created[s.current.value := s.created[s.current.value].(disposed := true)])
    else s
  }

  function CancelToken(s: State): State {
    if s.cancellation.Some? then s.(cancellation := Some(s.cancellation.value.(cancelled := true))) else s
  }

  /** A new cancellation source, and a new watcher if the client does not throw. */
  function Watched(s: State, answer: Answer): State {
    var s' := s.(cancellation := Some(Token(false, false)));
    match answer
    case None => s'
    case Some(watching) =>
      s'.(created := s.created + [Watch(false, watching)], current := Some(|s.created|), running := 1)
  }

  /** WatchResource: a watcher that is still watching is left alone; one that is not is replaced. */
  function WatchResource(s: State, answer: Answer): State {
    if s.current.Some? && s.current.value < |s.created| then
      if s.created[s.current.value].watching then s else Watched(DisposeCurrent(s), answer)
    else Watched(s, answer)
  }

  /** Stop and Dispose. */
  function Disposing(s: State): State {
    var s' := DisposeCurrent(s);
    s'.(closed := true, retryAt := None, running := 0,
        cancellation := if s.cancellation.Some? then Some(Token(true, true)) else None)
  }

  function Restarted(s: State, answer: Answer): State {
    WatchResource(DisposeCurrent(CancelToken(s)).(current := None), answer)
  }

  function Closed(s: State, answer: Answer): State {
    var s' := s.(running := 0);
    if s.cancellation.Some? && !s.cancellation.value.cancelled then Restarted(s', answer) else s'
  }

  /** Cancelling a disposed source throws, before anything else happens; so does handing a delay to a disposed
      reconnect handler, after the reset timer was set. */
  function Failed(s: State, io: bool, now: int, jitter: int, answer: Answer): State {
    if s.cancellation.Some? && s.cancellation.value.disposed then s
    else
      var s' := DisposeCurrent(CancelToken(s)).(current := None, running := 0);
      if io then WatchResource(s', answer)
      else
        s'.(attempts := s.attempts + 1, resetAt := Some(now + RESET_AFTER),
            retryAt := if s.closed then s.retryAt else Some(now + Backoff(s.attempts + 1, jitter)))
  }

  function Do(s: State, e: Event): State {
    match e
    case Start(answer) => WatchResource(s, answer)
    case Stop => Disposing(s)
    case Dispose => Disposing(s)
    case OnClose(answer) => Closed(s, answer)
    case OnException(io, now, jitter, answer) => Failed(s, io, now, jitter, answer)
    case RetryFires(answer) => if s.retryAt.Some? then WatchResource(s.(retryAt := None), answer) else s
    case ResetFires => if s.resetAt.Some? then s.(attempts := 0, resetAt := None) else s
    case WatchingChanges(id, watching) =>
      if id < |s.created| then s.(created := s.created[id := s.created[id].(watching := watching)]) else s
  }

  function Run(s: State, events: seq<Event>): State
    decreases |events|
  {
    if events == [] then s else Run(Do(s, events[0]), events[1..])
  }

  lemma {:induction false} RunSum(s: State, a: seq<Event>, b: seq<Event>)
    ensures Run(s, a + b) == Run(Run(s, a), b)
    decreases |a|
  {
    if a == [] {
      assert a + b == b;
    } else {
      assert (a + b)[1..] == a[1..] + b;
      RunSum(Do(s, a[0]), a[1..], b);
    }
  }

  // ----- Safety

  predicate Live(s: State) {
    s.current.Some? && s.current.value < |s.created| && !s.created[s.current.value].disposed
  }

  /** At most one created watcher is undisposed, and it is the one in the field; it has an active cancellation
      source, and the gauge counts it. */
  ghost predicate Safe(s: State) {
    && (forall i | 0 <= i < |s.created| :: !s.created[i].disposed ==> s.current == Some(i))
    && (s.current.Some? ==> s.current.value < |s.created| && s.cancellation.Some?)
    && (Live(s) ==> s.running == 1 && s.cancellation == Some(Token(false, false)))
    && (s.cancellation.Some? && s.cancellation.value.disposed ==> s.cancellation.value.cancelled && s.closed)
    && (s.retryAt.Some? ==> !s.closed)
    && s.running <= 1
  }

  ghost predicate AllDisposed(s: State) {
    forall i | 0 <= i < |s.created| :: s.created[i].disposed
  }

  lemma DisposedCurrentIsTheLast(s: State)
    requires Safe(s)
    ensures AllDisposed(DisposeCurrent(s))
  {
  }

  lemma WatchedIsSafe(s: State, answer: Answer)
    requires AllDisposed(s) && s.running <= 1 && (s.retryAt.Some? ==> !s.closed)
    requires s.current.Some? ==> s.current.value < |s.created|
    ensures Safe(Watched(s, answer))
  {
  }

  lemma WatchResourceIsSafe(s: State, answer: Answer)
    requires Safe(s)
    ensures Safe(WatchResource(s, answer))
  {
    if s.current.Some? {
      if !s.created[s.current.value].watching {
        DisposedCurrentIsTheLast(s);
        WatchedIsSafe(DisposeCurrent(s), answer);
      }
    } else {
      WatchedIsSafe(s, answer);
    }
  }

  lemma FailedIsSafe(s: State, io: bool, now: int, jitter: int, answer: Answer)
    requires Safe(s)
    ensures Safe(Failed(s, io, now, jitter, answer))
  {
    var s' := DisposeCurrent(CancelToken(s)).(current := None, running := 0);
    DisposedCurrentIsTheLast(s);
    if io {
      WatchedIsSafe(s', answer);
    }
  }

  lemma ClosedIsSafe(s: State, answer: Answer)
    requires Safe(s)
    ensures Safe(Closed(s, answer))
  {
    DisposedCurrentIsTheLast(s);
    if s.cancellation.Some? && !s.cancellation.value.cancelled {
      WatchedIsSafe(DisposeCurrent(CancelToken(s.(running := 0))).(current := None), answer);
    }
  }

  lemma SafeStep(s: State, e: Event)
    requires Safe(s)
    ensures Safe(Do(s, e))
  {
    match e {
      case Start(answer) => WatchResourceIsSafe(s, answer);
      case Stop => DisposedCurrentIsTheLast(s);
      case Dispose => DisposedCurrentIsTheLast(s);
      case OnClose(answer) => ClosedIsSafe(s, answer);
      case OnException(io, now, jitter, answer) => FailedIsSafe(s, io, now, jitter, answer);
      case RetryFires(answer) =>
        if s.retryAt.Some? {
          WatchResourceIsSafe(s.(retryAt := None), answer);
        }
      case ResetFires =>
      case WatchingChanges(_, _) =>
    }
  }

  lemma {:induction false} SafeRun(s: State, events: seq<Event>)
    requires Safe(s)
    ensures Safe(Run(s, events))
    decreases |events|
  {
    if events != [] {
      SafeStep(s, events[0]);
      SafeRun(Do(s, events[0]), events[1..]);
    }
  }

  /** Under any interleaving of steps, two undisposed watchers are one, and it is in the field. */
  lemma AtMostOneWatcher(events: seq<Event>)
    ensures var s := Run(INITIAL, events);
            forall i, j | 0 <= i < |s.created| && 0 <= j < |s.created| ::
              !s.created[i].disposed && !s.created[j].disposed ==> i == j && s.current == Some(i) && s.running == 1
  {
    SafeRun(INITIAL, events);
  }

  // ----- The gauge

  /** The gauge is 1 exactly when an undisposed watcher exists. */
  predicate GaugeExact(s: State) {
    s.running == if Live(s) then 1 else 0
  }

  /** A request that throws, made to replace a live watcher that stopped watching, when none of its own
      callbacks has arrived yet. */
  predicate FailsToReplace(s: State, e: Event) {
    && (e == Start(None) || (e == RetryFires(None) && s.retryAt.Some?))
    && Live(s) && !s.created[s.current.value].watching
  }

  /** A step keeps the gauge exact if and only if it is not such a request. */
  lemma GaugeStep(s: State, e: Event)
    requires Safe(s) && GaugeExact(s)
    ensures GaugeExact(Do(s, e)) <==> !FailsToReplace(s, e)
  {
    match e {
      case Start(answer) => RequestGauge(s, answer);
      case RetryFires(answer) =>
        if s.retryAt.Some? {
          RequestGauge(s.(retryAt := None), answer);
        }
      case Stop => DisposedCurrentIsTheLast(s);
      case Dispose => DisposedCurrentIsTheLast(s);
      case OnClose(answer) => ClosedGauge(s, answer);
      case OnException(io, now, jitter, answer) => FailedGauge(s, io, now, jitter, answer);
      case ResetFires =>
      case WatchingChanges(_, _) =>
    }
  }

  /** With no live watcher left, a request leaves a gauge of 0 exact, whatever its answer. */
  lemma WatchedGauge(s: State, answer: Answer)
    requires AllDisposed(s) && (s.current.Some? ==> s.current.value < |s.created|)
    ensures GaugeExact(Watched(s, answer)) <==> answer.Some? || s.running == 0
  {
  }

  lemma RequestGauge(s: State, answer: Answer)
    requires Safe(s) && GaugeExact(s)
    ensures GaugeExact(WatchResource(s, answer)) <==>
            !(answer.None? && Live(s) && !s.created[s.current.value].watching)
  {
    if s.current.Some? && !s.created[s.current.value].watching {
      DisposedCurrentIsTheLast(s);
      WatchedGauge(DisposeCurrent(s), answer);
    } else if s.current.None? {
      WatchedGauge(s, answer);
    }
  }

  lemma ClosedGauge(s: State, answer: Answer)
    requires Safe(s) && GaugeExact(s)
    ensures GaugeExact(Closed(s, answer))
  {
    DisposedCurrentIsTheLast(s);
    if s.cancellation.Some? && !s.cancellation.value.cancelled {
      WatchedGauge(DisposeCurrent(CancelToken(s.(running := 0))).(current := None), answer);
    }
  }

  lemma FailedGauge(s: State, io: bool, now: int, jitter: int, answer: Answer)
    requires Safe(s) && GaugeExact(s)
    ensures GaugeExact(Failed(s, io, now, jitter, answer))
  {
    DisposedCurrentIsTheLast(s);
    if io {
      WatchedGauge(DisposeCurrent(CancelToken(s)).(current := None, running := 0), answer);
    }
  }

  /** The gauge can be wrong: a watcher is started that is not yet connected, and a second start throws. */
  lemma GaugeCanBeWrong()
    ensures var s := Run(INITIAL, [Start(Some(false)), Start(None)]); s.running == 1 && !Live(s)
  {
    var first, second := Start(Some(false)), Start(None);
    assert [first, second] == [first] + [second];
    RunSum(INITIAL, [first], [second]);
    assert Run(INITIAL, [first]) == Do(INITIAL, first);
    assert Run(Do(INITIAL, first), [second]) == Do(Do(INITIAL, first), second);
  }

  ghost predicate NeverFailsToReplace(s: State, events: seq<Event>)
    decreases |events|
  {
    events != [] ==> !FailsToReplace(s, events[0]) && NeverFailsToReplace(Do(s, events[0]), events[1..])
  }

  /** The gauge is exact in the state and after every event. */
  ghost predicate AlwaysExact(s: State, events: seq<Event>) {
    forall n | 0 <= n <= |events| :: GaugeExact(Run(s, events[..n]))
  }

  /** The gauge is exact all through a run if and only if no request in it fails to replace a live watcher. */
  lemma {:induction false} GaugeRun(s: State, events: seq<Event>)
    requires Safe(s) && GaugeExact(s)
    ensures AlwaysExact(s, events) <==> NeverFailsToReplace(s, events)
    decreases |events|
  {
    if events != [] {
      SafeStep(s, events[0]);
      GaugeStep(s, events[0]);
      AlwaysExactSplits(s, events);
      if GaugeExact(Do(s, events[0])) {
        GaugeRun(Do(s, events[0]), events[1..]);
      }
    }
  }

  lemma AlwaysExactSplits(s: State, events: seq<Event>)
    requires events != [] && GaugeExact(s)
    ensures AlwaysExact(s, events) <==> AlwaysExact(Do(s, events[0]), events[1..])
    ensures AlwaysExact(s, events) ==> GaugeExact(Do(s, events[0]))
  {
    var s' := Do(s, events[0]);
    forall n | 1 <= n <= |events| ensures Run(s, events[..n]) == Run(s', events[1..][..n - 1]) {
      assert events[..n][1..] == events[1..][..n - 1];
    }
    if AlwaysExact(s', events[1..]) {
      forall n | 0 <= n <= |events| ensures GaugeExact(Run(s, events[..n])) {
        assert n > 0 ==> GaugeExact(Run(s', events[1..][..n - 1]));
      }
    }
    if AlwaysExact(s, events) {
      forall n | 0 <= n <= |events| - 1 ensures GaugeExact(Run(s', events[1..][..n])) {
        assert GaugeExact(Run(s, events[..n + 1]));
      }
      assert GaugeExact(Run(s', events[1..][..0]));
    }
  }

  // ----- Quiescence

  /** After a stop that followed a start. */
  ghost predicate Quiet(s: State) {
    s.cancellation == Some(Token(true, true)) && s.closed && s.retryAt.None? && forall w <- s.created :: w.disposed
  }

  lemma {:induction false} StartedStays(s: State, events: seq<Event>)
    requires Safe(s) && (s.cancellation.Some? || exists e <- events :: e.Start?)
    ensures Run(s, events).cancellation.Some?
    decreases |events|
  {
    if events != [] {
      SafeStep(s, events[0]);
      assert forall e <- events :: e == events[0] || e in events[1..];
      StartedStays(Do(s, events[0]), events[1..]);
    }
  }

  lemma {:induction false} QuietRun(s: State, events: seq<Event>)
    requires Safe(s) && Quiet(s) && forall e <- events :: !e.Start?
    ensures Quiet(Run(s, events)) && |Run(s, events).created| == |s.created|
    decreases |events|
  {
    if events != [] {
      assert events[0] in events;
      SafeStep(s, events[0]);
      QuietStep(s, events[0]);
      QuietRun(Do(s, events[0]), events[1..]);
    }
  }

  lemma QuietStep(s: State, e: Event)
    requires Safe(s) && Quiet(s) && !e.Start?
    ensures Quiet(Do(s, e)) && |Do(s, e).created| == |s.created|
  {
    var s' := Do(s, e);
    forall w <- s'.created ensures w.disposed {
      var i :| 0 <= i < |s'.created| && s'.created[i] == w;
      assert i < |s.created| ==> s.created[i] in s.created;
    }
  }

  /** Once a stop or a dispose has followed a start, no close, exception or timer step creates a watcher, and all
      that were created are disposed, until there is another explicit start. */
  lemma NoWatcherAfterStop(before: seq<Event>, stop: Event, after: seq<Event>)
    requires (exists e <- before :: e.Start?) && (stop.Stop? || stop.Dispose?) && forall e <- after :: !e.Start?
    ensures var stopped := Run(INITIAL, before + [stop]);
            var end := Run(INITIAL, before + [stop] + after);
            |end.created| == |stopped.created| && forall w <- end.created :: w.disposed
  {
    var s := Run(INITIAL, before);
    SafeRun(INITIAL, before);
    StartedStays(INITIAL, before);
    RunSum(INITIAL, before, [stop]);
    RunSum(INITIAL, before + [stop], after);
    var stopped := Do(s, stop);
    assert Run(s, [stop]) == stopped;
    SafeStep(s, stop);
    StoppedIsQuiet(s);
    QuietRun(stopped, after);
  }

  lemma StoppedIsQuiet(s: State)
    requires Safe(s) && s.cancellation.Some?
    ensures Quiet(Disposing(s))
  {
    var s' := Disposing(s);
    forall w <- s'.created ensures w.disposed {
      var i :| 0 <= i < |s'.created| && s'.created[i] == w;
      assert s.current != Some(i) ==> s.created[i].disposed;
    }
  }
}
