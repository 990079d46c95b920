/** The watcher does not give up: what each request leads to, and exactly which callbacks leave it without a live
    watcher and without a pending retry. */
module WatcherLiveness {
  import opened Wrappers
  import opened WatcherModel

  // ----- Requests

  predicate Watching(s: State) {
    s.current.Some? && s.current.value < |s.created| && s.created[s.current.value].watching
  }

  /** One more watcher was created, and it is the live one, counted and with an active source. */
  predicate Connected(s: State, s': State, watching: bool) {
    && Live(s') && s'.created[s'.current.value] == Watch(false, watching)
    && |s'.created| == |s.created| + 1 && s'.current == Some(|s.created|)
    && s'.running == 1 && s'.cancellation == Some(Token(false, false))
  }

  /** A request replaces a watcher that is not watching by the one that the client answers with, disposes the old
      one, and leaves a watcher alone that is watching. */
  lemma RequestConnects(s: State, watching: bool)
    requires Safe(s)
    ensures var s' := WatchResource(s, Some(watching));
            if Watching(s) then s' == s
            else Connected(s, s', watching) && forall i | 0 <= i < |s.created| :: s'.created[i].disposed
  {
    DisposedCurrentIsTheLast(s);
  }

  /** A start leads to a live watcher, unless the watcher in the field is still watching. */
  lemma StartConnects(s: State, watching: bool)
    requires Safe(s) && !Watching(s)
    ensures Connected(s, Do(s, Start(Some(watching))), watching)
  {
    RequestConnects(s, watching);
  }

  /** So does a retry that is pending, and it is then no longer pending. */
  lemma RetryConnects(s: State, watching: bool)
    requires Safe(s) && !Watching(s) && s.retryAt.Some?
    ensures Connected(s, Do(s, RetryFires(Some(watching))), watching)
    ensures Do(s, RetryFires(Some(watching))).retryAt.None?
  {
    RequestConnects(s.(retryAt := None), watching);
  }

  /** A closed connection of a live watcher leads to a new one at once. */
  lemma CloseReconnects(s: State, watching: bool)
    requires Safe(s) && Live(s)
    ensures Connected(s, Do(s, OnClose(Some(watching))), watching)
  {
  }

  /** So does the exception of a closed connection. */
  lemma IoExceptionReconnects(s: State, now: int, jitter: int, watching: bool)
    requires Safe(s) && (s.cancellation.Some? ==> !s.cancellation.value.disposed)
    ensures Connected(s, Do(s, OnException(true, now, jitter, Some(watching))), watching)
  {
  }

  /** Any other exception leads to no new watcher yet, but to a retry after the backoff; until then a closed
      connection is ignored. */
  lemma FailureWaits(s: State, now: int, jitter: int, answer: Answer, later: Answer)
    requires Safe(s) && !s.closed && (s.cancellation.Some? ==> !s.cancellation.value.disposed)
    ensures var s' := Do(s, OnException(false, now, jitter, answer));
            && !Live(s') && |s'.created| == |s.created|
            && s'.retryAt == Some(now + Backoff(s.attempts + 1, jitter)) && s'.resetAt == Some(now + 60_000)
            && (s.cancellation.Some? ==> Do(s', OnClose(later)) == s')
  {
  }

  // ----- Over runs

  /** There is a live watcher, or a retry is pending. */
  predicate Up(s: State) {
    Live(s) || s.retryAt.Some?
  }

  /** The callbacks that leave the watcher down: a stop, a failure after the retry timer's handler was disposed, and a
      request that throws while no retry is pending, or whose watcher was disposed and still claims to watch. */
  predicate GoesDown(s: State, e: Event) {
    match e
    case Start(answer) => s.retryAt.None? && !Watching(s) && answer.None?
    case RetryFires(answer) => s.retryAt.Some? && if Watching(s) then !Live(s) else answer.None?
    case OnClose(answer) => s.retryAt.None? && answer.None?
    case OnException(io, _, _, answer) => if io then s.retryAt.None? && answer.None? else s.closed
    case Stop => true
    case Dispose => true
    case ResetFires => false
    case WatchingChanges(_, _) => false
  }

  /** A step leaves the watcher up if and only if it is none of these. */
  lemma UpStep(s: State, e: Event)
    requires Safe(s) && Up(s)
    ensures Up(Do(s, e)) <==> !GoesDown(s, e)
  {
    match e {
      case Start(answer) => RequestUp(s, answer);
      case RetryFires(answer) =>
        if s.retryAt.Some? {
          RequestUp(s.(retryAt := None), answer);
        }
      case OnClose(answer) => CloseUp(s, answer);
      case OnException(io, now, jitter, answer) => FailedUp(s, io, now, jitter, answer);
      case Stop => DisposedCurrentIsTheLast(s);
      case Dispose => DisposedCurrentIsTheLast(s);
      case ResetFires =>
      case WatchingChanges(_, _) =>
    }
  }

  lemma RequestUp(s: State, answer: Answer)
    requires Safe(s)
    ensures Up(WatchResource(s, answer)) <==> s.retryAt.Some? || (if Watching(s) then Live(s) else answer.Some?)
  {
    DisposedCurrentIsTheLast(s);
  }

  lemma CloseUp(s: State, answer: Answer)
    requires Safe(s) && Up(s)
    ensures Up(Closed(s, answer)) <==> s.retryAt.Some? || answer.Some?
  {
  }

  lemma FailedUp(s: State, io: bool, now: int, jitter: int, answer: Answer)
    requires Safe(s) && Up(s)
    ensures Up(Failed(s, io, now, jitter, answer)) <==>
            if io then s.retryAt.Some? || answer.Some? else !s.closed
  {
  }

  ghost predicate NeverGoesDown(s: State, events: seq<Event>)
    decreases |events|
  {
    events != [] ==> !GoesDown(s, events[0]) && NeverGoesDown(Do(s, events[0]), events[1..])
  }

  /** The watcher is up in the state and after every event. */
  ghost predicate AlwaysUp(s: State, events: seq<Event>)
    decreases |events|
  {
    Up(s) && (events != [] ==> AlwaysUp(Do(s, events[0]), events[1..]))
  }

  /** It is up all through a run if and only if no callback of the run leaves it down. */
  lemma {:induction false} UpRun(s: State, events: seq<Event>)
    requires Safe(s) && Up(s)
    ensures AlwaysUp(s, events) <==> NeverGoesDown(s, events)
    decreases |events|
  {
    if events != [] {
      SafeStep(s, events[0]);
      UpStep(s, events[0]);
      if Up(Do(s, events[0])) {
        UpRun(Do(s, events[0]), events[1..]);
      } else {
        assert !AlwaysUp(Do(s, events[0]), events[1..]);
      }
    }
  }

  lemma {:induction false} AlwaysUpMeans(s: State, events: seq<Event>, n: nat)
    requires AlwaysUp(s, events) && n <= |events|
    ensures Up(Run(s, events[..n]))
    decreases n
  {
    if n > 0 {
      assert events[..n][1..] == events[1..][..n - 1];
      AlwaysUpMeans(Do(s, events[0]), events[1..], n - 1);
    }
  }

  // ----- With a client that answers

  /** The client answers every request, nobody stops the watcher, and a watcher that was disposed does not watch. */
  predicate Answered(s: State, e: Event) {
    match e
    case Start(answer) => answer.Some?
    case RetryFires(answer) => answer.Some?
    case OnClose(answer) => answer.Some?
    case OnException(io, _, _, answer) => io ==> answer.Some?
    case WatchingChanges(id, watching) => watching && id < |s.created| ==> !s.created[id].disposed
    case ResetFires => true
    case Stop => false
    case Dispose => false
  }

  ghost predicate AllAnswered(s: State, events: seq<Event>)
    decreases |events|
  {
    events != [] ==> Answered(s, events[0]) && AllAnswered(Do(s, events[0]), events[1..])
  }

  /** Not stopped, and no disposed watcher is in the field as watching. */
  ghost predicate Open(s: State) {
    && Safe(s) && !s.closed && (Watching(s) ==> Live(s))
    && (s.cancellation.Some? ==> !s.cancellation.value.disposed)
  }

  lemma OpenStep(s: State, e: Event)
    requires Open(s) && Answered(s, e)
    ensures Open(Do(s, e)) && !GoesDown(s, e)
  {
    SafeStep(s, e);
  }

  /** As long as the client answers and nobody stops it, a watcher that was started never gives up: after every
      callback there is a live watcher or a retry is pending. */
  lemma {:induction false} NeverGivesUp(s: State, events: seq<Event>)
    requires Open(s) && Up(s) && AllAnswered(s, events)
    ensures AlwaysUp(s, events) && Open(Run(s, events))
    decreases |events|
  {
    if events != [] {
      OpenStep(s, events[0]);
      UpStep(s, events[0]);
      NeverGivesUp(Do(s, events[0]), events[1..]);
    }
  }

  /** The callbacks that ask for a watcher: a start, a close or a closed-connection exception, a pending retry. */
  predicate IsRequest(s: State, e: Event) {
    e.Start? || (e.OnClose? && Live(s)) || (e.OnException? && e.io) || (e.RetryFires? && s.retryAt.Some?)
  }

  /** From the beginning: after the first start the watcher is always up, and every further request leads to a live
      watcher. */
  lemma EveryRequestLeadsToLive(watching: bool, events: seq<Event>, e: Event)
    requires AllAnswered(Do(INITIAL, Start(Some(watching))), events)
    ensures var s := Run(Do(INITIAL, Start(Some(watching))), events);
            Up(s) && (Answered(s, e) && IsRequest(s, e) ==> Live(Do(s, e)))
  {
    var first := Do(INITIAL, Start(Some(watching)));
    NeverGivesUp(first, events);
    AlwaysUpMeans(first, events, |events|);
    assert events[..|events|] == events;
    var s := Run(first, events);
    if Answered(s, e) && IsRequest(s, e) {
      AnsweredRequestIsLive(s, e);
    }
  }

  lemma AnsweredRequestIsLive(s: State, e: Event)
    requires Open(s) && Answered(s, e) && IsRequest(s, e)
    ensures Live(Do(s, e))
  {
    match e {
      case Start(answer) => RequestConnects(s, answer.value);
      case RetryFires(answer) => RequestConnects(s.(retryAt := None), answer.value);
      case OnClose(answer) => CloseReconnects(s, answer.value);
      case OnException(io, now, jitter, answer) => IoExceptionReconnects(s, now, jitter, answer.value);
    }
  }

  /** A retry that fails is not tried again: the client fails once, and throws when it is asked for a new watcher. */
  lemma RetryCanBeLost(now: int, jitter: int)
    ensures var s := Run(INITIAL, [Start(Some(true)), OnException(false, now, jitter, None), RetryFires(None)]);
            !Up(s) && s.cancellation == Some(Token(false, false))
  {
    var a, b, c := Start(Some(true)), OnException(false, now, jitter, None), RetryFires(None);
    assert [a, b, c] == [a] + ([b] + [c]);
    RunSum(INITIAL, [a], [b] + [c]);
    RunSum(Do(INITIAL, a), [b], [c]);
    OneEvent(INITIAL, a);
    OneEvent(Do(INITIAL, a), b);
    OneEvent(Do(Do(INITIAL, a), b), c);
  }

  lemma OneEvent(s: State, e: Event)
    ensures Run(s, [e]) == Do(s, e)
  {
    assert Run(Do(s, e), [e][1..]) == Do(s, e);
  }
}
