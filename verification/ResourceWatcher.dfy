/** The resource watcher's object: its fields change on every callback, and each callback is proved to be the
    corresponding step of WatcherModel. */
module ResourceWatchers {
  import opened Wrappers
  import opened WatcherModel

  class Watcher {
    var disposed: bool
    var watching: bool

    ghost function Abs(): Watch
      reads this
    {
      Watch(disposed, watching)
    }

    constructor (watching: bool)
      ensures Abs() == Watch(false, watching)
    {
      this.disposed := false;
      this.watching := watching;
    }

    method Dispose()
      modifies this
      ensures Abs() == old(Abs()).(disposed := true)
    {
      disposed := true;
    }
  }

  class CancellationTokenSource {
    var cancelled: bool
    var disposed: bool

    ghost function Abs(): Token
      reads this
    {
      Token(cancelled, disposed)
    }

    constructor ()
      ensures Abs() == Token(false, false)
    {
      cancelled := false;
      disposed := false;
    }

    /** False is the exception of a disposed source. */
    method Cancel() returns (ok: bool)
      modifies this
      ensures ok == !old(disposed)
      ensures Abs() == if ok then old(Abs()).(cancelled := true) else old(Abs())
    {
      ok := !disposed;
      if ok {
        cancelled := true;
      }
    }

    method Dispose()
      modifies this
      ensures Abs() == old(Abs()).(disposed := true)
    {
      disposed := true;
    }
  }

  class ResourceWatcher {
    var watcher: Watcher?
    var cancellation: CancellationTokenSource?
    var reconnectAttempts: nat
    /** When the reset timer and the retry timer fire, if they are pending. */
    var resetReconnectCounter: Option<int>
    var retryTimer: Option<int>
    var reconnectHandlerDisposed: bool
    var running: nat
    /** Every watcher ever created, and the position of the one in the field. */
    ghost var created: seq<Watcher>
    ghost var current: Option<nat>

    /** The watcher in the field is the one that the position says. */
    ghost predicate Shaped()
      reads this
    {
      && (forall i, j | 0 <= i < j < |created| :: created[i] != created[j])
      && (if current.Some? then current.value < |created| && watcher == created[current.value] else watcher == null)
    }

    ghost function Watches(): (r: seq<Watch>)
      reads this, created
      ensures |r| == |created| && forall i | 0 <= i < |created| :: r[i] == created[i].Abs()
    {
      seq(|created|, i requires 0 <= i < |created| reads this, created => created[i].Abs())
    }

    ghost function Abs(): State
      reads this, created, cancellation
    {
      State(Watches(), current, if cancellation == null then None else Some(cancellation.Abs()), running,
            reconnectAttempts, resetReconnectCounter, retryTimer, reconnectHandlerDisposed)
    }

    /** What every callback keeps. */
    ghost predicate Valid()
      reads this, created, cancellation
    {
      Shaped() && Safe(Abs())
    }

    constructor ()
      ensures Valid() && Abs() == INITIAL
    {
      watcher := null;
      cancellation := null;
      reconnectAttempts := 0;
      resetReconnectCounter := None;
      retryTimer := None;
      reconnectHandlerDisposed := false;
      running := 0;
      created := [];
      current := None;
    }

    method Start(answer: Answer)
      requires Valid()
      modifies this, watcher, cancellation
      ensures Valid() && Abs() == Do(old(Abs()), Event.Start(answer))
    {
      SafeStep(Abs(), Event.Start(answer));
      WatchResource(answer);
    }

    method Stop()
      requires Valid()
      modifies this, watcher, cancellation
      ensures Valid() && Abs() == Do(old(Abs()), Event.Stop)
    {
      SafeStep(Abs(), Event.Stop);
      Disposing();
    }

    method Dispose()
      requires Valid()
      modifies this, watcher, cancellation
      ensures Valid() && Abs() == Do(old(Abs()), Event.Dispose)
    {
      SafeStep(Abs(), Event.Dispose);
      Disposing();
    }

    method Disposing()
      requires Shaped() && (cancellation != null && cancellation.disposed ==> cancellation.cancelled)
      modifies this, watcher, cancellation
      ensures Shaped() && Abs() == WatcherModel.Disposing(old(Abs()))
    {
      ghost var before := Abs();
      reconnectHandlerDisposed := true;
      retryTimer := None;
      assert Abs() == before.(closed := true, retryAt := None);
      DisposeSource();
      DisposeWatcher();
      ghost var after := Abs();
      running := 0;
      assert Abs() == after.(running := 0);
    }

    /** Cancels the source, if it is not yet cancelled, and disposes it. */
    method DisposeSource()
      requires Shaped() && (cancellation != null && cancellation.disposed ==> cancellation.cancelled)
      modifies cancellation
      ensures Shaped()
      ensures Abs() == old(Abs()).(cancellation := if cancellation == null then None else Some(Token(true, true)))
    {
      if cancellation != null {
        if !cancellation.cancelled {
          var _ := cancellation.Cancel();
        }
        cancellation.Dispose();
      }
    }

    /** Disposes the watcher in the field, if there is one. */
    method DisposeWatcher()
      requires Shaped()
      modifies watcher
      ensures Shaped() && Abs() == DisposeCurrent(old(Abs()))
    {
      if watcher != null {
        ghost var before := Abs();
        watcher.Dispose();
        assert Abs().created == DisposeCurrent(before).created;
      }
    }

    /** Leaves a watcher that is watching alone, and replaces any other; no answer is an exception of the client. */
    method WatchResource(answer: Answer)
      requires Shaped()
      modifies this, watcher, cancellation
      ensures Shaped() && Abs() == WatcherModel.WatchResource(old(Abs()), answer)
    {
      if watcher != null {
        if !watcher.watching {
          DisposeWatcher();
        } else {
          return;
        }
      }
      Connect(answer);
    }

    /** The rest of WatchResource. */
    method Connect(answer: Answer)
      requires Shaped()
      modifies this
      ensures Shaped() && Abs() == Watched(old(Abs()), answer)
    {
      cancellation := new CancellationTokenSource();
      match answer {
        case None => return;
        case Some(watching) =>
          ghost var before := Watches();
          var connected := new Watcher(watching);
          watcher := connected;
          current := Some(|created|);
          created := created + [connected];
          running := 1;
          assert Watches() == before + [Watch(false, watching)];
      }
    }

    /** Cancels, disposes and forgets the watcher; false is the exception of a disposed source, before any change. */
    method DropWatcher() returns (ok: bool)
      requires Shaped()
      modifies this`watcher, this`current, watcher, cancellation
      ensures Shaped()
      ensures ok == !(old(Abs()).cancellation.Some? && old(Abs()).cancellation.value.disposed)
      ensures Abs() == if ok then DisposeCurrent(CancelToken(old(Abs()))).(current := None) else old(Abs())
    {
      ok := true;
      if cancellation != null {
        ok := cancellation.Cancel();
        if !ok {
          return;
        }
      }
      DisposeWatcher();
      watcher := null;
      current := None;
    }

    method OnClose(answer: Answer)
      requires Valid()
      modifies this, watcher, cancellation
      ensures Valid() && Abs() == Do(old(Abs()), Event.OnClose(answer))
    {
      SafeStep(Abs(), Event.OnClose(answer));
      Reopen(answer);
    }

    /** The body of OnClose: an active source means that the close was not asked for. */
    method Reopen(answer: Answer)
      requires Shaped() && (cancellation != null && cancellation.disposed ==> cancellation.cancelled)
      modifies this, watcher, cancellation
      ensures Shaped() && Abs() == Closed(old(Abs()), answer)
    {
      running := 0;
      if cancellation != null && !cancellation.cancelled {
        RestartWatcher(answer);
      }
    }

    method RestartWatcher(answer: Answer)
      requires Shaped() && cancellation != null && !cancellation.disposed
      modifies this, watcher, cancellation
      ensures Shaped() && Abs() == Restarted(old(Abs()), answer)
    {
      var _ := DropWatcher();
      WatchResource(answer);
    }

    /** An exception, with whether it is a closed connection, the time and a random number of milliseconds. */
    method OnException(io: bool, now: int, jitter: int, answer: Answer)
      requires Valid()
      modifies this, watcher, cancellation
      ensures Valid() && Abs() == Do(old(Abs()), Event.OnException(io, now, jitter, answer))
    {
      SafeStep(Abs(), Event.OnException(io, now, jitter, answer));
      HandleException(io, now, jitter, answer);
    }

    /** The body of OnException. */
    method HandleException(io: bool, now: int, jitter: int, answer: Answer)
      requires Shaped()
      modifies this, watcher, cancellation
      ensures Shaped() && Abs() == Failed(old(Abs()), io, now, jitter, answer)
    {
      var ok := DropWatcher();
      if !ok {
        return;
      }
      ghost var dropped := Abs();
      running := 0;
      assert Abs() == dropped.(running := 0);
      if io {
        WatchResource(answer);
      } else {
        Reconnect(now, jitter);
      }
    }

    /** The end of OnException: the reset timer starts anew, and so does the retry timer unless its handler is
        disposed. */
    method Reconnect(now: int, jitter: int)
      requires Shaped()
      modifies this`reconnectAttempts, this`resetReconnectCounter, this`retryTimer
      ensures Shaped()
      ensures Abs() == var s := old(Abs());
        s.(attempts := s.attempts + 1, resetAt := Some(now + RESET_AFTER),
           retryAt := if s.closed then s.retryAt else Some(now + Backoff(s.attempts + 1, jitter)))
    {
      reconnectAttempts := reconnectAttempts + 1;
      var backoff := Backoff(reconnectAttempts, jitter);
      resetReconnectCounter := Some(now + RESET_AFTER);
      if !reconnectHandlerDisposed {
        retryTimer := Some(now + backoff);
      }
    }

    method OnRetry(answer: Answer)
      requires Valid()
      modifies this, watcher, cancellation
      ensures Valid() && Abs() == Do(old(Abs()), Event.RetryFires(answer))
    {
      SafeStep(Abs(), Event.RetryFires(answer));
      if retryTimer.Some? {
        Retry(answer);
      }
    }

    method Retry(answer: Answer)
      requires Shaped()
      modifies this, watcher, cancellation
      ensures Shaped() && Abs() == WatcherModel.WatchResource(old(Abs()).(retryAt := None), answer)
    {
      ghost var before := Abs();
      retryTimer := None;
      assert Abs() == before.(retryAt := None);
      WatchResource(answer);
    }

    method OnReset()
      requires Valid()
      modifies this
      ensures Valid() && Abs() == Do(old(Abs()), Event.ResetFires)
    {
      SafeStep(Abs(), Event.ResetFires);
      if resetReconnectCounter.Some? {
        reconnectAttempts := 0;
        resetReconnectCounter := None;
      }
    }
  }
}
