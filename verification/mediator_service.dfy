/**
 The dispatch engine of the mediator: `RaiseAsync` and `Raise`.

 The dependency-injection scope and the handler resolution are replaced by
 plain data: the caller passes the sequence of handlers the scope would
 resolve for the notification's exact type. A handler is a value that says
 how its `HandleAsync` ends and whether it cancels the caller's token while
 it runs. The result of a dispatch is an event log (scope creation, each
 handler invocation, scope disposal) together with the way the call ends.
 */
module MediatorService {

  /** An exception object, compared by identity. */
  datatype Exception = Exception(id: nat)

  /** How one awaited `HandleAsync` call ends. */
  datatype Completion = Completed | Threw(error: Exception)

  /** A resolved handler: how it ends, and whether it cancels the
      caller's cancellation token source while it runs. */
  datatype Handler = Handler(completion: Completion, requestsCancel: bool)

  /** The notification argument; `Null` is the null reference. */
  datatype Notification = Null | Signal(payload: int)

  /** What a dispatch does, in order. `Invoked(i)` is the start of the
      handler at position `i` of the resolved sequence. */
  datatype Event = ScopeCreated | Invoked(index: nat) | ScopeDisposed

  /** How a call ends: `ArgumentNullException`, normal completion, or one
      `AggregateException` with its inner exceptions in order. */
  datatype Outcome = ArgumentNull | Success | Aggregate(inner: seq<Exception>)

  datatype Dispatch = Dispatch(events: seq<Event>, outcome: Outcome)

  /** The state the `foreach` loop carries: what it has done so far, the
      recorded exceptions and whether the token has been cancelled. */
  datatype LoopState = LoopState(events: seq<Event>, errors: seq<Exception>, cancelRequested: bool)

  // ---------------------------------------------------------------------
  // Reference definitions, independent of the loop
  // ---------------------------------------------------------------------

  /** The exceptions thrown by the handlers of `hs`, in order. */
  function Failures(hs: seq<Handler>): (r: seq<Exception>)
    ensures |r| <= |hs|
    ensures r == [] <==> forall i :: 0 <= i < |hs| ==> hs[i].completion.Completed?
    ensures forall e :: e in r ==> exists h :: h in hs && h.completion == Threw(e)
  {
    if hs == [] then []
    else
      var rest := Failures(hs[1..]);
      assert forall i :: 1 <= i < |hs| ==> hs[i] == hs[1..][i - 1];
      match hs[0].completion
      case Completed => rest
      case Threw(e) => [e] + rest
  }

  /** The position of the first handler that cancels the token, or `|hs|`
      when none does. */
  function FirstCancelling(hs: seq<Handler>): (k: nat)
    ensures k <= |hs|
    ensures forall i :: 0 <= i < k ==> !hs[i].requestsCancel
    ensures k < |hs| ==> hs[k].requestsCancel
  {
    if hs == [] then 0
    else if hs[0].requestsCancel then 0
    else
      var k := FirstCancelling(hs[1..]);
      assert forall i :: 1 <= i < k + 1 ==> hs[i] == hs[1..][i - 1];
      k + 1
  }

  /** How many handlers a dispatch starts. Without the cancellation gate
      every handler starts. With it, none starts when the token is already
      cancelled, and otherwise the handlers up to and including the first
      one that cancels the token start. */
  function Started(hs: seq<Handler>, gated: bool, cancelled: bool): (k: nat)
    ensures k <= |hs|
  {
    if !gated then |hs|
    else if cancelled then 0
    else if FirstCancelling(hs) < |hs| then FirstCancelling(hs) + 1
    else |hs|
  }

  /** The invocation events of `count` handlers, the first at position `from`. */
  function Invocations(from: nat, count: nat): (r: seq<Event>)
    ensures |r| == count
    ensures forall j :: 0 <= j < count ==> r[j] == Invoked(from + j)
  {
    seq(count, j requires 0 <= j < count => Invoked(from + j))
  }

  /** The end of the call for a list of recorded exceptions: the
      `errors is { Count: > 0 }` test. */
  function Report(errors: seq<Exception>): Outcome
  {
    if |errors| > 0 then Aggregate(errors) else Success
  }

  // ---------------------------------------------------------------------
  // The dispatch loop
  // ---------------------------------------------------------------------

  /** One iteration of the loop body: invoke the handler, record its
      exception if it throws, and note a cancellation it requests. */
  function Step(st: LoopState, h: Handler, index: nat): LoopState
  {
    LoopState(
      st.events + [Invoked(index)],
      if h.completion.Threw? then st.errors + [h.completion.error] else st.errors,
      st.cancelRequested || h.requestsCancel)
  }

  /** The `foreach` loop over the remaining handlers `hs`, the first of
      which sits at position `next`. When `gated`, the loop first checks
      the token and breaks if cancellation was requested. */
  function RunLoop(hs: seq<Handler>, next: nat, gated: bool, st: LoopState): LoopState
    decreases |hs|
  {
    if hs == [] then st
    else if gated && st.cancelRequested then st
    else RunLoop(hs[1..], next + 1, gated, Step(st, hs[0], next))
  }

  /** `RaiseAsync(notification, ct)`: `cancelled` is whether `ct` is
      already cancelled when the call starts. */
  function RaiseAsync(n: Notification, hs: seq<Handler>, cancelled: bool): (r: Dispatch)
    ensures n.Null? ==> r == Dispatch([], ArgumentNull)
    ensures n.Signal? ==> r.events == [ScopeCreated] + Invocations(0, Started(hs, true, cancelled)) + [ScopeDisposed]
    ensures n.Signal? ==> r.outcome == Report(Failures(hs[..Started(hs, true, cancelled)]))
  {
    if n.Null? then Dispatch([], ArgumentNull)
    else
      var st := RunLoop(hs, 0, true, LoopState([], [], cancelled));
      LoopMeaning(hs, 0, true, LoopState([], [], cancelled));
      assert st.events == Invocations(0, Started(hs, true, cancelled));
      assert st.errors == Failures(hs[..Started(hs, true, cancelled)]);
      Dispatch([ScopeCreated] + st.events + [ScopeDisposed], Report(st.errors))
  }

  /** `Raise(notification)`: the same loop without the cancellation check,
      since the handlers receive `CancellationToken.None`. */
  function Raise(n: Notification, hs: seq<Handler>): (r: Dispatch)
    ensures n.Null? ==> r == Dispatch([], ArgumentNull)
    ensures n.Signal? ==> r.events == [ScopeCreated] + Invocations(0, |hs|) + [ScopeDisposed]
    ensures n.Signal? ==> r.outcome == Report(Failures(hs))
  {
    if n.Null? then Dispatch([], ArgumentNull)
    else
      var st := RunLoop(hs, 0, false, LoopState([], [], false));
      LoopMeaning(hs, 0, false, LoopState([], [], false));
      assert hs[..|hs|] == hs;
      assert st.events == Invocations(0, |hs|);
      assert st.errors == Failures(hs);
      Dispatch([ScopeCreated] + st.events + [ScopeDisposed], Report(st.errors))
  }

  // ---------------------------------------------------------------------
  // The loop against the reference definitions
  // ---------------------------------------------------------------------

  lemma {:induction false} FailuresCons(h: Handler, hs: seq<Handler>)
    ensures Failures([h] + hs) == (if h.completion.Threw? then [h.completion.error] else []) + Failures(hs)
  {
    assert ([h] + hs)[1..] == hs;
  }

  /** Starting one handler moves the count of started handlers by one. */
  lemma StartedStep(hs: seq<Handler>, gated: bool, cancelled: bool)
    requires hs != [] && !(gated && cancelled)
    ensures Started(hs, gated, cancelled) == Started(hs[1..], gated, cancelled || hs[0].requestsCancel) + 1
  {
    if gated && !hs[0].requestsCancel {
      assert FirstCancelling(hs) == FirstCancelling(hs[1..]) + 1;
    }
  }

  lemma InvocationsCons(from: nat, count: nat)
    requires count > 0
    ensures Invocations(from, count) == [Invoked(from)] + Invocations(from + 1, count - 1)
  {
  }

  lemma PrefixCons(hs: seq<Handler>, k: nat)
    requires 0 < k <= |hs|
    ensures hs[..k] == [hs[0]] + hs[1..][..k - 1]
  {
  }

  /** The loop starts exactly `Started` handlers, in order, and records
      exactly their exceptions, in order. */
  lemma {:induction false} LoopMeaning(hs: seq<Handler>, next: nat, gated: bool, st: LoopState)
    ensures RunLoop(hs, next, gated, st).events == st.events + Invocations(next, Started(hs, gated, st.cancelRequested))
    ensures RunLoop(hs, next, gated, st).errors == st.errors + Failures(hs[..Started(hs, gated, st.cancelRequested)])
    decreases |hs|
  {
    var k := Started(hs, gated, st.cancelRequested);
    if hs == [] || (gated && st.cancelRequested) {
      assert k == 0;
      assert hs[..k] == [];
      assert Invocations(next, k) == [];
    } else {
      var st' := Step(st, hs[0], next);
      var k' := Started(hs[1..], gated, st'.cancelRequested);
      LoopMeaning(hs[1..], next + 1, gated, st');
      StartedStep(hs, gated, st.cancelRequested);
      LoopEventsStep(st, st', next, k);
      LoopErrorsStep(hs, st, st', next, k);
    }
  }

  lemma LoopEventsStep(st: LoopState, st': LoopState, next: nat, k: nat)
    requires k > 0
    requires st'.events == st.events + [Invoked(next)]
    ensures st'.events + Invocations(next + 1, k - 1) == st.events + Invocations(next, k)
  {
    InvocationsCons(next, k);
  }

  lemma LoopErrorsStep(hs: seq<Handler>, st: LoopState, st': LoopState, next: nat, k: nat)
    requires 0 < k <= |hs|
    requires st' == Step(st, hs[0], next)
    ensures st'.errors + Failures(hs[1..][..k - 1]) == st.errors + Failures(hs[..k])
  {
    PrefixCons(hs, k);
    FailuresCons(hs[0], hs[1..][..k - 1]);
  }

  // ---------------------------------------------------------------------
  // Properties of a dispatch
  // ---------------------------------------------------------------------

  /** The number of occurrences of `e` in `events`. */
  function Occurrences(events: seq<Event>, e: Event): nat
  {
    if events == [] then 0
    else (if events[0] == e then 1 else 0) + Occurrences(events[1..], e)
  }

  lemma {:induction false} OccurrencesAppend(a: seq<Event>, b: seq<Event>, e: Event)
    ensures Occurrences(a + b, e) == Occurrences(a, e) + Occurrences(b, e)
    decreases |a|
  {
    if a == [] {
      assert a + b == b;
    } else {
      assert (a + b)[1..] == a[1..] + b;
      OccurrencesAppend(a[1..], b, e);
    }
  }

  lemma {:induction false} NoScopeEventAmongInvocations(from: nat, count: nat)
    ensures Occurrences(Invocations(from, count), ScopeCreated) == 0
    ensures Occurrences(Invocations(from, count), ScopeDisposed) == 0
    decreases count
  {
    if count > 0 {
      assert Invocations(from, count)[1..] == Invocations(from + 1, count - 1);
      NoScopeEventAmongInvocations(from + 1, count - 1);
    }
  }

  lemma ScopeBracket(inner: seq<Event>)
    requires Occurrences(inner, ScopeCreated) == 0 && Occurrences(inner, ScopeDisposed) == 0
    ensures Occurrences([ScopeCreated] + inner + [ScopeDisposed], ScopeCreated) == 1
    ensures Occurrences([ScopeCreated] + inner + [ScopeDisposed], ScopeDisposed) == 1
  {
    OccurrencesAppend([ScopeCreated] + inner, [ScopeDisposed], ScopeCreated);
    OccurrencesAppend([ScopeCreated] + inner, [ScopeDisposed], ScopeDisposed);
    OccurrencesAppend([ScopeCreated], inner, ScopeCreated);
    OccurrencesAppend([ScopeCreated], inner, ScopeDisposed);
  }

  /** In both modes, a non-null notification creates exactly one scope
      first and disposes it exactly once last, on every exit path:
      normal completion, cancellation and aggregated failure alike. */
  lemma ScopeDisposedExactlyOnce(n: Notification, hs: seq<Handler>, cancelled: bool)
    requires n.Signal?
    ensures forall d :: d in {RaiseAsync(n, hs, cancelled), Raise(n, hs)} ==>
      && d.events[0] == ScopeCreated
      && d.events[|d.events| - 1] == ScopeDisposed
      && Occurrences(d.events, ScopeCreated) == 1
      && Occurrences(d.events, ScopeDisposed) == 1
  {
    var k := Started(hs, true, cancelled);
    NoScopeEventAmongInvocations(0, k);
    ScopeBracket(Invocations(0, k));
    NoScopeEventAmongInvocations(0, |hs|);
    ScopeBracket(Invocations(0, |hs|));
  }

  /** A null notification is rejected in both modes before any scope is
      created, so no handler is resolved or invoked. */
  lemma NullRejectedBeforeAnyScope(hs: seq<Handler>, cancelled: bool)
    ensures RaiseAsync(Null, hs, cancelled).outcome == ArgumentNull
    ensures Raise(Null, hs).outcome == ArgumentNull
    ensures ScopeCreated !in RaiseAsync(Null, hs, cancelled).events
    ensures ScopeCreated !in Raise(Null, hs).events
  {
  }

  /** With no handler resolved, both modes complete normally without an
      invocation, whatever the token. */
  lemma NoHandlersCompletesNormally(payload: int, cancelled: bool)
    ensures RaiseAsync(Signal(payload), [], cancelled) == Dispatch([ScopeCreated, ScopeDisposed], Success)
    ensures Raise(Signal(payload), []) == Dispatch([ScopeCreated, ScopeDisposed], Success)
  {
  }

  /** The call ends in an `AggregateException` exactly when a started
      handler threw; otherwise it completes normally. */
  lemma {:induction false} AggregateIffSomeStartedHandlerThrew(n: Notification, hs: seq<Handler>, cancelled: bool)
    requires n.Signal?
    ensures var k := Started(hs, true, cancelled);
      RaiseAsync(n, hs, cancelled).outcome.Aggregate? <==> exists i :: 0 <= i < k && hs[i].completion.Threw?
    ensures Raise(n, hs).outcome.Aggregate? <==> exists i :: 0 <= i < |hs| && hs[i].completion.Threw?
    ensures RaiseAsync(n, hs, cancelled).outcome in {Success, Aggregate(Failures(hs[..Started(hs, true, cancelled)]))}
  {
    var k := Started(hs, true, cancelled);
    assert forall i :: 0 <= i < k ==> hs[..k][i] == hs[i];
  }

  /** Whether a handler throws never decides which handlers start: two
      handler sequences that agree on cancellation requests start the same
      handlers, so a failing handler does not stop the ones after it. */
  lemma FailureDoesNotStopLaterHandlers(n: Notification, hs: seq<Handler>, hs': seq<Handler>, cancelled: bool)
    requires |hs| == |hs'|
    requires forall i :: 0 <= i < |hs| ==> hs[i].requestsCancel == hs'[i].requestsCancel
    ensures RaiseAsync(n, hs, cancelled).events == RaiseAsync(n, hs', cancelled).events
    ensures Raise(n, hs).events == Raise(n, hs').events
  {
    if n.Signal? {
      FirstCancellingAgrees(hs, hs');
    }
  }

  lemma FirstCancellingAgrees(hs: seq<Handler>, hs': seq<Handler>)
    requires |hs| == |hs'|
    requires forall i :: 0 <= i < |hs| ==> hs[i].requestsCancel == hs'[i].requestsCancel
    ensures FirstCancelling(hs) == FirstCancelling(hs')
  {
  }

  /** In async mode, once the token is cancelled no further handler
      starts: a started handler has no cancelling handler before it and an
      uncancelled token at the start. Conversely, a handler that cancels
      the token is still started when nothing cancelled before it. */
  lemma CancellationGatesLaterHandlers(n: Notification, hs: seq<Handler>, cancelled: bool)
    requires n.Signal?
    ensures forall j: nat :: Invoked(j) in RaiseAsync(n, hs, cancelled).events ==>
      && j < |hs|
      && !cancelled
      && forall i :: 0 <= i < j ==> !hs[i].requestsCancel
    ensures forall j: nat :: j < |hs| && !cancelled && (forall i :: 0 <= i < j ==> !hs[i].requestsCancel) ==>
      Invoked(j) in RaiseAsync(n, hs, cancelled).events
  {
    var k := Started(hs, true, cancelled);
    var d := RaiseAsync(n, hs, cancelled);
    forall j: nat | Invoked(j) in d.events
      ensures j < k
    {
      var p :| 0 <= p < |d.events| && d.events[p] == Invoked(j);
      assert 1 <= p <= k;
      assert d.events[p] == Invocations(0, k)[p - 1];
    }
    forall j: nat | j < |hs| && !cancelled && (forall i :: 0 <= i < j ==> !hs[i].requestsCancel)
      ensures Invoked(j) in d.events
    {
      assert j <= FirstCancelling(hs);
      assert d.events[j + 1] == Invoked(j);
    }
  }

  /** Sync mode has no cancellation gate: it behaves like async mode with
      a token that is never cancelled and handlers that never cancel it,
      and with any handlers it starts every one of them once, in order. */
  lemma SyncIsUngatedAsync(n: Notification, hs: seq<Handler>)
    requires forall i :: 0 <= i < |hs| ==> !hs[i].requestsCancel
    ensures Raise(n, hs) == RaiseAsync(n, hs, false)
  {
    if n.Signal? {
      assert hs[..|hs|] == hs;
    }
  }

  // ---------------------------------------------------------------------
  // The scenarios of the `MediatorServiceTest` fixture
  // ---------------------------------------------------------------------

  /** One failing handler still ends in an `AggregateException`, never in
      the bare exception. */
  lemma SingleFailureStillWrapped(payload: int, e: Exception, cancelled: bool)
    ensures Raise(Signal(payload), [Handler(Threw(e), false)]).outcome == Aggregate([e])
    ensures !cancelled ==> RaiseAsync(Signal(payload), [Handler(Threw(e), false)], cancelled).outcome == Aggregate([e])
  {
    assert Failures([Handler(Threw(e), false)][1..]) == [];
  }

  /** Two failing handlers give one `AggregateException` with exactly two
      inner exceptions, in invocation order, in both modes. */
  lemma TwoFailuresGiveTwoInnerExceptions(payload: int, e1: Exception, e2: Exception)
    ensures var hs := [Handler(Threw(e1), false), Handler(Threw(e2), false)];
      && Raise(Signal(payload), hs).outcome == Aggregate([e1, e2])
      && RaiseAsync(Signal(payload), hs, false).outcome == Aggregate([e1, e2])
      && |RaiseAsync(Signal(payload), hs, false).outcome.inner| == 2
  {
    var hs := [Handler(Threw(e1), false), Handler(Threw(e2), false)];
    FailuresCons(hs[1], []);
    assert [hs[1]] + [] == hs[1..];
    FailuresCons(hs[0], hs[1..]);
    assert [hs[0]] + hs[1..] == hs;
    assert hs[..2] == hs;
  }

  /** The first handler cancels the token and completes; the second is
      never invoked and the call completes normally. */
  lemma CancellingHandlerStopsTheNext(payload: int)
    ensures var hs := [Handler(Completed, true), Handler(Completed, false)];
      RaiseAsync(Signal(payload), hs, false) == Dispatch([ScopeCreated, Invoked(0), ScopeDisposed], Success)
  {
    var hs := [Handler(Completed, true), Handler(Completed, false)];
    assert hs[..1] == [hs[0]];
    assert Failures(hs[..1][1..]) == [];
  }

  /** An exception recorded before the `break` is still thrown: a handler
      that throws after cancelling the token ends the call in an
      `AggregateException` holding just its exception. */
  lemma FailureBeforeCancellationStillThrown(payload: int, e: Exception, h2: Handler)
    ensures var hs := [Handler(Threw(e), true), h2];
      RaiseAsync(Signal(payload), hs, false) == Dispatch([ScopeCreated, Invoked(0), ScopeDisposed], Aggregate([e]))
  {
    var hs := [Handler(Threw(e), true), h2];
    assert hs[..1] == [hs[0]];
    assert Failures(hs[..1][1..]) == [];
  }
}
