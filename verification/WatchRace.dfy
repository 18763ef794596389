/** internal/watch/sub.go: cancellation that does not wait for a send to finish. Publish sends after it
    has released the watch lock, so a subscription can be closed between the check in send and the
    channel operations that follow it; sending on a closed channel panics. */
module WatchRace {
  import opened Base
  import opened Meta
  import opened Watch

  datatype Outcome = Running(s: Sub) | Crashed

  /** A publisher is about to send on the channel. */
  predicate AboutToSend(t: Sub, step: Step) {
    (step.TrySend? && t.phase.Trying?) || (step.Resend? && t.phase.Resending?)
  }

  /** As Next, with Cancel at any time. */
  function RacyNext(s: Sub, step: Step): Option<Outcome> {
    if step.Cancel? then Some(Running(s.(closed := true)))
    else if s.closed && AboutToSend(s, step) then Some(Crashed)
    else match Next(s, step)
      case None => None
      case Some(t) => Some(Running(t))
  }

  function RacyRun(s: Sub, steps: seq<Step>): Option<Outcome> {
    if steps == [] then Some(Running(s))
    else match RacyRun(s, steps[..|steps| - 1])
      case None => None
      case Some(Crashed) => None
      case Some(Running(t)) => RacyNext(t, steps[|steps| - 1])
  }

  /** While a run goes on, the channel is closed exactly when there was a cancellation. */
  lemma {:induction false} ClosedByCancel(s: Sub, steps: seq<Step>)
    requires !s.closed && RacyRun(s, steps).Some? && RacyRun(s, steps).value.Running?
    ensures RacyRun(s, steps).value.s.closed <==> Cancelled(steps)
  {
    if steps != [] {
      var init, last := steps[..|steps| - 1], steps[|steps| - 1];
      assert steps == init + [last];
      ClosedByCancel(s, init);
    }
  }

  /** A step crashes the publisher exactly when it sends on the channel and the subscription was
      cancelled before; the check at the start of send cannot see that. */
  lemma {:induction false} CrashIff(s: Sub, steps: seq<Step>, step: Step)
    requires !s.closed && RacyRun(s, steps).Some? && RacyRun(s, steps).value.Running?
    ensures RacyRun(s, steps + [step]) == Some(Crashed) <==>
            AboutToSend(RacyRun(s, steps).value.s, step) && Cancelled(steps)
  {
    assert (steps + [step])[..|steps|] == steps;
    ClosedByCancel(s, steps);
  }

  /** Every cancellation falls between two sends. */
  predicate CancelsWhileIdle(s: Sub, steps: seq<Step>) {
    steps == [] ||
    (&& CancelsWhileIdle(s, steps[..|steps| - 1])
     && (steps[|steps| - 1].Cancel? ==>
          var before := RacyRun(s, steps[..|steps| - 1]);
          before.Some? && before.value.Running? && before.value.s.phase.Idle?))
  }

  /** Then nothing crashes, and the run is one of the machine with atomic cancellation. */
  lemma {:induction false} IdleCancelsAreAtomic(s: Sub, steps: seq<Step>)
    requires !s.closed && s.phase.Idle? && CancelsWhileIdle(s, steps) && RacyRun(s, steps).Some?
    ensures RacyRun(s, steps).value.Running? && Run(s, steps) == Some(RacyRun(s, steps).value.s)
    ensures RacyRun(s, steps).value.s.closed ==> RacyRun(s, steps).value.s.phase.Idle?
  {
    if steps != [] {
      IdleCancelsAreAtomic(s, steps[..|steps| - 1]);
    }
  }

  /** A cancellation right after the check of the first send. */
  lemma {:induction false} CancelCanCrash(ns: Bytes, key: Bytes, cap: int, ev: Event)
    requires Match(ns, key, ev)
    ensures RacyRun(NewSub(ns, key, cap), [Publish(ev), Cancel, TrySend]) == Some(Crashed)
  {
    var s := NewSub(ns, key, cap);
    var steps := [Publish(ev), Cancel];
    assert steps + [TrySend] == [Publish(ev), Cancel, TrySend];
    assert steps[..1] == [Publish(ev)] && steps[..1][..0] == [];
    assert RacyRun(s, []) == Some(Running(s));
    assert steps[1] == Cancel;
    CrashIff(s, steps, TrySend);
  }
}
