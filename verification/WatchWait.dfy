/** internal/watch/hub.go: Wait, the long poll. It looks at the last event known, subscribes, receives
    until a newer event arrives or the timer fires, and then looks once more. */
module WatchWait {
  import opened Base
  import opened Meta
  import opened Watch

  /** What a waiting caller sees: an event on its channel, the channel closed, or the timer, with
      the last event known at that moment. */
  datatype Arrival = Delivered(ev: Event) | ChannelClosed | TimerFired(last: Option<Event>)

  /** The event a subscribed caller comes back with, if any. */
  function WaitOutcome(since: int, arrivals: seq<Arrival>): (r: Option<Event>)
    ensures r.Some? ==> r.value.rev > since
  {
    if arrivals == [] then None
    else match arrivals[0]
      case Delivered(ev) => if ev.rev > since then Some(ev) else WaitOutcome(since, arrivals[1..])
      case ChannelClosed => None
      case TimerFired(last) => if last.Some? && last.value.rev > since then last else None
  }

  function Look(last: map<Bytes, Event>, ns: Bytes, key: Bytes): Option<Event> {
    if LastKey(ns, key) in last then Some(last[LastKey(ns, key)]) else None
  }

  /** The index knows no event newer than since under exactly this name. */
  predicate Stale(last: map<Bytes, Event>, ns: Bytes, key: Bytes, since: int) {
    Look(last, ns, key).Some? ==> Look(last, ns, key).value.rev <= since
  }

  function WaitResult(last: map<Bytes, Event>, ns: Bytes, key: Bytes, since: int, arrivals: seq<Arrival>): Option<Event> {
    if Stale(last, ns, key, since) then WaitOutcome(since, arrivals) else Look(last, ns, key)
  }

  /** A newer event that is already known ends the wait at once. */
  method Wait(h: WatchHub, ns: Bytes, key: Bytes, since: int, arrivals: seq<Arrival>) returns (r: Option<Event>)
    ensures r == WaitResult(h.last, ns, key, since, arrivals)
    ensures r.Some? ==> r.value.rev > since
  {
    var last := h.Last(ns, key);
    if last.Some? && last.value.rev > since {
      return last;
    }
    var i := 0;
    assert arrivals[0..] == arrivals;
    while i < |arrivals|
      invariant 0 <= i <= |arrivals|
      invariant WaitOutcome(since, arrivals) == WaitOutcome(since, arrivals[i..])
    {
      assert arrivals[i..][1..] == arrivals[i + 1..];
      match arrivals[i] {
        case Delivered(ev) =>
          if ev.rev > since {
            return Some(ev);
          }
        case ChannelClosed =>
          return None;
        case TimerFired(known) =>
          return if known.Some? && known.value.rev > since then known else None;
      }
      i := i + 1;
    }
    r := None;
  }

  /** Events that carry no newer revision, such as rollbacks, do not end a wait. */
  lemma {:induction false} OldEventsDoNotWake(since: int, stale: seq<Arrival>, rest: seq<Arrival>)
    requires forall a :: a in stale ==> a.Delivered? && a.ev.rev <= since
    ensures WaitOutcome(since, stale + rest) == WaitOutcome(since, rest)
  {
    if stale == [] {
      assert stale + rest == rest;
    } else {
      assert stale[0] in stale;
      assert (stale + rest)[1..] == stale[1..] + rest;
      OldEventsDoNotWake(since, stale[1..], rest);
    }
  }

  /** The first arrival that is not an old event decides: a newer event is what the wait returns, a closed
      channel ends it, and the timer returns the last event if that is newer. */
  lemma {:induction false} FirstNewsDecides(since: int, arrivals: seq<Arrival>, i: nat)
    requires i < |arrivals| && forall j :: 0 <= j < i ==> arrivals[j].Delivered? && arrivals[j].ev.rev <= since
    ensures var a := arrivals[i];
            && (a.Delivered? && a.ev.rev > since ==> WaitOutcome(since, arrivals) == Some(a.ev))
            && (a.ChannelClosed? ==> WaitOutcome(since, arrivals) == None)
            && (a.TimerFired? && a.last.Some? && a.last.value.rev > since ==> WaitOutcome(since, arrivals) == a.last)
            && (a.TimerFired? && (a.last.None? || a.last.value.rev <= since) ==> WaitOutcome(since, arrivals) == None)
  {
    var stale, rest := arrivals[..i], arrivals[i..];
    assert arrivals == stale + rest && rest[0] == arrivals[i];
    OldEventsDoNotWake(since, stale, rest);
  }

  // ----- A wait among publishers -----

  /** What a caller sees whose channel delivers evs before the timer fires. */
  function Arrivals(evs: seq<Event>, atTimer: Option<Event>): seq<Arrival> {
    seq(|evs|, i requires 0 <= i < |evs| => Delivered(evs[i])) + [TimerFired(atTimer)]
  }

  lemma {:induction false} TimesOutIff(since: int, evs: seq<Event>, atTimer: Option<Event>)
    ensures WaitOutcome(since, Arrivals(evs, atTimer)).None? <==>
            (forall ev :: ev in evs ==> ev.rev <= since) && (atTimer.Some? ==> atTimer.value.rev <= since)
  {
    if evs != [] {
      TimesOutIff(since, evs[1..], atTimer);
      assert Arrivals(evs, atTimer)[1..] == Arrivals(evs[1..], atTimer);
      assert evs == [evs[0]] + evs[1..];
    }
  }

  /** One interleaving of the publisher with the caller's receives, from Subscribe until the timer
      fires, while live is being published. The last event may be known to the index already and
      still be on its way to the channel. */
  ghost predicate Schedule(ns: Bytes, key: Bytes, live: seq<Event>, steps: seq<Step>) {
    && Run(NewSub(ns, key, DEFAULT_BUF), steps).Some? && !Cancelled(steps)
    && PublishedBy(steps) <= live && |live| <= |PublishedBy(steps)| + 1
  }

  ghost function ReceivedIn(ns: Bytes, key: Bytes, live: seq<Event>, steps: seq<Step>): seq<Event>
    requires Schedule(ns, key, live, steps)
  {
    Received(Run(NewSub(ns, key, DEFAULT_BUF), steps).value.taken)
  }

  /** The result of a wait that starts when the index is last; gap is published between the first
      look at the index and Subscribe, live between Subscribe and the timer. */
  ghost function ResultOf(
      last: map<Bytes, Event>, ns: Bytes, key: Bytes, since: int, gap: seq<Event>, live: seq<Event>,
      steps: seq<Step>): Option<Event>
    requires Schedule(ns, key, live, steps)
  {
    WaitResult(last, ns, key, since, Arrivals(ReceivedIn(ns, key, live, steps), Look(LastAfter(last, gap + live), ns, key)))
  }

  lemma {:induction false} MatchingMembers(ns: Bytes, key: Bytes, evs: seq<Event>)
    ensures forall ev :: ev in Matching(ns, key, evs) <==> ev in evs && Match(ns, key, ev)
  {
    if evs != [] {
      var init, last := evs[..|evs| - 1], evs[|evs| - 1];
      MatchingMembers(ns, key, init);
      assert evs == init + [last];
    }
  }

  lemma {:induction false} ReceivedAmongEvents(taken: seq<Taken>)
    ensures forall ev :: ev in Received(taken) ==> ev in Events(taken)
  {
    if taken != [] {
      ReceivedAmongEvents(taken[..|taken| - 1]);
    }
  }

  /** Only matching events of live are received. */
  lemma {:induction false} ReceivedAreLive(ns: Bytes, key: Bytes, live: seq<Event>, steps: seq<Step>)
    requires Schedule(ns, key, live, steps)
    ensures forall ev :: ev in ReceivedIn(ns, key, live, steps) ==> ev in Matching(ns, key, live)
  {
    hide Run, Match, Matching, Events, Received, PublishedBy;
    var s := NewSub(ns, key, DEFAULT_BUF);
    var t := Run(s, steps).value;
    NewIsSafe(ns, key, DEFAULT_BUF);
    RunIsSafe(s, steps);
    SentIsMatching(s, steps);
    ReceivedAmongEvents(t.taken);
    MatchingMembers(ns, key, PublishedBy(steps));
    MatchingMembers(ns, key, live);
    assert [] + Matching(ns, key, PublishedBy(steps)) == Matching(ns, key, PublishedBy(steps));
    forall ev | ev in Received(t.taken)
      ensures ev in Matching(ns, key, live)
    {
      assert ev in t.published;
      assert ev in live;
    }
  }

  lemma {:induction false} NewIsSafe(ns: Bytes, key: Bytes, cap: int)
    ensures Safe(NewSub(ns, key, cap))
  {}

  // ----- Two schedules -----

  /** steps lead to t, and publish evs on the way. */
  ghost predicate On(s: Sub, evs: seq<Event>, steps: seq<Step>, t: Sub) {
    Run(s, steps) == Some(t) && !Cancelled(steps) && PublishedBy(steps) == evs
  }

  lemma {:induction false} NoStepsYet(s: Sub)
    ensures On(s, [], [], s)
  {}

  lemma {:induction false} StepOn(s: Sub, evs: seq<Event>, steps: seq<Step>, t: Sub, step: Step)
    requires On(s, evs, steps, t) && !step.Cancel? && Next(t, step).Some?
    ensures On(s, if step.Publish? then evs + [step.ev] else evs, steps + [step], Next(t, step).value)
  {
    RunSnoc(s, steps, step);
    PublishedBySnoc(steps, step);
    assert PublishedBy(steps) + [] == PublishedBy(steps);
  }

  /** Between two sends. */
  predicate Resting(t: Sub, ns: Bytes, key: Bytes) {
    t.phase.Idle? && !t.closed && t.ns == ns && t.key == key && 1 <= t.cap && |t.buf| <= t.cap
  }

  lemma {:induction false} TakenOnce(taken: seq<Taken>, ev: Event)
    ensures Received(taken + [Taken(ev, true)]) == Received(taken)
    ensures Received(taken + [Taken(ev, false)]) == Received(taken) + [ev]
  {
    assert (taken + [Taken(ev, true)])[..|taken|] == taken && (taken + [Taken(ev, false)])[..|taken|] == taken;
  }

  /** One more event is sent, and nothing received. */
  lemma {:induction false} QuietSend(s: Sub, evs: seq<Event>, steps: seq<Step>, t: Sub, ev: Event)
    returns (steps': seq<Step>, t': Sub)
    requires On(s, evs, steps, t) && Resting(t, t.ns, t.key)
    ensures On(s, evs + [ev], steps', t') && Resting(t', t.ns, t.key) && Received(t'.taken) == Received(t.taken)
  {
    hide On, Received;
    StepOn(s, evs, steps, t, Publish(ev));
    t', steps' := Next(t, Publish(ev)).value, steps + [Publish(ev)];
    if Match(t.ns, t.key, ev) {
      StepOn(s, evs + [ev], steps', t', TrySend);
      t', steps' := Next(t', TrySend).value, steps' + [TrySend];
      if t'.phase.Dropping? {
        StepOn(s, evs + [ev], steps', t', DropOldest);
        TakenOnce(t'.taken, t'.buf[0]);
        t', steps' := Next(t', DropOldest).value, steps' + [DropOldest];
        StepOn(s, evs + [ev], steps', t', Resend);
        t', steps' := Next(t', Resend).value, steps' + [Resend];
      }
    }
  }

  /** One more event is sent, and received at once. */
  lemma {:induction false} EagerSend(s: Sub, evs: seq<Event>, steps: seq<Step>, t: Sub, ev: Event)
    returns (steps': seq<Step>, t': Sub)
    requires On(s, evs, steps, t) && Resting(t, t.ns, t.key) && t.buf == []
    ensures On(s, evs + [ev], steps', t') && Resting(t', t.ns, t.key) && t'.buf == []
    ensures Received(t'.taken) == Received(t.taken) + if Match(t.ns, t.key, ev) then [ev] else []
  {
    hide On, Received;
    StepOn(s, evs, steps, t, Publish(ev));
    t', steps' := Next(t, Publish(ev)).value, steps + [Publish(ev)];
    if Match(t.ns, t.key, ev) {
      StepOn(s, evs + [ev], steps', t', TrySend);
      t', steps' := Next(t', TrySend).value, steps' + [TrySend];
      StepOn(s, evs + [ev], steps', t', Step.Receive);
      TakenOnce(t'.taken, ev);
      t', steps' := Next(t', Step.Receive).value, steps' + [Step.Receive];
    }
  }

  /** A caller that receives nothing while evs is published. */
  lemma {:induction false} QuietSchedule(ns: Bytes, key: Bytes, evs: seq<Event>) returns (steps: seq<Step>, t: Sub)
    ensures On(NewSub(ns, key, DEFAULT_BUF), evs, steps, t) && Resting(t, ns, key) && Received(t.taken) == []
  {
    hide On;
    var s := NewSub(ns, key, DEFAULT_BUF);
    if evs == [] {
      NoStepsYet(s);
      steps, t := [], s;
    } else {
      var init, ev := evs[..|evs| - 1], evs[|evs| - 1];
      assert evs == init + [ev];
      steps, t := QuietSchedule(ns, key, init);
      steps, t := QuietSend(s, init, steps, t, ev);
    }
  }

  /** A caller that receives each event as soon as it is sent. */
  lemma {:induction false} EagerSchedule(ns: Bytes, key: Bytes, evs: seq<Event>) returns (steps: seq<Step>, t: Sub)
    ensures On(NewSub(ns, key, DEFAULT_BUF), evs, steps, t) && Resting(t, ns, key) && t.buf == []
    ensures Received(t.taken) == Matching(ns, key, evs)
  {
    hide On;
    var s := NewSub(ns, key, DEFAULT_BUF);
    if evs == [] {
      NoStepsYet(s);
      steps, t := [], s;
    } else {
      var init, ev := evs[..|evs| - 1], evs[|evs| - 1];
      assert evs == init + [ev];
      steps, t := EagerSchedule(ns, key, init);
      steps, t := EagerSend(s, init, steps, t, ev);
    }
  }

  // ----- When a wait times out -----

  /** A wait can time out exactly when the index knew nothing newer at the first look and knows
      nothing newer when the timer fires. A newer event in between does not prevent that, if the
      key's last event carries an older revision again. */
  lemma {:induction false} WaitCanTimeOutIff(
      last: map<Bytes, Event>, ns: Bytes, key: Bytes, since: int, gap: seq<Event>, live: seq<Event>)
    ensures (exists steps :: Schedule(ns, key, live, steps) && ResultOf(last, ns, key, since, gap, live, steps).None?)
            <==> Stale(last, ns, key, since) && Stale(LastAfter(last, gap + live), ns, key, since)
  {
    hide LastAfter, Run, Received, PublishedBy, Cancelled, Arrivals, WaitOutcome;
    var atTimer := Look(LastAfter(last, gap + live), ns, key);
    if steps :| Schedule(ns, key, live, steps) && ResultOf(last, ns, key, since, gap, live, steps).None? {
      TimesOutIff(since, ReceivedIn(ns, key, live, steps), atTimer);
    }
    var quiet, t := QuietSchedule(ns, key, live);
    assert Schedule(ns, key, live, quiet);
    TimesOutIff(since, Received(t.taken), atTimer);
  }

  /** It times out whatever the interleaving exactly when, in addition, no newer event was
      published while it was subscribed. What falls into the gap before Subscribe never arrives. */
  lemma {:induction false} WaitMustTimeOutIff(
      last: map<Bytes, Event>, ns: Bytes, key: Bytes, since: int, gap: seq<Event>, live: seq<Event>)
    ensures (forall steps :: Schedule(ns, key, live, steps) ==> ResultOf(last, ns, key, since, gap, live, steps).None?)
            <==>
            && Stale(last, ns, key, since) && Stale(LastAfter(last, gap + live), ns, key, since)
            && forall ev :: ev in Matching(ns, key, live) ==> ev.rev <= since
  {
    hide LastAfter, Run, Received, PublishedBy, Cancelled, Matching, Arrivals, WaitOutcome;
    var atTimer := Look(LastAfter(last, gap + live), ns, key);
    forall steps | Schedule(ns, key, live, steps)
      ensures WaitOutcome(since, Arrivals(ReceivedIn(ns, key, live, steps), atTimer)).None? <==>
              (forall ev :: ev in ReceivedIn(ns, key, live, steps) ==> ev.rev <= since)
              && Stale(LastAfter(last, gap + live), ns, key, since)
      ensures forall ev :: ev in ReceivedIn(ns, key, live, steps) ==> ev in Matching(ns, key, live)
    {
      TimesOutIff(since, ReceivedIn(ns, key, live, steps), atTimer);
      ReceivedAreLive(ns, key, live, steps);
    }
    var eager, t := EagerSchedule(ns, key, live);
    assert Schedule(ns, key, live, eager);
  }

  /** A newer event in the gap, followed by a rollback below it, is missed by every interleaving. */
  lemma {:induction false} GapEventCanBeMissed(ns: Bytes, key: Bytes, kind: Bytes, steps: seq<Step>)
    requires Schedule(ns, key, [], steps)
    ensures ResultOf(map[], ns, key, 1, [Event(ns, key, 2, kind), Event(ns, key, 1, KIND_ROLLBACK)], [], steps).None?
  {
    var gap := [Event(ns, key, 2, kind), Event(ns, key, 1, KIND_ROLLBACK)];
    assert gap + [] == gap;
    assert Look(LastAfter(map[], gap), ns, key) == Some(gap[1]);
    WaitMustTimeOutIff(map[], ns, key, 1, gap, []);
  }

  /** The index holds no event under a name without a key, so a wait for a whole namespace depends on
      its channel alone: it times out whatever the interleaving exactly when nothing newer was
      published while it was subscribed, no matter what fell into the gap. */
  lemma {:induction false} NamespaceWaitIgnoresGap(
      last: map<Bytes, Event>, ns: Bytes, since: int, gap: seq<Event>, live: seq<Event>)
    requires LastKey(ns, []) !in last
    requires forall ev :: ev in gap + live ==> ev.key != [] && NUL !in ev.key
    ensures (forall steps :: Schedule(ns, [], live, steps) ==> ResultOf(last, ns, [], since, gap, live, steps).None?)
            <==> forall ev :: ev in Matching(ns, [], live) ==> ev.rev <= since
  {
    NoKeylessEvent(last, ns, gap + live);
    WaitMustTimeOutIff(last, ns, [], since, gap, live);
  }

  lemma {:induction false} NoKeylessEvent(last: map<Bytes, Event>, ns: Bytes, evs: seq<Event>)
    requires LastKey(ns, []) !in last
    requires forall ev :: ev in evs ==> ev.key != [] && NUL !in ev.key
    ensures LastKey(ns, []) !in LastAfter(last, evs)
  {
    if evs != [] {
      var ev := evs[|evs| - 1];
      NoKeylessEvent(last, ns, evs[..|evs| - 1]);
      assert ev in evs && ev.key[|ev.key| - 1] in ev.key;
      var id := LastKey(ev.ns, ev.key);
      assert id[|id| - 1] == ev.key[|ev.key| - 1];
      assert LastKey(ns, [])[|LastKey(ns, [])| - 1] == NUL;
    }
  }
}
