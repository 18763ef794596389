/** internal/watch: subscriptions fed through bounded channels, and the index of last events.

    A send consists of up to three separate non-blocking channel operations, and receivers may
    run between any two of them. One subscription is therefore a small machine whose steps are
    those operations; there is one publisher at a time, as every Publish happens under the hub's
    mutex. */
module Watch {
  import opened Base
  import opened Sequences
  import opened Meta

  const DEFAULT_BUF := 16
  const NUL: byte := 0

  function LastKey(ns: Bytes, key: Bytes): Bytes {
    ns + [NUL] + key
  }

  predicate Match(ns: Bytes, key: Bytes, ev: Event) {
    (ns == [] || ns == ev.ns) && (key == [] || key == ev.key)
  }

  /** Where the publisher is inside send: the three selects, or not sending. */
  datatype Phase = Idle | Trying(ev: Event) | Dropping(ev: Event) | Resending(ev: Event)

  /** An event that left the channel: dropped by the publisher, or received. */
  datatype Taken = Taken(ev: Event, dropped: bool)

  /** A subscription. The last three fields are its history: the matching events sent to it, what
      left its channel, and how often the final default of send was taken. */
  datatype Sub = Sub(
    ns: Bytes, key: Bytes, cap: nat, buf: seq<Event>, closed: bool, phase: Phase,
    published: seq<Event>, taken: seq<Taken>, lost: nat)

  datatype Step = Publish(ev: Event) | TrySend | DropOldest | Resend | Receive | Cancel

  /** One step, if it can be taken. */
  function Next(s: Sub, step: Step): Option<Sub> {
    match step
    case Publish(ev) =>
      if !s.phase.Idle? then None
      else if s.closed || !Match(s.ns, s.key, ev) then Some(s)
      else Some(s.(published := s.published + [ev], phase := Trying(ev)))
    case TrySend =>
      if !s.phase.Trying? then None
      else if |s.buf| < s.cap then Some(s.(buf := s.buf + [s.phase.ev], phase := Idle))
      else Some(s.(phase := Dropping(s.phase.ev)))
    case DropOldest =>
      if !s.phase.Dropping? then None
      else if s.buf == [] then Some(s.(phase := Resending(s.phase.ev)))
      else Some(s.(buf := s.buf[1..], taken := s.taken + [Taken(s.buf[0], true)], phase := Resending(s.phase.ev)))
    case Resend =>
      if !s.phase.Resending? then None
      else if |s.buf| < s.cap then Some(s.(buf := s.buf + [s.phase.ev], phase := Idle))
      else Some(s.(lost := s.lost + 1, phase := Idle))
    case Receive =>
      if s.buf == [] then None
      else Some(s.(buf := s.buf[1..], taken := s.taken + [Taken(s.buf[0], false)]))
    case Cancel =>
      if !s.phase.Idle? then None else Some(s.(closed := true))
  }

  /** A run: any interleaving of publisher, receivers and cancellation. */
  function Run(s: Sub, steps: seq<Step>): Option<Sub> {
    if steps == [] then Some(s)
    else match Run(s, steps[..|steps| - 1])
      case None => None
      case Some(t) => Next(t, steps[|steps| - 1])
  }

  function NewSub(ns: Bytes, key: Bytes, cap: int): Sub {
    Sub(ns, key, if cap < 1 then 1 else cap, [], false, Idle, [], [], 0)
  }

  // ----- What every run keeps -----

  function Pending(phase: Phase): seq<Event> {
    if phase.Idle? then [] else [phase.ev]
  }

  function Events(taken: seq<Taken>): seq<Event> {
    if taken == [] then [] else Events(taken[..|taken| - 1]) + [taken[|taken| - 1].ev]
  }

  function Received(taken: seq<Taken>): seq<Event> {
    if taken == [] then []
    else
      var last := taken[|taken| - 1];
      Received(taken[..|taken| - 1]) + if last.dropped then [] else [last.ev]
  }

  function Dropped(taken: seq<Taken>): nat {
    if taken == [] then 0
    else Dropped(taken[..|taken| - 1]) + if taken[|taken| - 1].dropped then 1 else 0
  }

  /** The buffer never exceeds its capacity; the final default of send is never taken; the events
      sent are those that left the channel, then those in the buffer, then the one on its way; and
      outside the gap between dropping and resending, the newest event has not been dropped. */
  predicate Safe(s: Sub) {
    && 1 <= s.cap && |s.buf| <= s.cap
    && s.lost == 0
    && (s.phase.Resending? ==> |s.buf| < s.cap)
    && s.published == Events(s.taken) + s.buf + Pending(s.phase)
    && (!s.phase.Resending? && s.buf == [] && s.taken != [] ==> !s.taken[|s.taken| - 1].dropped)
  }

  lemma {:induction false} TakeOne(s: Sub, dropped: bool)
    requires Safe(s) && s.buf != []
    ensures s.published == Events(s.taken + [Taken(s.buf[0], dropped)]) + s.buf[1..] + Pending(s.phase)
  {
    var t := Taken(s.buf[0], dropped);
    assert (s.taken + [t])[..|s.taken|] == s.taken;
    assert s.buf == [s.buf[0]] + s.buf[1..];
  }

  lemma {:induction false} StepIsSafe(s: Sub, step: Step)
    requires Safe(s) && Next(s, step).Some?
    ensures Safe(Next(s, step).value)
  {
    if step.Receive? || (step.DropOldest? && s.buf != []) {
      TakeOne(s, step.DropOldest?);
    }
  }

  lemma {:induction false} RunIsSafe(s: Sub, steps: seq<Step>)
    requires Safe(s) && Run(s, steps).Some?
    ensures Safe(Run(s, steps).value)
  {
    if steps != [] {
      RunIsSafe(s, steps[..|steps| - 1]);
      StepIsSafe(Run(s, steps[..|steps| - 1]).value, steps[|steps| - 1]);
    }
  }

  lemma {:induction false} TakenSplits(taken: seq<Taken>)
    ensures Subsequence(Received(taken), Events(taken))
    ensures |Events(taken)| == |taken| == |Received(taken)| + Dropped(taken)
  {
    if taken != [] {
      var init, last := taken[..|taken| - 1], taken[|taken| - 1];
      TakenSplits(init);
      SubsequenceExtend(Received(init), Events(init), [last.ev]);
      assert Received(init) + [] == Received(init);
    }
  }

  /** Delivery, for every interleaving: nothing is lost silently, what is received is in order, the
      buffer is the newest part of what was sent, and once a send is over the newest event is
      either still buffered or was the last one received. */
  lemma {:induction false} Delivery(ns: Bytes, key: Bytes, cap: int, steps: seq<Step>)
    requires Run(NewSub(ns, key, cap), steps).Some?
    ensures var s := Run(NewSub(ns, key, cap), steps).value;
            && s.lost == 0 && |s.buf| <= s.cap
            && |s.published| == |Received(s.taken)| + Dropped(s.taken) + |s.buf| + |Pending(s.phase)|
            && Subsequence(Received(s.taken) + s.buf, s.published)
            && (s.phase.Idle? ==>
              && s.published[|s.published| - |s.buf|..] == s.buf
              && (s.published != [] ==>
                var newest := s.published[|s.published| - 1];
                if s.buf != [] then s.buf[|s.buf| - 1] == newest
                else Received(s.taken) != [] && Received(s.taken)[|Received(s.taken)| - 1] == newest))
  {
    var s := Run(NewSub(ns, key, cap), steps).value;
    RunIsSafe(NewSub(ns, key, cap), steps);
    TakenSplits(s.taken);
    SubsequenceExtend(Received(s.taken), Events(s.taken), s.buf);
    SubsequenceExtend(Received(s.taken) + s.buf, Events(s.taken) + s.buf, Pending(s.phase));
    assert s.phase.Idle? ==> s.published == Events(s.taken) + s.buf;
  }

  /** After cancellation nothing is sent any more, whatever else happens. */
  lemma {:induction false} CancelStopsDelivery(s: Sub, steps: seq<Step>)
    requires s.closed && s.phase.Idle? && Run(s, steps).Some?
    ensures var t := Run(s, steps).value;
            t.closed && t.phase.Idle? && t.published == s.published && |t.buf| <= |s.buf|
  {
    if steps != [] {
      CancelStopsDelivery(s, steps[..|steps| - 1]);
    }
  }

  /** A publisher inside send is never blocked: its next step can always be taken, and three steps
      of its own end the send. */
  lemma {:induction false} SendNeverBlocks(s: Sub)
    ensures s.phase.Trying? ==> Next(s, TrySend).Some? && !Next(s, TrySend).value.phase.Trying?
    ensures s.phase.Dropping? ==> Next(s, DropOldest).Some? && Next(s, DropOldest).value.phase.Resending?
    ensures s.phase.Resending? ==> Next(s, Resend).Some? && Next(s, Resend).value.phase.Idle?
  {}

  // ----- What a subscription is sent -----

  /** The events a filter lets through, in order. */
  function Matching(ns: Bytes, key: Bytes, evs: seq<Event>): seq<Event> {
    if evs == [] then []
    else
      var last := evs[|evs| - 1];
      Matching(ns, key, evs[..|evs| - 1]) + if Match(ns, key, last) then [last] else []
  }

  /** Those of the namespace and key asked for, where an empty name asks for all. */
  lemma {:induction false} MatchingSelects(ns: Bytes, key: Bytes, evs: seq<Event>)
    ensures Selects(Matching(ns, key, evs), evs,
                    (ev: Event) => (ns != [] ==> ev.ns == ns) && (key != [] ==> ev.key == key))
  {
    var keep := (ev: Event) => (ns != [] ==> ev.ns == ns) && (key != [] ==> ev.key == key);
    hide Selects;
    if evs == [] {
      SelectsNone(keep);
    } else {
      var init, last := evs[..|evs| - 1], evs[|evs| - 1];
      MatchingSelects(ns, key, init);
      SelectsLast(Matching(ns, key, init), init, keep, last);
      assert evs == init + [last];
    }
  }

  predicate Cancelled(steps: seq<Step>) {
    Cancel in steps
  }

  /** What the publisher published during the steps, until a cancellation. */
  function PublishedBy(steps: seq<Step>): seq<Event> {
    if steps == [] then []
    else
      var init, last := steps[..|steps| - 1], steps[|steps| - 1];
      PublishedBy(init) + if last.Publish? && !Cancelled(init) then [last.ev] else []
  }

  /** For every interleaving, a subscription is sent exactly what was published since it began and
      until it was cancelled, as far as it matches, in order. */
  lemma {:induction false} SentIsMatching(s: Sub, steps: seq<Step>)
    requires Run(s, steps).Some?
    ensures var t := Run(s, steps).value;
            && t.ns == s.ns && t.key == s.key && t.cap == s.cap
            && t.closed == (s.closed || Cancelled(steps))
            && t.published == s.published + if s.closed then [] else Matching(s.ns, s.key, PublishedBy(steps))
  {
    hide Next, Match, Matching, PublishedBy, Cancelled;
    NothingPublished(s.ns, s.key);
    NothingMore(s.published);
    if steps != [] {
      var init, last := steps[..|steps| - 1], steps[|steps| - 1];
      assert steps == init + [last];
      var mid := Run(s, init).value;
      SentIsMatching(s, init);
      NextSends(mid, last);
      PublishedBySnoc(init, last);
      NothingMore(mid.published);
      NothingMore(PublishedBy(init));
      if last.Publish? && !mid.closed {
        MatchingSnoc(s.ns, s.key, PublishedBy(init), last.ev);
        var now := if Match(s.ns, s.key, last.ev) then [last.ev] else [];
        SumInAnyOrder(s.published, Matching(s.ns, s.key, PublishedBy(init)), now);
      }
    }
  }

  lemma {:induction false} NothingPublished(ns: Bytes, key: Bytes)
    ensures Matching(ns, key, PublishedBy([])) == [] && !Cancelled([])
  {}

  lemma {:induction false} NothingMore(evs: seq<Event>)
    ensures evs + [] == evs
  {}

  lemma {:induction false} SumInAnyOrder(x: seq<Event>, y: seq<Event>, z: seq<Event>)
    ensures x + (y + z) == (x + y) + z
  {}

  lemma {:induction false} NextSends(s: Sub, step: Step)
    requires Next(s, step).Some?
    ensures var t := Next(s, step).value;
            && t.ns == s.ns && t.key == s.key && t.cap == s.cap
            && t.closed == (s.closed || step == Cancel)
            && t.published == s.published +
                 if step.Publish? && !s.closed && Match(s.ns, s.key, step.ev) then [step.ev] else []
  {}

  lemma {:induction false} PublishedBySnoc(steps: seq<Step>, step: Step)
    ensures PublishedBy(steps + [step]) ==
            PublishedBy(steps) + if step.Publish? && !Cancelled(steps) then [step.ev] else []
    ensures Cancelled(steps + [step]) <==> Cancelled(steps) || step == Cancel
  {
    assert (steps + [step])[..|steps|] == steps;
  }

  lemma {:induction false} MatchingSnoc(ns: Bytes, key: Bytes, evs: seq<Event>, ev: Event)
    ensures Matching(ns, key, evs + [ev]) == Matching(ns, key, evs) + if Match(ns, key, ev) then [ev] else []
  {
    assert (evs + [ev])[..|evs|] == evs;
  }

  lemma {:induction false} OnePublished(steps: seq<Step>, ev: Event)
    requires steps != [] && steps[0] == Publish(ev)
    requires forall k :: 0 < k < |steps| ==> !steps[k].Publish? && !steps[k].Cancel?
    ensures PublishedBy(steps) == [ev] && !Cancelled(steps)
  {
    var init, last := steps[..|steps| - 1], steps[|steps| - 1];
    assert steps == init + [last];
    if init == [] {
      assert PublishedBy(init) == [];
    } else {
      OnePublished(init, ev);
    }
  }

  // ----- send, with receivers running in between -----

  lemma {:induction false} RunSnoc(s: Sub, steps: seq<Step>, step: Step)
    ensures Run(s, steps + [step]) == match Run(s, steps) case None => None case Some(t) => Next(t, step)
  {
    assert (steps + [step])[..|steps|] == steps;
  }

  lemma {:induction false} RunOne(s: Sub, step: Step)
    ensures Run(s, [step]) == Next(s, step)
  {
    RunSnoc(s, [], step);
    assert [] + [step] == [step];
  }

  /** Any number of receives. */
  method Receivers(ghost s0: Sub, s: Sub, ghost steps: seq<Step>) returns (t: Sub, ghost steps': seq<Step>)
    requires Run(s0, steps) == Some(s)
    ensures Run(s0, steps') == Some(t) && steps <= steps'
    ensures t.phase == s.phase && t.closed == s.closed && t.cap == s.cap
    ensures forall k :: |steps| <= k < |steps'| ==> steps'[k] == Receive
  {
    t, steps' := s, steps;
    var n :| 0 <= n <= |s.buf|;
    for i := 0 to n
      invariant Run(s0, steps') == Some(t) && steps <= steps'
      invariant t.phase == s.phase && t.closed == s.closed && t.cap == s.cap && |t.buf| == |s.buf| - i
      invariant forall k :: |steps| <= k < |steps'| ==> steps'[k] == Receive
    {
      RunSnoc(s0, steps', Receive);
      t := t.(buf := t.buf[1..], taken := t.taken + [Taken(t.buf[0], false)]);
      steps' := steps' + [Receive];
    }
  }

  /** Exactly one event was published on the way from s to t, and its send is over. */
  ghost predicate Sent(s: Sub, ev: Event, t: Sub) {
    exists steps: seq<Step> ::
      && steps != [] && steps[0] == Publish(ev)
      && (forall k :: 0 < k < |steps| ==> !steps[k].Publish? && !steps[k].Cancel?)
      && Run(s, steps) == Some(t) && t.phase.Idle?
  }

  lemma {:induction false} SentFrom(s: Sub, ev: Event, t: Sub, steps: seq<Step>)
    requires steps != [] && steps[0] == Publish(ev)
    requires forall k :: 0 < k < |steps| ==> !steps[k].Publish? && !steps[k].Cancel?
    requires Run(s, steps) == Some(t) && t.phase.Idle?
    ensures Sent(s, ev, t)
  {}

  method Send(s: Sub, ev: Event) returns (t: Sub)
    requires Safe(s) && s.phase.Idle?
    ensures Sent(s, ev, t) && Safe(t)
  {
    hide Run, Sent, Match, Events;
    ghost var steps := [Publish(ev)];
    RunOne(s, Publish(ev));
    if s.closed || !Match(s.ns, s.key, ev) {
      SentFrom(s, ev, s, steps);
      return s;
    }
    t := s.(published := s.published + [ev], phase := Trying(ev));
    t, steps := Receivers(s, t, steps);
    RunSnoc(s, steps, TrySend);
    steps := steps + [TrySend];
    if |t.buf| < t.cap {
      t := t.(buf := t.buf + [ev], phase := Idle);
    } else {
      t := t.(phase := Dropping(ev));
      t, steps := Receivers(s, t, steps);
      RunSnoc(s, steps, DropOldest);
      steps := steps + [DropOldest];
      if t.buf != [] {
        t := t.(buf := t.buf[1..], taken := t.taken + [Taken(t.buf[0], true)]);
      }
      t := t.(phase := Resending(ev));
      t, steps := Receivers(s, t, steps);
      RunIsSafe(s, steps);
      RunSnoc(s, steps, Resend);
      steps := steps + [Resend];
      if |t.buf| < t.cap {
        t := t.(buf := t.buf + [ev], phase := Idle);
      } else {
        // The source drops the new event here.
        assert false;
      }
    }
    RunIsSafe(s, steps);
    SentFrom(s, ev, t, steps);
  }

  // ----- hub.go -----

  /** The index of last events after evs have been published. */
  function LastAfter(last: map<Bytes, Event>, evs: seq<Event>): map<Bytes, Event> {
    if evs == [] then last
    else
      var ev := evs[|evs| - 1];
      LastAfter(last, evs[..|evs| - 1])[LastKey(ev.ns, ev.key) := ev]
  }

  lemma {:induction false} LastAfterSnoc(last: map<Bytes, Event>, evs: seq<Event>, ev: Event)
    ensures LastAfter(last, evs + [ev]) == LastAfter(last, evs)[LastKey(ev.ns, ev.key) := ev]
  {
    assert (evs + [ev])[..|evs|] == evs;
  }

  /** The index holds the latest event of each name. */
  lemma {:induction false} LatestIsIndexed(last: map<Bytes, Event>, evs: seq<Event>, i: nat)
    requires i < |evs|
    requires forall j :: i < j < |evs| ==> LastKey(evs[j].ns, evs[j].key) != LastKey(evs[i].ns, evs[i].key)
    ensures var id := LastKey(evs[i].ns, evs[i].key);
            id in LastAfter(last, evs) && LastAfter(last, evs)[id] == evs[i]
  {
    hide LastKey;
    if i < |evs| - 1 {
      LatestIsIndexed(last, evs[..|evs| - 1], i);
    }
  }

  class WatchHub {
    var next: nat
    var subs: map<nat, Sub>
    var last: map<Bytes, Event>

    // Everything published so far, and how much of it each subscription came too late for.
    ghost var history: seq<Event>
    ghost var joined: map<nat, nat>

    ghost predicate Valid()
      reads this
    {
      && (forall id :: id in subs ==> id <= next && Safe(subs[id]) && subs[id].phase.Idle? && !subs[id].closed)
      && last == LastAfter(map[], history)
      && forall id :: id in subs ==> id in joined && SentAll(subs[id], history, joined[id])
    }

    constructor ()
      ensures Valid() && subs == map[] && last == map[] && history == []
    {
      next, subs, last := 0, map[], map[];
      history, joined := [], map[];
    }

    method SubscribeBuf(ns: Bytes, key: Bytes, buf: int) returns (id: nat)
      requires Valid()
      modifies this
      ensures Valid() && id !in old(subs) && last == old(last) && history == old(history)
      ensures subs == old(subs)[id := NewSub(ns, key, buf)] && joined == old(joined)[id := |history|]
    {
      next := next + 1;
      id := next;
      subs := subs[id := NewSub(ns, key, buf)];
      joined := joined[id := |history|];
      assert history[|history|..] == [];
    }

    method Subscribe(ns: Bytes, key: Bytes) returns (id: nat)
      requires Valid()
      modifies this
      ensures Valid() && id !in old(subs) && last == old(last) && history == old(history)
      ensures subs == old(subs)[id := NewSub(ns, key, DEFAULT_BUF)] && joined == old(joined)[id := |history|]
    {
      id := SubscribeBuf(ns, key, DEFAULT_BUF);
    }

    /** What a subscriber takes off its channel, if anything is there. */
    method Receive(id: nat) returns (ev: Option<Event>)
      requires Valid() && id in subs
      modifies this
      ensures Valid() && last == old(last) && history == old(history) && joined == old(joined)
      ensures ev == if old(subs)[id].buf == [] then None else Some(old(subs)[id].buf[0])
      ensures ev.None? ==> subs == old(subs)
      ensures ev.Some? ==> subs == old(subs)[id := Next(old(subs)[id], Step.Receive).value]
    {
      hide Safe, SentAll;
      var s := subs[id];
      if s.buf == [] {
        return None;
      }
      var t := s.(buf := s.buf[1..], taken := s.taken + [Taken(s.buf[0], false)]);
      StepIsSafe(s, Step.Receive);
      SentAllKept(s, t, history, joined[id]);
      subs := subs[id := t];
      ev := Some(s.buf[0]);
    }

    method Unsubscribe(id: nat)
      requires Valid()
      modifies this
      ensures Valid() && subs == old(subs) - {id} && last == old(last) && history == old(history)
    {
      subs := subs - {id};
    }

    method Publish(ev: Event)
      requires Valid()
      modifies this
      ensures Valid() && last == old(last)[LastKey(ev.ns, ev.key) := ev]
      ensures history == old(history) + [ev] && joined == old(joined)
      ensures subs.Keys == old(subs).Keys
      ensures forall id :: id in subs ==> Sent(old(subs)[id], ev, subs[id])
    {
      hide Safe, Sent, SentAll, Served, LastKey, LastAfter;
      last := last[LastKey(ev.ns, ev.key) := ev];
      history := history + [ev];
      LastAfterSnoc(map[], old(history), ev);
      var left := subs.Keys;
      while left != {}
        invariant left <= subs.Keys == old(subs).Keys && next == old(next) && joined == old(joined)
        invariant last == old(last)[LastKey(ev.ns, ev.key) := ev] && history == old(history) + [ev]
        invariant forall id :: id in left ==> subs[id] == old(subs)[id]
        invariant forall id :: id in subs && id !in left ==> Served(old(subs)[id], ev, subs[id], history, joined[id])
      {
        var id :| id in left;
        var sent := Send(subs[id], ev);
        ServedBySend(subs[id], ev, sent, old(history), joined[id]);
        subs := subs[id := sent];
        left := left - {id};
      }
      forall id | id in subs
        ensures Sent(old(subs)[id], ev, subs[id]) && Safe(subs[id]) && subs[id].phase.Idle? && !subs[id].closed
        ensures SentAll(subs[id], history, joined[id])
      {
        ServedMeans(old(subs)[id], ev, subs[id], history, joined[id]);
      }
    }

    method Last(ns: Bytes, key: Bytes) returns (ev: Option<Event>)
      ensures ev == if LastKey(ns, key) in last then Some(last[LastKey(ns, key)]) else None
    {
      ev := if LastKey(ns, key) in last then Some(last[LastKey(ns, key)]) else None;
    }

    method Close()
      requires Valid()
      modifies this
      ensures Valid() && subs == map[] && last == old(last) && history == old(history)
    {
      subs := map[];
    }
  }

  /** What was sent to s is what was published after the first from events, as far as it matches. */
  ghost predicate SentAll(s: Sub, history: seq<Event>, from: nat) {
    from <= |history| && s.published == Matching(s.ns, s.key, history[from..])
  }

  /** One more event has been sent to s, and it is ready for the next. */
  ghost predicate Served(s: Sub, ev: Event, t: Sub, history: seq<Event>, from: nat) {
    Sent(s, ev, t) && Safe(t) && t.phase.Idle? && !t.closed && SentAll(t, history, from)
  }

  lemma {:induction false} ServedBySend(s: Sub, ev: Event, t: Sub, history: seq<Event>, from: nat)
    requires Sent(s, ev, t) && Safe(t) && !s.closed && SentAll(s, history, from)
    ensures Served(s, ev, t, history + [ev], from)
  {
    hide Safe, Sent, SentAll;
    SentKeepsOpen(s, ev, t);
    SentOneMore(s, ev, t, history, from);
  }

  lemma {:induction false} ServedMeans(s: Sub, ev: Event, t: Sub, history: seq<Event>, from: nat)
    requires Served(s, ev, t, history, from)
    ensures Sent(s, ev, t) && Safe(t) && t.phase.Idle? && !t.closed && SentAll(t, history, from)
  {}

  lemma {:induction false} SentAllKept(s: Sub, t: Sub, history: seq<Event>, from: nat)
    requires SentAll(s, history, from) && t.ns == s.ns && t.key == s.key && t.published == s.published
    ensures SentAll(t, history, from)
  {}

  lemma {:induction false} SentOneMore(s: Sub, ev: Event, t: Sub, history: seq<Event>, from: nat)
    requires Sent(s, ev, t) && !s.closed && SentAll(s, history, from)
    ensures SentAll(t, history + [ev], from)
  {
    hide Sent, Matching, Match;
    SentPublishes(s, ev, t);
    SuffixSnoc(history, ev, from);
    MatchingSnoc(s.ns, s.key, history[from..], ev);
  }

  lemma {:induction false} SuffixSnoc(history: seq<Event>, ev: Event, from: nat)
    requires from <= |history|
    ensures (history + [ev])[from..] == history[from..] + [ev]
  {}

  lemma {:induction false} SentPublishes(s: Sub, ev: Event, t: Sub)
    requires Sent(s, ev, t) && !s.closed
    ensures t.ns == s.ns && t.key == s.key
    ensures t.published == s.published + if Match(s.ns, s.key, ev) then [ev] else []
  {
    var steps: seq<Step> :|
      && steps != [] && steps[0] == Publish(ev)
      && (forall k :: 0 < k < |steps| ==> !steps[k].Publish? && !steps[k].Cancel?)
      && Run(s, steps) == Some(t) && t.phase.Idle?;
    hide Run, Matching, Match, Cancelled, PublishedBy;
    OnePublished(steps, ev);
    SentIsMatching(s, steps);
    MatchingOne(s.ns, s.key, ev);
  }

  lemma {:induction false} MatchingOne(ns: Bytes, key: Bytes, ev: Event)
    ensures Matching(ns, key, [ev]) == if Match(ns, key, ev) then [ev] else []
  {
    assert [ev][..0] == [];
  }

  lemma {:induction false} SentKeepsOpen(s: Sub, ev: Event, t: Sub)
    requires Sent(s, ev, t) && !s.closed
    ensures !t.closed && t.phase.Idle?
  {
    var steps: seq<Step> :|
      && steps != [] && steps[0] == Publish(ev)
      && (forall k :: 0 < k < |steps| ==> !steps[k].Publish? && !steps[k].Cancel?)
      && Run(s, steps) == Some(t) && t.phase.Idle?;
    WithoutCancelOpen(s, steps);
  }

  lemma {:induction false} WithoutCancelOpen(s: Sub, steps: seq<Step>)
    requires !s.closed && Run(s, steps).Some? && forall k :: 0 <= k < |steps| ==> !steps[k].Cancel?
    ensures !Run(s, steps).value.closed
  {
    if steps != [] {
      WithoutCancelOpen(s, steps[..|steps| - 1]);
    }
  }
}
