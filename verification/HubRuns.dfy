/** Safety of the hub over whole runs. */
module HubRuns {
  import opened Base
  import opened Meta
  import opened StoreEntry
  import opened StoreMemory
  import opened Quota
  import opened Access
  import opened HubModel
  import opened HubInvariants
  import Gray
  import Signing
  import Watch

  // ----- What a call does to the store and the watch index -----

  ghost predicate AllValid(s: HubState) {
    forall id :: id in s.entries ==> ValidChain(s.entries[id])
  }

  /** e is stored under its name and its new head published. */
  ghost predicate Writes(s: HubState, e: Entry, kind: Bytes, t: HubState) {
    var id := NsKey(e.ns, e.key);
    && (id in s.entries ==> s.entries[id].ns == e.ns && s.entries[id].key == e.key)
    && t.entries == s.entries[id := e]
    && t.last == Published(s.last, e.ns, e.key, kind, e.head)
  }

  ghost function VersionsUnder(s: HubState, ns: Bytes, key: Bytes): seq<VersionMeta> {
    if NsKey(ns, key) in s.entries then s.entries[NsKey(ns, key)].versions else []
  }

  lemma {:induction false} PutEffect(
      cfg: Config, s: HubState, ns: Bytes, key: Bytes, payload: Bytes, opts: PutOptions, order: seq<Bytes>,
      now: int, auditNow: int)
    requires Gray.Visits(order, opts.gray)
    requires Inv(s) && AllValid(s)
    ensures var (t, r) := Put(cfg, s, ns, key, payload, opts, order, now, auditNow);
            var a := Admission(cfg, s, ns, key, payload, opts, order, now);
            && (r.Ok? <==> a.Admit?)
            && (r.Err? ==> t.entries == s.entries && t.last == s.last)
            && (r.Ok? ==>
              && NsKey(ns, key) in t.entries
              && var e := t.entries[NsKey(ns, key)];
                && e.ns == ns && e.key == key && Writes(s, e, KIND_PUBLISH, t)
                && e.versions == VersionsUnder(s, ns, key) + [a.v] && r.value == e.head == |e.versions|
                && a.v.rev == |e.versions|
                && (if NsKey(ns, key) in s.entries then Appended(s.entries[NsKey(ns, key)], a.v)
                    else Created(ns, key, a.v)) == Ok(e))
  {
    hide Inv, Admission, Put, RegistryInv, StoreInv, NextRevOf, NsKey, Appended, Created, ValidChain, PayloadBytes,
      Watch.LastKey;
    PutOutcome(cfg, s, ns, key, payload, opts, order, now, auditNow);
    if Admission(cfg, s, ns, key, payload, opts, order, now).Admit? {
      var v := Admission(cfg, s, ns, key, payload, opts, order, now).v;
      Admitted(cfg, s, ns, key, payload, opts, order, now);
      EntryWasItsOwn(s, ns, key);
      AdmittedIsStored(s, ns, key, v);
    }
  }

  /** Put commits what it admitted if the store takes it, and leaves everything else alone. */
  lemma {:induction false} PutOutcome(
      cfg: Config, s: HubState, ns: Bytes, key: Bytes, payload: Bytes, opts: PutOptions, order: seq<Bytes>,
      now: int, auditNow: int)
    requires Gray.Visits(order, opts.gray)
    ensures var (t, r) := Put(cfg, s, ns, key, payload, opts, order, now, auditNow);
            var a := Admission(cfg, s, ns, key, payload, opts, order, now);
            if a.Admit? && PutVersionSpec(s.entries, ns, key, a.v).Ok? then
              var e := PutVersionSpec(s.entries, ns, key, a.v).value;
              t == Committed(s, ns, key, e, a.v, a.newKey, auditNow) && r == Ok(e.head)
            else
              t.entries == s.entries && t.last == s.last && r.Err?
  {
    hide Admission, PutVersionSpec;
  }

  lemma {:induction false} EntryWasItsOwn(s: HubState, ns: Bytes, key: Bytes)
    requires Inv(s)
    ensures RegistryInv(s) && StoreInv(s)
    ensures NsKey(ns, key) in s.entries ==> s.entries[NsKey(ns, key)].ns == ns && s.entries[NsKey(ns, key)].key == key
  {
    if NsKey(ns, key) in s.entries {
      FoundUnderOwnName(s, ns, key);
    }
  }

  lemma {:induction false} RollbackEffect(s: HubState, ns: Bytes, key: Bytes, rev: int, actor: Bytes, now: int)
    requires Inv(s)
    ensures var (t, err) := Rollback(s, ns, key, rev, actor, now);
            && (err.Some? ==> t.entries == s.entries && t.last == s.last)
            && (err.None? ==>
              && NsKey(ns, key) in s.entries
              && RolledBack(s.entries[NsKey(ns, key)], rev).Ok?
              && var e := RolledBack(s.entries[NsKey(ns, key)], rev).value;
                 e.ns == ns && e.key == key && Writes(s, e, KIND_ROLLBACK, t))
  {
    hide Inv, RegistryInv, StoreInv, NsKey, RolledBack, Acl.CheckError, ErrorText, Watch.LastKey;
    EntryWasItsOwn(s, ns, key);
    RolledBackKeepsName(s.entries, ns, key, rev);
  }

  lemma {:induction false} RolledBackKeepsName(m: Entries, ns: Bytes, key: Bytes, rev: int)
    ensures RollbackSpec(m, ns, key, rev).Ok? ==>
              && NsKey(ns, key) in m && RolledBack(m[NsKey(ns, key)], rev) == RollbackSpec(m, ns, key, rev)
              && var e := RolledBack(m[NsKey(ns, key)], rev).value;
                 e.ns == m[NsKey(ns, key)].ns && e.key == m[NsKey(ns, key)].key
  {}

  lemma {:induction false} DeleteKeyEffect(s: HubState, ns: Bytes, key: Bytes, actor: Bytes, now: int)
    ensures var (t, err) := DeleteKey(s, ns, key, actor, now);
            && (err.Some? ==> t.entries == s.entries && t.last == s.last)
            && (err.None? ==>
              && NsKey(ns, key) in s.entries && t.entries == s.entries - {NsKey(ns, key)}
              && t.last == Published(s.last, ns, key, KIND_DELETE, s.entries[NsKey(ns, key)].head))
  {}

  lemma {:induction false} DeleteNSEffect(s: HubState, id: Bytes, actor: Bytes, now: int)
    ensures var (t, err) := DeleteNS(s, id, actor, now);
            && (err.Some? ==> t.entries == s.entries && t.last == s.last)
            && (err.None? ==>
              t.entries == WithoutNS(s.entries, id) && t.last == LastAfterRemoval(s.last, OfNS(s.entries, id)))
  {
    hide WithoutNS, OfNS, LastAfterRemoval;
  }

  lemma {:induction false} QuietEffect(cfg: Config, s: HubState, op: Op)
    requires op.OpCreateNS? || op.OpGrant? || op.OpClose?
    ensures Step(cfg, s, op).entries == s.entries && Step(cfg, s, op).last == s.last
  {
    hide CreateSpec, ParseRole, Acl.CheckError, Acl.GrantError, ErrorText;
  }

  // ----- The watch index -----

  lemma {:induction false} LastKeyIsNsKey(ns: Bytes, key: Bytes)
    ensures Watch.LastKey(ns, key) == NsKey(ns, key)
  {}

  lemma {:induction false} WatchAfterStore(s: HubState, e: Entry, kind: Bytes, t: HubState)
    requires WatchInv(s) && kind != KIND_DELETE && Writes(s, e, kind, t)
    ensures WatchInv(t)
  {
    LastKeyIsNsKey(e.ns, e.key);
  }

  lemma {:induction false} WatchAfterRemove(s: HubState, ns: Bytes, key: Bytes, rev: int, t: HubState)
    requires WatchInv(s)
    requires t.entries == s.entries - {NsKey(ns, key)} && t.last == Published(s.last, ns, key, KIND_DELETE, rev)
    ensures WatchInv(t)
  {
    LastKeyIsNsKey(ns, key);
  }

  lemma {:induction false} WatchAfterRemoveNS(s: HubState, ns: Bytes, t: HubState)
    requires WatchInv(s) && WellKeyed(s.entries)
    requires t.entries == WithoutNS(s.entries, ns) && t.last == LastAfterRemoval(s.last, OfNS(s.entries, ns))
    ensures WatchInv(t)
  {
    hide Watch.LastKey, NsKey;
    var gone := OfNS(s.entries, ns);
    assert forall id :: id in t.entries <==> id in s.entries && id !in gone;
    forall id | id in t.last
      ensures id == Watch.LastKey(t.last[id].ns, t.last[id].key)
    {
      if id in gone {
        LastKeyIsNsKey(gone[id].ns, gone[id].key);
      }
    }
  }

  lemma {:induction false} StepKeepsWatch(cfg: Config, s: HubState, op: Op)
    requires Inv(s) && WatchInv(s) && AllValid(s)
    ensures WatchInv(Step(cfg, s, op))
  {
    hide Inv, WatchInv, AllValid, Writes, Put, Rollback, DeleteKey, DeleteNS, Admission, WithoutNS, OfNS;
    var t := Step(cfg, s, op);
    KindsDiffer();
    if t.entries == s.entries && t.last == s.last {
      WatchFrame(s, t);
    } else {
      match op {
        case OpPut(ns, key, payload, opts, order, now, auditNow) =>
          PutEffect(cfg, s, ns, key, payload, opts, order, now, auditNow);
          WatchAfterStore(s, t.entries[NsKey(ns, key)], KIND_PUBLISH, t);
        case OpRollback(ns, key, rev, actor, auditNow) =>
          RollbackEffect(s, ns, key, rev, actor, auditNow);
          WatchAfterStore(s, RolledBack(s.entries[NsKey(ns, key)], rev).value, KIND_ROLLBACK, t);
        case OpDeleteKey(ns, key, actor, auditNow) =>
          DeleteKeyEffect(s, ns, key, actor, auditNow);
          WatchAfterRemove(s, ns, key, s.entries[NsKey(ns, key)].head, t);
        case OpDeleteNS(id, actor, auditNow) =>
          DeleteNSEffect(s, id, actor, auditNow);
          EntryWasItsOwn(s, [], []);
          StoreIsWellKeyed(s);
          WatchAfterRemoveNS(s, id, t);
        case _ =>
          QuietEffect(cfg, s, op);
      }
    }
  }

  lemma {:induction false} StoreIsWellKeyed(s: HubState)
    requires StoreInv(s)
    ensures WellKeyed(s.entries)
  {}

  lemma {:induction false} WatchFrame(s: HubState, t: HubState)
    requires WatchInv(s) && t.entries == s.entries && t.last == s.last
    ensures WatchInv(t)
  {}

  // ----- Chronicles: what happened to each key since it was created -----

  /** The latest rollback, and the number of versions put. */
  datatype Chronicle = Chronicle(mark: Mark, puts: nat)

  /** Read off the calls and their outcomes, without looking at any pointer. */
  function Recorded(cfg: Config, s: HubState, c: map<Bytes, Chronicle>, op: Op): map<Bytes, Chronicle> {
    match op
    case OpPut(ns, key, payload, opts, order, now, auditNow) =>
      var id := NsKey(ns, key);
      if Put(cfg, s, ns, key, payload, opts, order, now, auditNow).1.Err? then c
      else if id in c then c[id := c[id].(puts := c[id].puts + 1)]
      else c[id := Chronicle(Mark(0, 0), 1)]
    case OpRollback(ns, key, rev, actor, auditNow) =>
      var id := NsKey(ns, key);
      if Rollback(s, ns, key, rev, actor, auditNow).1.Some? || id !in c then c
      else c[id := c[id].(mark := Mark(rev, c[id].puts))]
    case OpDeleteKey(ns, key, actor, auditNow) =>
      if DeleteKey(s, ns, key, actor, auditNow).1.Some? then c else c - {NsKey(ns, key)}
    case OpDeleteNS(id, actor, auditNow) =>
      if DeleteNS(s, id, actor, auditNow).1.Some? then c else c - OfNS(s.entries, id).Keys
    case _ => c
  }

  function Chronicles(cfg: Config, s: HubState, c: map<Bytes, Chronicle>, ops: seq<Op>): map<Bytes, Chronicle> {
    if ops == [] then c
    else
      var before := ops[..|ops| - 1];
      Recorded(cfg, Run(cfg, s, before), Chronicles(cfg, s, c, before), ops[|ops| - 1])
  }

  /** Every chain is as long as its chronicle says, and both its pointers are the closed form. */
  ghost predicate Chronicled(s: HubState, c: map<Bytes, Chronicle>) {
    && c.Keys == s.entries.Keys
    && forall id :: id in s.entries ==> Tracks(s.entries[id], c[id].mark) && |s.entries[id].versions| == c[id].puts
  }

  lemma {:induction false} PutIsChronicled(
      cfg: Config, s: HubState, c: map<Bytes, Chronicle>, ns: Bytes, key: Bytes, payload: Bytes, opts: PutOptions,
      order: seq<Bytes>, now: int, auditNow: int)
    requires Gray.Visits(order, opts.gray)
    requires Inv(s) && Chronicled(s, c)
    ensures var op := OpPut(ns, key, payload, opts, order, now, auditNow);
            Chronicled(Step(cfg, s, op), Recorded(cfg, s, c, op))
  {
    hide Inv, Put, Admission, Tracks, NsKey, Appended, Created;
    var id := NsKey(ns, key);
    ChronicledIsValid(s, c);
    PutEffect(cfg, s, ns, key, payload, opts, order, now, auditNow);
    if Put(cfg, s, ns, key, payload, opts, order, now, auditNow).1.Ok? {
      var v := Admission(cfg, s, ns, key, payload, opts, order, now).v;
      if id in s.entries {
        ChainIsAppended(s.entries[id], c[id].mark, v);
      } else {
        CreatedTracks(ns, key, v);
      }
    }
  }

  lemma {:induction false} ChainIsAppended(e: Entry, m: Mark, v: VersionMeta)
    requires Tracks(e, m) && v.rev == |e.versions| + 1
    ensures Appended(e, v).Ok? && Tracks(Appended(e, v).value, m)
  {
    AppendedTracks(e, m, v);
  }

  lemma {:induction false} RollbackIsChronicled(
      cfg: Config, s: HubState, c: map<Bytes, Chronicle>, ns: Bytes, key: Bytes, rev: int, actor: Bytes, auditNow: int)
    requires Inv(s) && Chronicled(s, c)
    ensures var op := OpRollback(ns, key, rev, actor, auditNow);
            Chronicled(Step(cfg, s, op), Recorded(cfg, s, c, op))
  {
    hide Inv, Rollback, Tracks, NsKey, RolledBack;
    var id := NsKey(ns, key);
    RollbackEffect(s, ns, key, rev, actor, auditNow);
    if id in s.entries {
      RolledBackTracks(s.entries[id], c[id].mark, rev);
      if RolledBack(s.entries[id], rev).Ok? {
        RolledBackKeepsVersions(s.entries[id], rev);
      }
    }
  }

  lemma {:induction false} RolledBackKeepsVersions(e: Entry, rev: int)
    requires RolledBack(e, rev).Ok?
    ensures var e' := RolledBack(e, rev).value; e'.versions == e.versions && e'.ns == e.ns && e'.key == e.key
  {}

  lemma {:induction false} FewerAreChronicled(s: HubState, c: map<Bytes, Chronicle>, gone: set<Bytes>, t: HubState)
    requires Chronicled(s, c) && t.entries == s.entries - gone
    ensures Chronicled(t, c - gone)
  {
    hide Tracks;
  }

  lemma {:induction false} StepIsChronicled(cfg: Config, s: HubState, c: map<Bytes, Chronicle>, op: Op)
    requires Inv(s) && Chronicled(s, c)
    ensures Chronicled(Step(cfg, s, op), Recorded(cfg, s, c, op))
  {
    hide Inv, Tracks, Put, Rollback, DeleteKey, DeleteNS, Chronicled, WithoutNS, OfNS, NsKey;
    var t := Step(cfg, s, op);
    match op {
      case OpPut(ns, key, payload, opts, order, now, auditNow) =>
        PutIsChronicled(cfg, s, c, ns, key, payload, opts, order, now, auditNow);
      case OpRollback(ns, key, rev, actor, auditNow) =>
        RollbackIsChronicled(cfg, s, c, ns, key, rev, actor, auditNow);
      case OpDeleteKey(ns, key, actor, auditNow) =>
        DeleteKeyEffect(s, ns, key, actor, auditNow);
        if DeleteKey(s, ns, key, actor, auditNow).1.None? {
          FewerAreChronicled(s, c, {NsKey(ns, key)}, t);
        } else {
          SameAreChronicled(s, c, t);
        }
      case OpDeleteNS(id, actor, auditNow) =>
        DeleteNSEffect(s, id, actor, auditNow);
        if DeleteNS(s, id, actor, auditNow).1.None? {
          WithoutIsMinus(s.entries, id);
          FewerAreChronicled(s, c, OfNS(s.entries, id).Keys, t);
        } else {
          SameAreChronicled(s, c, t);
        }
      case _ =>
        QuietEffect(cfg, s, op);
        SameAreChronicled(s, c, t);
    }
  }

  lemma {:induction false} WithoutIsMinus(m: Entries, ns: Bytes)
    ensures WithoutNS(m, ns) == m - OfNS(m, ns).Keys
  {}

  lemma {:induction false} SameAreChronicled(s: HubState, c: map<Bytes, Chronicle>, t: HubState)
    requires Chronicled(s, c) && t.entries == s.entries
    ensures Chronicled(t, c)
  {}

  lemma {:induction false} StepKeepsInv(cfg: Config, s: HubState, op: Op)
    requires Inv(s)
    requires AllValid(s)
    ensures Inv(Step(cfg, s, op))
  {
    hide Inv, CreateNS, DeleteNS, Put, Rollback, DeleteKey, Grant, NsKey, ValidChain;
    match op {
      case OpCreateNS(spec, now, auditNow) => CreateNSKeepsInv(s, spec, now, auditNow);
      case OpDeleteNS(id, actor, auditNow) => DeleteNSKeepsInv(s, id, actor, auditNow);
      case OpPut(ns, key, payload, opts, order, now, auditNow) =>
        PutKeepsInv(cfg, s, ns, key, payload, opts, order, now, auditNow);
      case OpRollback(ns, key, rev, actor, auditNow) => RollbackKeepsInv(s, ns, key, rev, actor, auditNow);
      case OpDeleteKey(ns, key, actor, auditNow) => DeleteKeyKeepsInv(s, ns, key, actor, auditNow);
      case OpGrant(ns, subject, role, actor) => GrantKeepsInv(s, ns, subject, role, actor);
      case OpClose => CloseKeepsInv(s);
    }
  }

  // ----- Runs -----

  /** A run keeps the invariants, from wherever they hold. */
  lemma {:induction false} RunKeeps(cfg: Config, s: HubState, c: map<Bytes, Chronicle>, ops: seq<Op>)
    requires Inv(s) && Chronicled(s, c)
    ensures Inv(Run(cfg, s, ops)) && Chronicled(Run(cfg, s, ops), Chronicles(cfg, s, c, ops))
    ensures WatchInv(s) ==> WatchInv(Run(cfg, s, ops))
  {
    hide Inv, WatchInv, Tracks, Recorded, Step;
    if ops != [] {
      var before, op := ops[..|ops| - 1], ops[|ops| - 1];
      RunKeeps(cfg, s, c, before);
      var mid := Run(cfg, s, before);
      ChronicledIsValid(mid, Chronicles(cfg, s, c, before));
      StepKeepsInv(cfg, mid, op);
      StepIsChronicled(cfg, mid, Chronicles(cfg, s, c, before), op);
      if WatchInv(s) {
        StepKeepsWatch(cfg, mid, op);
      }
    }
  }

  lemma {:induction false} ChronicledIsValid(s: HubState, c: map<Bytes, Chronicle>)
    requires Chronicled(s, c)
    ensures AllValid(s)
  {}

  lemma {:induction false} NewHubIsSafe(auditCap: int)
    ensures Inv(New(auditCap)) && WatchInv(New(auditCap)) && Chronicled(New(auditCap), map[])
  {
    forall ns
      ensures KeyCount(map[], ns) == 0 == ByteCount(map[], ns)
    {
      assert IdsOf(map[], ns) == {};
    }
  }

  /** The main invariants, for every run from a new hub. */
  lemma {:induction false} RunsAreSafe(cfg: Config, auditCap: int, ops: seq<Op>)
    ensures var s := Run(cfg, New(auditCap), ops);
            Inv(s) && WatchInv(s) && Chronicled(s, Chronicles(cfg, New(auditCap), map[], ops))
  {
    NewHubIsSafe(auditCap);
    RunKeeps(cfg, New(auditCap), map[], ops);
  }

  // ----- What the invariants say -----

  /** Quotas: on every run the counters are exact and nothing stored exceeds its limits. */
  lemma {:induction false} QuotasAreExactAndKept(cfg: Config, auditCap: int, ops: seq<Op>, ns: Bytes)
    ensures var s := Run(cfg, New(auditCap), ops);
            && UsageOf(s.use, ns) == Usage(KeyCount(s.entries, ns), ByteCount(s.entries, ns))
            && (ns in s.items ==>
              KeyCount(s.entries, ns) <= s.items[ns].maxKeys && ByteCount(s.entries, ns) <= s.items[ns].maxBytes)
  {
    RunsAreSafe(cfg, auditCap, ops);
  }

  /** Pointers: on every run, for every key, Head and Stable are given by the versions and the
      latest rollback alone. */
  lemma {:induction false} PointersInClosedForm(cfg: Config, auditCap: int, ops: seq<Op>, id: Bytes)
    requires id in Run(cfg, New(auditCap), ops).entries
    ensures id in Chronicles(cfg, New(auditCap), map[], ops)
    ensures var e := Run(cfg, New(auditCap), ops).entries[id];
            var c := Chronicles(cfg, New(auditCap), map[], ops)[id];
            var n := |e.versions|;
            && n == c.puts && (forall i :: 0 <= i < n ==> e.versions[i].rev == i + 1)
            && e.head == (if c.mark.len == n then c.mark.target else n)
            && 0 <= c.mark.target <= c.mark.len <= n
            && (forall q :: InWindow(c.mark, n, q) && Full(e.versions[q - 1].gray) ==> q <= e.stable)
            && (e.stable == 0 || (InWindow(c.mark, n, e.stable) && Full(e.versions[e.stable - 1].gray)))
  {
    hide Inv, WatchInv, Chronicles, Run, New;
    RunsAreSafe(cfg, auditCap, ops);
    var e := Run(cfg, New(auditCap), ops).entries[id];
    var c := Chronicles(cfg, New(auditCap), map[], ops)[id];
    forall q | InWindow(c.mark, |e.versions|, q) && Full(e.versions[q - 1].gray)
      ensures q <= e.stable
    {
      assert Released(e, q);
    }
  }

  /** Watching: on every run the index of last events and the store agree. */
  lemma {:induction false} WatchIndexAgrees(cfg: Config, auditCap: int, ops: seq<Op>, ns: Bytes, key: Bytes)
    ensures var s := Run(cfg, New(auditCap), ops);
            var id := Watch.LastKey(ns, key);
            && (NsKey(ns, key) in s.entries <==> id in s.last && s.last[id].kind != KIND_DELETE)
            && (NsKey(ns, key) in s.entries ==>
              && s.last[id].rev == s.entries[NsKey(ns, key)].head
              && s.entries[NsKey(ns, key)].ns == ns && s.entries[NsKey(ns, key)].key == key)
  {
    RunsAreSafe(cfg, auditCap, ops);
    LastKeyIsNsKey(ns, key);
    var s := Run(cfg, New(auditCap), ops);
    if NsKey(ns, key) in s.entries {
      FoundUnderOwnName(s, ns, key);
    }
  }

  /** Revisions: the n-th successful Put since a key was created returns n, whatever rollbacks came
      in between, and Put succeeds exactly when its checks pass. */
  lemma {:induction false} PutNumbersItsVersions(
      cfg: Config, auditCap: int, ops: seq<Op>, ns: Bytes, key: Bytes, payload: Bytes, opts: PutOptions,
      order: seq<Bytes>, now: int, auditNow: int)
    requires Gray.Visits(order, opts.gray)
    ensures var s := Run(cfg, New(auditCap), ops);
            var c := Chronicles(cfg, New(auditCap), map[], ops);
            var puts := if NsKey(ns, key) in c then c[NsKey(ns, key)].puts else 0;
            var r := Put(cfg, s, ns, key, payload, opts, order, now, auditNow).1;
            && (r.Ok? <==> Admission(cfg, s, ns, key, payload, opts, order, now).Admit?)
            && (r.Ok? ==> r.value == puts + 1)
  {
    hide Inv, WatchInv, AllValid, Tracks, Chronicles, Run, New, Admission, Put, NsKey, Appended, Created, Writes;
    RunsAreSafe(cfg, auditCap, ops);
    var s := Run(cfg, New(auditCap), ops);
    ChronicledIsValid(s, Chronicles(cfg, New(auditCap), map[], ops));
    PutEffect(cfg, s, ns, key, payload, opts, order, now, auditNow);
  }

  /** A Put that fails changes nothing but the audit trail, and adds at most one record there. */
  lemma {:induction false} FailedPutChangesNothing(
      cfg: Config, s: HubState, ns: Bytes, key: Bytes, payload: Bytes, opts: PutOptions,
      order: seq<Bytes>, now: int, auditNow: int)
    requires Gray.Visits(order, opts.gray)
    requires Put(cfg, s, ns, key, payload, opts, order, now, auditNow).1.Err?
    ensures var t := Put(cfg, s, ns, key, payload, opts, order, now, auditNow).0;
            t == s.(log := t.log) && (t.log == s.log || t.log.seqNo == s.log.seqNo + 1)
  {}

  // ----- Versions are immutable -----

  /** One step never changes or drops a version of a chain that is there before and after it. */
  lemma {:induction false} StepExtendsChain(cfg: Config, s: HubState, op: Op, id: Bytes)
    requires Inv(s) && AllValid(s)
    requires id in s.entries && id in Step(cfg, s, op).entries
    ensures s.entries[id].versions <= Step(cfg, s, op).entries[id].versions
  {
    hide Inv, AllValid, Put, Rollback, DeleteKey, DeleteNS, Admission, OfNS;
    match op {
      case OpPut(ns, key, payload, opts, order, now, auditNow) =>
        PutEffect(cfg, s, ns, key, payload, opts, order, now, auditNow);
      case OpRollback(ns, key, rev, actor, auditNow) =>
        RollbackEffect(s, ns, key, rev, actor, auditNow);
      case OpDeleteKey(ns, key, actor, auditNow) =>
        DeleteKeyEffect(s, ns, key, actor, auditNow);
      case OpDeleteNS(gone, actor, auditNow) =>
        DeleteNSEffect(s, gone, actor, auditNow);
      case _ =>
        QuietEffect(cfg, s, op);
    }
  }

  /** Between its creation and its deletion a chain only ever grows at its end. */
  lemma {:induction false} ChainsOnlyGrow(cfg: Config, s: HubState, c: map<Bytes, Chronicle>, ops: seq<Op>, id: Bytes)
    requires Inv(s) && Chronicled(s, c)
    requires forall k :: 0 <= k <= |ops| ==> id in Run(cfg, s, ops[..k]).entries
    ensures id in s.entries && id in Run(cfg, s, ops).entries
    ensures s.entries[id].versions <= Run(cfg, s, ops).entries[id].versions
  {
    hide Inv, Chronicled, AllValid, Step, Chronicles;
    assert ops[..|ops|] == ops;
    assert ops[..0] == [];
    assert id in Run(cfg, s, ops[..0]).entries;
    if ops != [] {
      var before, op := ops[..|ops| - 1], ops[|ops| - 1];
      forall k | 0 <= k <= |before|
        ensures id in Run(cfg, s, before[..k]).entries
      {
        assert before[..k] == ops[..k];
      }
      ChainsOnlyGrow(cfg, s, c, before, id);
      RunKeeps(cfg, s, c, before);
      ChronicledIsValid(Run(cfg, s, before), Chronicles(cfg, s, c, before));
      StepExtendsChain(cfg, Run(cfg, s, before), op, id);
    }
  }

  // ----- Reading -----

  /** x shows revision rev of the entry, field by field. */
  ghost predicate Shows(x: Value, ns: Bytes, key: Bytes, e: Entry, rev: int)
    requires 1 <= rev <= |e.versions|
  {
    var v := e.versions[rev - 1];
    && x.ns == ns && x.key == key && x.rev == rev
    && x.payload == v.payload && x.author == v.author && x.ts == v.ts && x.gray == v.gray && x.algo == v.algo
    && x.head == e.head && x.stable == e.stable
  }

  lemma {:induction false} ValueShows(e: Entry, v: VersionMeta, rev: int, hit: bool)
    requires 1 <= rev <= |e.versions| && v == e.versions[rev - 1] && v.rev == rev
    ensures Shows(ValueFrom(e, v, hit), e.ns, e.key, e, rev) && ValueFrom(e, v, hit).hit == hit
  {}

  /** A client of an existing key gets the head if the head's rule is for it, and otherwise the stable
      version, which is an earlier one released to everyone; it is refused exactly when there is none. */
  ghost predicate GivesHeadOrStable(
      bucket: Gray.Bucket, ns: Bytes, key: Bytes, e: Entry, client: ClientContext, r: Result<Value>)
  {
    && 1 <= e.head <= |e.versions| && 0 <= e.stable <= e.head
    && (e.stable == e.head <==> Full(e.versions[e.head - 1].gray))
    && if Gray.IsFor(bucket, e.versions[e.head - 1].gray, client) then
         r.Ok? && Shows(r.value, ns, key, e, e.head) && r.value.hit
       else if e.stable == 0 then
         r == Err(Error(NoStable, Ref(ns, key)))
       else
         && e.stable < e.head && Full(e.versions[e.stable - 1].gray)
         && r.Ok? && Shows(r.value, ns, key, e, e.stable) && !r.value.hit
  }

  /** Get does so on every run. */
  lemma {:induction false} GetIsSafe(
      cfg: Config, auditCap: int, ops: seq<Op>, ns: Bytes, key: Bytes, client: ClientContext)
    ensures var s := Run(cfg, New(auditCap), ops);
            var r := Get(cfg, s, ns, key, client);
            if s.closed then r == Err(Error(Closed, []))
            else if ns !in s.items then r == Err(Error(NotFound, ns))
            else if NsKey(ns, key) !in s.entries then r == Err(Error(NotFound, Ref(ns, key)))
            else GivesHeadOrStable(cfg.bucket, ns, key, s.entries[NsKey(ns, key)], client, r)
  {
    hide Inv, WatchInv, Tracks, Chronicles, Run, New, Gray.Eval, NsKey, GivesHeadOrStable;
    RunsAreSafe(cfg, auditCap, ops);
    var s := Run(cfg, New(auditCap), ops);
    if !s.closed && ns in s.items && NsKey(ns, key) in s.entries {
      EntryWasItsOwn(s, ns, key);
      GetOfTracked(cfg, s, ns, key, Chronicles(cfg, New(auditCap), map[], ops)[NsKey(ns, key)].mark, client);
    }
  }

  lemma {:induction false} GetOfTracked(
      cfg: Config, s: HubState, ns: Bytes, key: Bytes, m: Mark, client: ClientContext)
    requires !s.closed && ns in s.items && NsKey(ns, key) in s.entries && Tracks(s.entries[NsKey(ns, key)], m)
    requires s.entries[NsKey(ns, key)].ns == ns && s.entries[NsKey(ns, key)].key == key
    ensures GivesHeadOrStable(cfg.bucket, ns, key, s.entries[NsKey(ns, key)], client, Get(cfg, s, ns, key, client))
  {
    hide Tracks, Gray.Eval, Gray.IsFor, NsKey, ValueFrom, Shows;
    var e := s.entries[NsKey(ns, key)];
    SelectIsSafe(cfg.bucket, e, m, client);
    Gray.EvalIffFor(cfg.bucket, e.versions[e.head - 1].gray, client);
    ValueShows(e, e.versions[e.head - 1], e.head, true);
    if e.stable > 0 {
      ValueShows(e, e.versions[e.stable - 1], e.stable, false);
    }
  }

  /** What GetRev answers: of an existing key exactly the revisions up to the length of its chain can be
      read, each as it was stored. */
  ghost predicate ReadsRevision(s: HubState, ns: Bytes, key: Bytes, rev: int, r: Result<Value>) {
    if s.closed then r == Err(Error(Closed, []))
    else if NsKey(ns, key) !in s.entries then r == Err(Error(NotFound, Ref(ns, key)))
    else
      var e := s.entries[NsKey(ns, key)];
      if 1 <= rev <= |e.versions| then
        r.Ok? && Shows(r.value, ns, key, e, rev) && (r.value.hit <==> rev == e.head)
      else
        r == Err(Error(BadRevision, Ref(ns, key)))
  }

  lemma {:induction false} GetRevReads(s: HubState, ns: Bytes, key: Bytes, rev: int)
    requires Inv(s) && AllValid(s)
    ensures ReadsRevision(s, ns, key, rev, GetRev(s, ns, key, rev))
  {
    hide Inv, NsKey, ValueFrom, Shows;
    EntryWasItsOwn(s, ns, key);
    if NsKey(ns, key) in s.entries {
      var e := s.entries[NsKey(ns, key)];
      assert ValidChain(e);
      if 1 <= rev <= |e.versions| {
        ValueShows(e, e.versions[rev - 1], rev, rev == e.head);
      }
    }
  }

  /** It does so on every run. */
  lemma {:induction false} GetRevIsExact(cfg: Config, auditCap: int, ops: seq<Op>, ns: Bytes, key: Bytes, rev: int)
    ensures var s := Run(cfg, New(auditCap), ops); ReadsRevision(s, ns, key, rev, GetRev(s, ns, key, rev))
  {
    hide Inv, WatchInv, AllValid, Chronicled, Chronicles, Run, New, GetRev, ReadsRevision;
    RunsAreSafe(cfg, auditCap, ops);
    ChronicledIsValid(Run(cfg, New(auditCap), ops), Chronicles(cfg, New(auditCap), map[], ops));
    GetRevReads(Run(cfg, New(auditCap), ops), ns, key, rev);
  }

  /** Selection on one chain whose pointers are the closed form. */
  lemma {:induction false} SelectIsSafe(bucket: Gray.Bucket, e: Entry, m: Mark, client: ClientContext)
    requires Tracks(e, m)
    ensures 1 <= e.head <= |e.versions| && 0 <= e.stable <= e.head
    ensures e.ByRev(e.head) == Some(e.versions[e.head - 1])
    ensures e.stable > 0 ==> e.ByRev(e.stable) == Some(e.versions[e.stable - 1]) && Full(e.versions[e.stable - 1].gray)
    ensures e.stable == e.head <==> Full(e.versions[e.head - 1].gray)
    ensures Gray.Select(bucket, e, client) ==
            if Gray.Eval(bucket, e.versions[e.head - 1].gray, client) then Gray.Choice(e.head, true, true)
            else if e.stable == 0 then Gray.Choice(0, false, false)
            else Gray.Choice(e.stable, false, true)
  {
    TrackedPointers(e, m);
  }

  /** The rule stored with an admitted version answers every client as the rule that was passed, if
      that rule is one that normalising keeps. */
  lemma {:induction false} AdmittedRuleAnswersAlike(
      cfg: Config, s: HubState, ns: Bytes, key: Bytes, payload: Bytes, opts: PutOptions, order: seq<Bytes>, now: int,
      client: ClientContext)
    requires Gray.Visits(order, opts.gray) && Admission(cfg, s, ns, key, payload, opts, order, now).Admit?
    requires opts.gray.Some? ==> Gray.KeepsAnswers(opts.gray.value)
    ensures var v := Admission(cfg, s, ns, key, payload, opts, order, now).v;
            Gray.Eval(cfg.bucket, v.gray, client) == Gray.Eval(cfg.bucket, opts.gray, client)
  {
    hide Admission, Gray.NormalForm, Gray.Eval, Gray.KeepsAnswers, Gray.IsIteration, NsKey, NextRevOf, SignError;
    Admitted(cfg, s, ns, key, payload, opts, order, now);
    if opts.gray.None? {
      NoRuleIsNormal(order);
    } else {
      var v := Admission(cfg, s, ns, key, payload, opts, order, now).v;
      Gray.NormalFormKeepsAnswers(cfg.bucket, opts.gray.value, order, v.gray, client);
    }
  }

  /** Whatever the buckets, it does so for every client exactly then. */
  lemma {:induction false} AdmittedRuleMeansPassedIff(
      cfg: Config, s: HubState, ns: Bytes, key: Bytes, payload: Bytes, opts: PutOptions, order: seq<Bytes>, now: int)
    requires Gray.Visits(order, opts.gray) && Admission(cfg, s, ns, key, payload, opts, order, now).Admit?
    ensures var v := Admission(cfg, s, ns, key, payload, opts, order, now).v;
            (forall bucket: Gray.Bucket, client :: Gray.Eval(bucket, v.gray, client) == Gray.Eval(bucket, opts.gray, client))
            <==> (opts.gray.Some? ==> Gray.KeepsAnswers(opts.gray.value))
  {
    hide Admission, Gray.NormalForm, Gray.Eval, Gray.KeepsAnswers, Gray.IsIteration, NsKey, NextRevOf, SignError;
    Admitted(cfg, s, ns, key, payload, opts, order, now);
    if opts.gray.None? {
      NoRuleIsNormal(order);
    } else {
      var v := Admission(cfg, s, ns, key, payload, opts, order, now).v;
      Gray.NormalFormKeepsAnswersIff(opts.gray.value, order, v.gray);
    }
  }

  lemma {:induction false} NoRuleIsNormal(order: seq<Bytes>)
    ensures Gray.NormalForm(None, order) == Ok(None)
  {}

  /** After a successful Put, on every run, Get gives the new version to exactly the clients the
      passed rule names, and an older released version or a refusal to all others. */
  lemma {:induction false} PutReleasesAsAsked(
      cfg: Config, auditCap: int, ops: seq<Op>, ns: Bytes, key: Bytes, payload: Bytes, opts: PutOptions,
      order: seq<Bytes>, now: int, auditNow: int, client: ClientContext)
    requires Gray.Visits(order, opts.gray) && (opts.gray.Some? ==> Gray.KeepsAnswers(opts.gray.value))
    requires Put(cfg, Run(cfg, New(auditCap), ops), ns, key, payload, opts, order, now, auditNow).1.Ok?
    ensures var (t, r) := Put(cfg, Run(cfg, New(auditCap), ops), ns, key, payload, opts, order, now, auditNow);
            var got := Get(cfg, t, ns, key, client);
            if Gray.IsFor(cfg.bucket, opts.gray, client) then
              got.Ok? && got.value.rev == r.value && got.value.payload == payload && got.value.hit
            else
              got == Err(Error(NoStable, Ref(ns, key))) || (got.Ok? && got.value.rev < r.value && !got.value.hit)
  {
    hide Inv, WatchInv, AllValid, Chronicled, Chronicles, New, Admission, Put, NsKey, Appended, Created, Writes,
      Gray.Eval, Gray.IsFor, Gray.KeepsAnswers, Gray.IsIteration, Gray.NormalForm, Get, Full, Quota.CheckError, SignError;
    var s := Run(cfg, New(auditCap), ops);
    var op: Op := OpPut(ns, key, payload, opts, order, now, auditNow);
    RunsAreSafe(cfg, auditCap, ops);
    ChronicledIsValid(s, Chronicles(cfg, New(auditCap), map[], ops));
    PutEffect(cfg, s, ns, key, payload, opts, order, now, auditNow);
    Admitted(cfg, s, ns, key, payload, opts, order, now);
    AdmittedRuleAnswersAlike(cfg, s, ns, key, payload, opts, order, now, client);
    Gray.EvalIffFor(cfg.bucket, opts.gray, client);
    Gray.EvalIffFor(cfg.bucket, Admission(cfg, s, ns, key, payload, opts, order, now).v.gray, client);
    assert (ops + [op])[..|ops|] == ops;
    assert Run(cfg, New(auditCap), ops + [op]) == Put(cfg, s, ns, key, payload, opts, order, now, auditNow).0;
    PutStaysOpen(cfg, s, ns, key, payload, opts, order, now, auditNow);
    GetIsSafe(cfg, auditCap, ops + [op], ns, key, client);
  }

  lemma {:induction false} PutStaysOpen(
      cfg: Config, s: HubState, ns: Bytes, key: Bytes, payload: Bytes, opts: PutOptions, order: seq<Bytes>,
      now: int, auditNow: int)
    requires Gray.Visits(order, opts.gray) && Put(cfg, s, ns, key, payload, opts, order, now, auditNow).1.Ok?
    ensures var t := Put(cfg, s, ns, key, payload, opts, order, now, auditNow).0; !t.closed && ns in t.items
  {
    hide Admission, PutVersionSpec;
    Admitted(cfg, s, ns, key, payload, opts, order, now);
  }

  // ----- Signatures -----

  /** The version's signature is good for some key id, under the algorithm and payload stored with it,
      bound to no revision or to its own. */
  ghost predicate Verifies(cfg: Config, ns: Bytes, key: Bytes, v: VersionMeta) {
    exists keyID: Bytes, bound: int ::
      (bound == 0 || bound == v.rev) &&
      Signing.GoodSignature(cfg.keys, cfg.crypto, ns, key, keyID, v.algo, bound, v.payload, v.sig)
  }

  ghost predicate SignedInv(cfg: Config, s: HubState) {
    forall id, i :: id in s.entries && 0 <= i < |s.entries[id].versions| ==>
      Verifies(cfg, s.entries[id].ns, s.entries[id].key, s.entries[id].versions[i])
  }

  lemma {:induction false} AdmittedVerifies(
      cfg: Config, s: HubState, ns: Bytes, key: Bytes, payload: Bytes, opts: PutOptions, order: seq<Bytes>, now: int)
    requires Gray.Visits(order, opts.gray)
    requires cfg.requireSign && Admission(cfg, s, ns, key, payload, opts, order, now).Admit?
    ensures Verifies(cfg, ns, key, Admission(cfg, s, ns, key, payload, opts, order, now).v)
  {
    Admitted(cfg, s, ns, key, payload, opts, order, now);
    var v := Admission(cfg, s, ns, key, payload, opts, order, now).v;
    StoredAlgoVerifiesAlike(cfg, ns, key, opts.keyID, opts.algo, SignRev(opts), payload, opts.signature);
    Signing.VerifyIff(cfg.keys, cfg.crypto, ns, key, opts.keyID, v.algo, SignRev(opts), v.payload, v.sig);
  }

  /** Verifying under the algorithm as stored is verifying under the algorithm that was checked. */
  lemma {:induction false} StoredAlgoVerifiesAlike(
      cfg: Config, ns: Bytes, key: Bytes, keyID: Bytes, algo: Bytes, rev: int, payload: Bytes, sig: Bytes)
    ensures var stored := Signing.NormalizeAlgo(algo);
            var checked := if stored == [] then Signing.ALGO_HMAC else stored;
            cfg.keys.Verify(cfg.crypto, ns, key, keyID, stored, rev, payload, sig) ==
            cfg.keys.Verify(cfg.crypto, ns, key, keyID, checked, rev, payload, sig)
  {
    Signing.AlgosDiffer();
    Signing.NormalizeAlgoIsIdempotent(algo);
  }

  lemma {:induction false} StepKeepsSigned(cfg: Config, s: HubState, op: Op)
    requires cfg.requireSign && Inv(s) && SignedInv(cfg, s) && AllValid(s)
    ensures SignedInv(cfg, Step(cfg, s, op))
  {
    hide Verifies, Inv, AllValid, SignedInv, Put, Rollback, DeleteKey, DeleteNS, Admission, OfNS, WithoutNS;
    var t := Step(cfg, s, op);
    match op {
      case OpPut(ns, key, payload, opts, order, now, auditNow) =>
        PutEffect(cfg, s, ns, key, payload, opts, order, now, auditNow);
        if Put(cfg, s, ns, key, payload, opts, order, now, auditNow).1.Ok? {
          AdmittedVerifies(cfg, s, ns, key, payload, opts, order, now);
          var v := Admission(cfg, s, ns, key, payload, opts, order, now).v;
          StoringKeepsSigned(cfg, s, t.entries[NsKey(ns, key)], v, t);
        } else {
          FewerStaySigned(cfg, s, t);
        }
      case OpRollback(ns, key, rev, actor, auditNow) =>
        RollbackEffect(s, ns, key, rev, actor, auditNow);
        RollingBackKeepsSigned(cfg, s, ns, key, rev, actor, auditNow);
      case OpDeleteKey(ns, key, actor, auditNow) =>
        DeleteKeyEffect(s, ns, key, actor, auditNow);
        FewerStaySigned(cfg, s, t);
      case OpDeleteNS(gone, actor, auditNow) =>
        DeleteNSEffect(s, gone, actor, auditNow);
        WithoutIsMinus(s.entries, gone);
        FewerStaySigned(cfg, s, t);
      case _ =>
        QuietEffect(cfg, s, op);
        FewerStaySigned(cfg, s, t);
    }
  }

  lemma {:induction false} FewerStaySigned(cfg: Config, s: HubState, t: HubState)
    requires SignedInv(cfg, s)
    requires t.entries.Keys <= s.entries.Keys && forall id :: id in t.entries ==> t.entries[id] == s.entries[id]
    ensures SignedInv(cfg, t)
  {
    hide Verifies;
  }

  lemma {:induction false} RollingBackKeepsSigned(
      cfg: Config, s: HubState, ns: Bytes, key: Bytes, rev: int, actor: Bytes, now: int)
    requires Inv(s) && SignedInv(cfg, s)
    ensures SignedInv(cfg, Rollback(s, ns, key, rev, actor, now).0)
  {
    hide Verifies, Inv, Rollback, RolledBack;
    RollbackEffect(s, ns, key, rev, actor, now);
    if Rollback(s, ns, key, rev, actor, now).1.None? {
      RolledBackKeepsVersions(s.entries[NsKey(ns, key)], rev);
    }
  }

  lemma {:induction false} StoringKeepsSigned(cfg: Config, s: HubState, e: Entry, v: VersionMeta, t: HubState)
    requires SignedInv(cfg, s) && Verifies(cfg, e.ns, e.key, v)
    requires var id := NsKey(e.ns, e.key);
             && t.entries == s.entries[id := e]
             && (id in s.entries ==> s.entries[id].ns == e.ns && s.entries[id].key == e.key)
             && e.versions == (if id in s.entries then s.entries[id].versions else []) + [v]
    ensures SignedInv(cfg, t)
  {
    hide Verifies;
    var id := NsKey(e.ns, e.key);
    forall i | 0 <= i < |e.versions|
      ensures Verifies(cfg, e.ns, e.key, e.versions[i])
    {
      if i < |e.versions| - 1 {
        assert e.versions[i] == s.entries[id].versions[i];
      }
    }
  }

  /** With signing required, on every run every stored version verifies. */
  lemma {:induction false} EverythingStoredVerifies(cfg: Config, auditCap: int, ops: seq<Op>)
    requires cfg.requireSign
    ensures SignedInv(cfg, Run(cfg, New(auditCap), ops))
  {
    if ops != [] {
      var before := ops[..|ops| - 1];
      EverythingStoredVerifies(cfg, auditCap, before);
      RunsAreSafe(cfg, auditCap, before);
      ChronicledIsValid(Run(cfg, New(auditCap), before), Chronicles(cfg, New(auditCap), map[], before));
      StepKeepsSigned(cfg, Run(cfg, New(auditCap), before), ops[|ops| - 1]);
    }
  }

  /** A signature bound to a revision is stored under that revision or not at all. */
  lemma {:induction false} BoundSignaturesStayBound(
      cfg: Config, s: HubState, ns: Bytes, key: Bytes, payload: Bytes, opts: PutOptions,
      order: seq<Bytes>, now: int, auditNow: int)
    requires Gray.Visits(order, opts.gray)
    requires Inv(s) && AllValid(s) && opts.bindRev > 0
    ensures var r := Put(cfg, s, ns, key, payload, opts, order, now, auditNow).1;
            r.Ok? ==> r.value == opts.bindRev
  {
    if Admission(cfg, s, ns, key, payload, opts, order, now).Admit? {
      Admitted(cfg, s, ns, key, payload, opts, order, now);
      AdmittedIsStored(s, ns, key, Admission(cfg, s, ns, key, payload, opts, order, now).v);
    }
  }
}
