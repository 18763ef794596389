/** put.go, get.go, hub.go: when each call succeeds, why it fails otherwise, and what it leaves behind,
    said of the arguments and the parts of the state alone. */
module HubLaws {
  import opened Base
  import opened Text
  import opened Meta
  import opened Validate
  import opened StoreEntry
  import opened StoreMemory
  import opened Quota
  import opened Access
  import opened HubModel
  import opened HubInvariants
  import opened HubRuns
  import Audit
  import Gray
  import Signing
  import Watch

  /** What every run keeps, as far as the laws below need it. */
  ghost predicate Sound(s: HubState) {
    Inv(s) && AllValid(s)
  }

  lemma {:induction false} RunsAreSound(cfg: Config, auditCap: int, ops: seq<Op>)
    ensures Sound(Run(cfg, New(auditCap), ops))
  {
    hide Inv, WatchInv, AllValid, Chronicled;
    RunsAreSafe(cfg, auditCap, ops);
    ChronicledIsValid(Run(cfg, New(auditCap), ops), Chronicles(cfg, New(auditCap), map[], ops));
  }

  // ----- Who may do what -----

  ghost predicate Owns(acl: Acl, ns: Bytes, actor: Bytes) {
    ns in acl.owners && acl.owners[ns] == actor
  }

  ghost predicate Holds(acl: Acl, ns: Bytes, actor: Bytes, role: Role) {
    GrantKey(ns, actor) in acl.grants && acl.grants[GrantKey(ns, actor)] == role
  }

  ghost predicate MayWrite(acl: Acl, ns: Bytes, actor: Bytes) {
    Owns(acl, ns, actor) || Holds(acl, ns, actor, Writer) || Holds(acl, ns, actor, Admin)
  }

  ghost predicate MayAdmin(acl: Acl, ns: Bytes, actor: Bytes) {
    Owns(acl, ns, actor) || Holds(acl, ns, actor, Admin)
  }

  /** The access list lets through exactly those. */
  lemma {:induction false} CheckIff(acl: Acl, ns: Bytes, actor: Bytes)
    requires actor != []
    ensures acl.CheckError(ns, actor, Writer).None? <==> MayWrite(acl, ns, actor)
    ensures acl.CheckError(ns, actor, Admin).None? <==> MayAdmin(acl, ns, actor)
    ensures forall need :: acl.CheckError(ns, actor, need).Some? ==>
              acl.CheckError(ns, actor, need).value.kind == Forbidden
  {}

  // ----- The audit trail after one more record -----

  /** s with the record added as the newest one, under the next number. */
  function Recording(s: HubState, r: AuditRecord): HubState {
    var all := s.log.records + [r.(seqNo := s.log.seqNo + 1)];
    s.(log := Audit.LogState(
      s.log.cap, s.log.seqNo + 1, if |all| <= s.log.cap then all else all[|all| - s.log.cap..]))
  }

  function Failure(ns: Bytes, key: Bytes, kind: Bytes, actor: Bytes, err: Error, now: int): AuditRecord {
    AuditRecord(0, now, ns, key, 0, kind, actor, [], 0, false, ErrorText(err))
  }

  lemma {:induction false} FailureRecorded(
      s: HubState, ns: Bytes, key: Bytes, kind: Bytes, actor: Bytes, err: Error, now: int)
    ensures s.Failed(ns, key, kind, actor, err, now) == Recording(s, Failure(ns, key, kind, actor, err, now))
  {}

  lemma {:induction false} SuccessRecorded(
      s: HubState, ns: Bytes, key: Bytes, kind: Bytes, actor: Bytes, rev: int, bytes: int, detail: Bytes, now: int)
    ensures s.(log := s.log.Succeeded(ns, key, kind, actor, rev, bytes, detail, now)) ==
            Recording(s, AuditRecord(0, now, ns, key, rev, kind, actor, detail, bytes, true, []))
  {}

  // ----- Put: when it succeeds -----

  /** Why a signature is refused, if it is. */
  ghost function SignRefusal(
      cfg: Config, ns: Bytes, key: Bytes, payload: Bytes, opts: PutOptions): (why: Option<Sentinel>)
    ensures why.Some? ==> why.value in {SignRequired, UnknownKey, UnknownAlgo, SignFailed}
  {
    var id := if opts.keyID == [] then cfg.keys.deflt else opts.keyID;
    var rev := if opts.bindRev > 0 then opts.bindRev else 0;
    if opts.signature == [] then
      if cfg.requireSign || opts.algo != [] then Some(SignRequired) else None
    else if Signing.MeansHMAC(opts.algo) then
      if Signing.KeyUsed(cfg.keys.hmac, ns, id, Signing.ALGO_HMAC) !in cfg.keys.hmac then Some(UnknownKey)
      else if Signing.GoodMAC(cfg.keys, cfg.crypto, ns, key, opts.keyID, rev, payload, opts.signature) then None
      else Some(SignFailed)
    else if Signing.MeansEd(opts.algo) then
      if Signing.KeyUsed(cfg.keys.ed, ns, id, Signing.ALGO_ED25519) !in cfg.keys.ed then Some(UnknownKey)
      else if Signing.GoodEd(cfg.keys, cfg.crypto, ns, key, opts.keyID, rev, payload, opts.signature) then None
      else Some(SignFailed)
    else Some(UnknownAlgo)
  }

  lemma {:induction false} SignErrorIs(cfg: Config, ns: Bytes, key: Bytes, payload: Bytes, opts: PutOptions)
    ensures SignError(cfg, ns, key, payload, opts).None? <==> SignRefusal(cfg, ns, key, payload, opts).None?
    ensures SignError(cfg, ns, key, payload, opts).Some? ==>
              SignRefusal(cfg, ns, key, payload, opts) == Some(SignError(cfg, ns, key, payload, opts).value.kind)
  {
    hide Signing.Canonical, Signing.KeyUsed, Signing.Keys.Verify, Signing.MeansHMAC, Signing.MeansEd,
      Signing.NormalizeAlgo;
    Signing.StoredNameMeansAlike(opts.algo);
    var stored := Signing.NormalizeAlgo(opts.algo);
    var algo := if stored == [] then Signing.ALGO_HMAC else stored;
    Signing.VerifyIff(cfg.keys, cfg.crypto, ns, key, opts.keyID, algo, SignRev(opts), payload, opts.signature);
    if cfg.keys.Verify(cfg.crypto, ns, key, opts.keyID, algo, SignRev(opts), payload, opts.signature).Some? {
      Signing.VerifyRefuses(cfg.keys, cfg.crypto, ns, key, opts.keyID, algo, SignRev(opts), payload, opts.signature);
    }
  }

  /** Why a write is refused, by what is really stored. */
  ghost function QuotaRefusal(s: HubState, ns: Bytes, newKeys: nat, newBytes: nat): (why: Option<Sentinel>)
    requires ns in s.items
    ensures why.Some? ==> why.value in {QuotaKeys, QuotaBytes}
  {
    if KeyCount(s.entries, ns) + newKeys > s.items[ns].maxKeys then Some(QuotaKeys)
    else if ByteCount(s.entries, ns) + newBytes > s.items[ns].maxBytes then Some(QuotaBytes)
    else None
  }

  lemma {:induction false} QuotaErrorIs(s: HubState, ns: Bytes, newKey: bool, newBytes: nat)
    requires Inv(s) && ns in s.items
    ensures var err := Quota.CheckError(s.use, s.items[ns], newKey, newBytes);
            var why := QuotaRefusal(s, ns, if newKey then 1 else 0, newBytes);
            (err.None? <==> why.None?) && (err.Some? ==> why == Some(err.value.kind))
  {
    hide StoreInv, LimitInv, LogInv, KeyCount, ByteCount;
  }

  /** Why Put refuses, if it does: the first of its checks that fails. */
  ghost function PutRefusal(
      cfg: Config, s: HubState, ns: Bytes, key: Bytes, payload: Bytes, opts: PutOptions): Option<Sentinel>
  {
    if s.closed then Some(Closed)
    else if !IsKey(key) then Some(InvalidKey)
    else if payload == [] then Some(PayloadEmpty)
    else if ns !in s.items then Some(NotFound)
    else if opts.actor != [] && !MayWrite(s.acl, ns, opts.actor) then Some(Forbidden)
    else if opts.gray.Some? && !(0 <= opts.gray.value.percent <= 100
                                 && forall k :: k in opts.gray.value.matchTags ==> TrimSpace(k) != []) then
      Some(GrayInvalid)
    else if opts.bindRev > 0 && opts.bindRev != |VersionsUnder(s, ns, key)| + 1 then Some(Conflict)
    else if SignRefusal(cfg, ns, key, payload, opts).Some? then SignRefusal(cfg, ns, key, payload, opts)
    else QuotaRefusal(s, ns, if NsKey(ns, key) in s.entries then 0 else 1, |payload|)
  }

  lemma {:induction false} NextRevIs(s: HubState, ns: Bytes, key: Bytes)
    requires AllValid(s)
    ensures NextRevOf(s.entries, ns, key) == |VersionsUnder(s, ns, key)| + 1
  {
    hide NsKey;
    if NsKey(ns, key) in s.entries {
      assert ValidChain(s.entries[NsKey(ns, key)]);
    }
  }

  lemma {:induction false} RuleErrorIs(g: Option<GrayRule>, order: seq<Bytes>)
    requires Gray.Visits(order, g)
    ensures Gray.NormalForm(g, order).Err? <==>
            g.Some? && !(0 <= g.value.percent <= 100 && forall k :: k in g.value.matchTags ==> TrimSpace(k) != [])
    ensures Gray.NormalForm(g, order).Err? ==> Gray.NormalForm(g, order).error.kind == GrayInvalid
  {
    hide TrimSpace, Gray.IsIteration;
  }

  /** Refusals of Put that leave no audit record. */
  const UNAUDITED: set<Sentinel> := {Closed, InvalidKey, PayloadEmpty, NotFound}

  lemma {:induction false} AdmissionIs(
      cfg: Config, s: HubState, ns: Bytes, key: Bytes, payload: Bytes, opts: PutOptions, order: seq<Bytes>, now: int)
    requires Gray.Visits(order, opts.gray) && Sound(s)
    ensures var a := Admission(cfg, s, ns, key, payload, opts, order, now);
            var why := PutRefusal(cfg, s, ns, key, payload, opts);
            && (a.Admit? <==> why.None?)
            && (a.Refuse? ==> why == Some(a.err.kind) && (a.audited <==> why.value !in UNAUDITED))
  {
    hide Gray.NormalForm, SignError, SignRefusal, Quota.CheckError, QuotaRefusal, NextRevOf, VersionsUnder, IsKey, NsKey,
      Acl.CheckError, MayWrite, Inv, AllValid, TrimSpace, Gray.IsIteration;
    RuleErrorIs(opts.gray, order);
    NextRevIs(s, ns, key);
    SignErrorIs(cfg, ns, key, payload, opts);
    if ns in s.items {
      QuotaErrorIs(s, ns, NsKey(ns, key) !in s.entries, |payload|);
    }
    if opts.actor != [] {
      CheckIff(s.acl, ns, opts.actor);
    }
  }

  // ----- Put: what it leaves behind -----

  function StoredAlgo(algo: Bytes): Bytes {
    if algo == [] then [] else if Signing.MeansHMAC(algo) then Lit("hmac-sha256") else Lit("ed25519")
  }

  function StableUnder(s: HubState, ns: Bytes, key: Bytes): int {
    if NsKey(ns, key) in s.entries then s.entries[NsKey(ns, key)].stable else 0
  }

  /** The version a successful Put stores. */
  ghost function NewVersion(
      s: HubState, ns: Bytes, key: Bytes, payload: Bytes, opts: PutOptions, order: seq<Bytes>, now: int): VersionMeta
    requires Gray.Visits(order, opts.gray) && Gray.NormalForm(opts.gray, order).Ok?
  {
    VersionMeta(|VersionsUnder(s, ns, key)| + 1, payload, opts.signature, StoredAlgo(opts.algo),
                if opts.author == [] then opts.actor else opts.author, now,
                Gray.NormalForm(opts.gray, order).value)
  }

  /** The whole state after it. */
  ghost function WithVersion(s: HubState, ns: Bytes, key: Bytes, v: VersionMeta, auditNow: int): HubState {
    var id := NsKey(ns, key);
    var e := Entry(ns, key, VersionsUnder(s, ns, key) + [v], v.rev,
                   if Full(v.gray) then v.rev else StableUnder(s, ns, key));
    var newKeys := if id in s.entries then 0 else 1;
    Recording(
      s.(entries := s.entries[id := e],
         use := s.use[ns := Usage(KeyCount(s.entries, ns) + newKeys, ByteCount(s.entries, ns) + |v.payload|)],
         last := s.last[id := Event(ns, key, v.rev, Lit("publish"))]),
      AuditRecord(0, auditNow, ns, key, v.rev, Lit("publish"), v.author, [], |v.payload|, true, []))
  }

  lemma {:induction false} AdmittedVersion(
      cfg: Config, s: HubState, ns: Bytes, key: Bytes, payload: Bytes, opts: PutOptions, order: seq<Bytes>, now: int)
    requires Gray.Visits(order, opts.gray) && Sound(s)
    requires Admission(cfg, s, ns, key, payload, opts, order, now).Admit?
    ensures Gray.NormalForm(opts.gray, order).Ok?
    ensures Admission(cfg, s, ns, key, payload, opts, order, now) ==
            Admit(NewVersion(s, ns, key, payload, opts, order, now), NsKey(ns, key) !in s.entries)
  {
    hide Gray.NormalForm, SignError, Quota.CheckError, NextRevOf, VersionsUnder, IsKey, NsKey, QuotaRefusal, SignRefusal,
      Acl.CheckError, MayWrite, Inv, AllValid, Gray.IsIteration, Signing.NormalizeAlgo, Signing.MeansHMAC,
      Signing.MeansEd;
    NextRevIs(s, ns, key);
    AdmissionIs(cfg, s, ns, key, payload, opts, order, now);
    Signing.StoredNameMeansAlike(opts.algo);
    assert StoredAlgo(opts.algo) == Signing.NormalizeAlgo(opts.algo) by {
      AcceptedAlgo(cfg, ns, key, payload, opts);
    }
  }

  lemma {:induction false} AcceptedAlgo(cfg: Config, ns: Bytes, key: Bytes, payload: Bytes, opts: PutOptions)
    requires SignRefusal(cfg, ns, key, payload, opts).None?
    ensures opts.algo == [] || Signing.MeansHMAC(opts.algo) || Signing.MeansEd(opts.algo)
    ensures StoredAlgo(opts.algo) == Signing.NormalizeAlgo(opts.algo)
  {
    hide Signing.GoodMAC, Signing.GoodEd, Signing.KeyUsed, Signing.NormalizeAlgo, Signing.MeansHMAC, Signing.MeansEd;
    Signing.StoredNameMeansAlike(opts.algo);
    EmptyAlgo();
  }

  lemma {:induction false} EmptyAlgo()
    ensures Signing.NormalizeAlgo([]) == []
  {}

  /** The counters after n keys and bytes more. */
  lemma {:induction false} CountersGrow(s: HubState, ns: Bytes, keys: nat, bytes: nat)
    requires Inv(s)
    ensures Applied(s.use, ns, keys, bytes) ==
            s.use[ns := Usage(KeyCount(s.entries, ns) + keys, ByteCount(s.entries, ns) + bytes)]
  {
    hide KeyCount, ByteCount, RegistryInv, StoreInv, LimitInv, LogInv;
  }

  /** Put, for every sound state and all arguments: it fails with the first check that fails, changing at
      most the audit trail, or stores exactly the new version. */
  lemma {:induction false} PutLaw(
      cfg: Config, s: HubState, ns: Bytes, key: Bytes, payload: Bytes, opts: PutOptions, order: seq<Bytes>,
      now: int, auditNow: int)
    requires Gray.Visits(order, opts.gray) && Sound(s)
    ensures var (t, r) := Put(cfg, s, ns, key, payload, opts, order, now, auditNow);
            match PutRefusal(cfg, s, ns, key, payload, opts)
            case Some(why) =>
              && r.Err? && r.error.kind == why
              && t == if why in UNAUDITED then s
                      else Recording(s, Failure(ns, key, Lit("publish"), opts.actor, r.error, auditNow))
            case None =>
              && Gray.NormalForm(opts.gray, order).Ok?
              && var v := NewVersion(s, ns, key, payload, opts, order, now);
                 r == Ok(v.rev) && t == WithVersion(s, ns, key, v, auditNow)
  {
    hide Admission, PutRefusal, Inv, AllValid, NewVersion, Appended, Created, NsKey, PutVersionSpec, HubState.Failed,
      Recording, Applied, KeyCount, ByteCount, Gray.NormalForm, Gray.IsIteration, Watch.LastKey;
    AdmissionIs(cfg, s, ns, key, payload, opts, order, now);
    match Admission(cfg, s, ns, key, payload, opts, order, now) {
      case Refuse(err, audited) =>
        FailureRecorded(s, ns, key, Lit("publish"), opts.actor, err, auditNow);
      case Admit(v, newKey) =>
        AdmittedVersion(cfg, s, ns, key, payload, opts, order, now);
        PutOutcome(cfg, s, ns, key, payload, opts, order, now, auditNow);
        PutEffect(cfg, s, ns, key, payload, opts, order, now, auditNow);
        CommittedIs(s, ns, key, PutVersionSpec(s.entries, ns, key, v).value, v, auditNow);
    }
  }

  lemma {:induction false} CommittedIs(s: HubState, ns: Bytes, key: Bytes, e: Entry, v: VersionMeta, auditNow: int)
    requires Inv(s) && v.rev == |VersionsUnder(s, ns, key)| + 1
    requires PutVersionSpec(s.entries, ns, key, v) == Ok(e)
    requires NsKey(ns, key) in s.entries ==> s.entries[NsKey(ns, key)].ns == ns && s.entries[NsKey(ns, key)].key == key
    ensures Committed(s, ns, key, e, v, NsKey(ns, key) !in s.entries, auditNow) == WithVersion(s, ns, key, v, auditNow)
  {
    hide Inv, Applied, KeyCount, ByteCount, NsKey, Watch.LastKey, PutVersionSpec, Recording, Audit.LogState.Succeeded;
    LastKeyIsNsKey(ns, key);
    StoredEntryIs(s, ns, key, v);
    CountersGrow(s, ns, if NsKey(ns, key) in s.entries then 0 else 1, |v.payload|);
    var t := Committed(s, ns, key, e, v, NsKey(ns, key) !in s.entries, auditNow);
    SuccessRecorded(t.(log := s.log), ns, key, Lit("publish"), v.author, e.head, |v.payload|, [], auditNow);
  }

  lemma {:induction false} StoredEntryIs(s: HubState, ns: Bytes, key: Bytes, v: VersionMeta)
    requires v.rev == |VersionsUnder(s, ns, key)| + 1 && PutVersionSpec(s.entries, ns, key, v).Ok?
    requires NsKey(ns, key) in s.entries ==> s.entries[NsKey(ns, key)].ns == ns && s.entries[NsKey(ns, key)].key == key
    ensures PutVersionSpec(s.entries, ns, key, v).value ==
            Entry(ns, key, VersionsUnder(s, ns, key) + [v], v.rev,
                  if Full(v.gray) then v.rev else StableUnder(s, ns, key))
  {
    hide NsKey, ChainError, FormatRev;
    if NsKey(ns, key) !in s.entries {
      assert [] + [v] == [v];
    }
  }

  // ----- Rollback -----

  ghost function RollbackRefusal(s: HubState, ns: Bytes, key: Bytes, rev: int, actor: Bytes): Option<Sentinel> {
    if s.closed then Some(Closed)
    else if ns !in s.items then Some(NotFound)
    else if actor != [] && !MayWrite(s.acl, ns, actor) then Some(Forbidden)
    else if NsKey(ns, key) !in s.entries then Some(NotFound)
    else if !(1 <= rev <= |s.entries[NsKey(ns, key)].versions|) then Some(BadRevision)
    else None
  }

  /** st is the largest revision up to rev that is released to everyone, 0 if there is none. */
  ghost predicate IsLastRelease(vs: seq<VersionMeta>, rev: int, st: int)
    requires rev <= |vs|
  {
    && (st == 0 || (1 <= st <= rev && Full(vs[st - 1].gray)))
    && forall i :: 0 <= i < rev && Full(vs[i].gray) ==> i < st
  }

  /** The whole state after a rollback that leaves Stable at st. */
  ghost function WithRollback(
      s: HubState, ns: Bytes, key: Bytes, rev: int, st: int, actor: Bytes, now: int): HubState
    requires NsKey(ns, key) in s.entries
  {
    var id := NsKey(ns, key);
    Recording(
      s.(entries := s.entries[id := s.entries[id].(head := rev, stable := st)],
         last := s.last[id := Event(ns, key, rev, Lit("rollback"))]),
      AuditRecord(0, now, ns, key, rev, Lit("rollback"), actor, [], 0, true, []))
  }

  lemma {:induction false} RollbackLaw(s: HubState, ns: Bytes, key: Bytes, rev: int, actor: Bytes, now: int)
    requires Sound(s)
    ensures var (t, err) := Rollback(s, ns, key, rev, actor, now);
            var id := NsKey(ns, key);
            match RollbackRefusal(s, ns, key, rev, actor)
            case Some(why) =>
              && err.Some? && err.value.kind == why
              && t == if s.closed || ns !in s.items then s
                      else Recording(s, Failure(ns, key, Lit("rollback"), actor, err.value, now))
            case None =>
              && err.None? && id in t.entries
              && t == WithRollback(s, ns, key, rev, t.entries[id].stable, actor, now)
              && IsLastRelease(s.entries[id].versions, rev, t.entries[id].stable)
  {
    hide Inv, AllValid, NsKey, HubState.Failed, Recording, Watch.LastKey, Acl.CheckError, MayWrite, RolledBack,
      Audit.LogState.Succeeded, ErrorText, IsLastRelease;
    if actor != [] {
      CheckIff(s.acl, ns, actor);
    }
    LastKeyIsNsKey(ns, key);
    if NsKey(ns, key) in s.entries {
      RolledBackIs(s, NsKey(ns, key), rev);
    }
    var (t, err) := Rollback(s, ns, key, rev, actor, now);
    if err.Some? {
      FailureRecorded(s, ns, key, Lit("rollback"), actor, err.value, now);
    } else {
      SuccessRecorded(t.(log := s.log), ns, key, Lit("rollback"), actor, rev, 0, [], now);
    }
  }

  lemma {:induction false} RolledBackIs(s: HubState, id: Bytes, rev: int)
    requires AllValid(s) && id in s.entries
    ensures var e := s.entries[id];
            var r := RolledBack(e, rev);
            if 1 <= rev <= |e.versions| then
              r.Ok? && r.value == e.(head := rev, stable := r.value.stable) &&
              IsLastRelease(e.versions, rev, r.value.stable)
            else r.Err? && r.error.kind == BadRevision
  {
    var e := s.entries[id];
    assert ValidChain(e);
    forall i | 0 <= i < |e.versions|
      ensures Released(e, i + 1) == Full(e.versions[i].gray)
    {}
  }

  // ----- DeleteKey -----

  ghost function DeleteKeyRefusal(s: HubState, ns: Bytes, key: Bytes, actor: Bytes): Option<Sentinel> {
    if s.closed then Some(Closed)
    else if actor != [] && !MayWrite(s.acl, ns, actor) then Some(Forbidden)
    else if NsKey(ns, key) !in s.entries then Some(NotFound)
    else None
  }

  ghost function WithoutKey(s: HubState, ns: Bytes, key: Bytes, actor: Bytes, now: int): HubState
    requires NsKey(ns, key) in s.entries
  {
    var id := NsKey(ns, key);
    var e := s.entries[id];
    var bytes: int := PayloadBytes(e.versions);
    Recording(
      s.(entries := s.entries - {id},
         use := s.use[ns := Usage(KeyCount(s.entries, ns) - 1, ByteCount(s.entries, ns) - bytes)],
         last := s.last[id := Event(ns, key, e.head, Lit("delete"))]),
      AuditRecord(0, now, ns, key, e.head, Lit("delete"), actor, [], bytes, true, []))
  }

  lemma {:induction false} DeleteKeyLaw(s: HubState, ns: Bytes, key: Bytes, actor: Bytes, now: int)
    requires Sound(s)
    ensures var (t, err) := DeleteKey(s, ns, key, actor, now);
            match DeleteKeyRefusal(s, ns, key, actor)
            case Some(why) =>
              && err.Some? && err.value.kind == why
              && t == if why != NotFound then s
                      else Recording(s, Failure(ns, key, Lit("delete"), actor, err.value, now))
            case None => err.None? && t == WithoutKey(s, ns, key, actor, now)
  {
    hide Inv, AllValid, NsKey, HubState.Failed, Recording, Watch.LastKey, Acl.CheckError, MayWrite, Applied, KeyCount,
      ByteCount, PayloadBytes, Audit.LogState.Succeeded, ErrorText;
    if actor != [] {
      CheckIff(s.acl, ns, actor);
    }
    LastKeyIsNsKey(ns, key);
    var (t, err) := DeleteKey(s, ns, key, actor, now);
    if err.Some? {
      FailureRecorded(s, ns, key, Lit("delete"), actor, err.value, now);
    } else {
      var e := s.entries[NsKey(ns, key)];
      CountersShrink(s, ns, key);
      SuccessRecorded(t.(log := s.log), ns, key, Lit("delete"), actor, e.head, PayloadBytes(e.versions), [], now);
    }
  }

  lemma {:induction false} CountersShrink(s: HubState, ns: Bytes, key: Bytes)
    requires Inv(s) && NsKey(ns, key) in s.entries
    ensures var bytes: int := PayloadBytes(s.entries[NsKey(ns, key)].versions);
            Applied(s.use, ns, -1, -bytes) ==
            s.use[ns := Usage(KeyCount(s.entries, ns) - 1, ByteCount(s.entries, ns) - bytes)]
  {
    hide KeyCount, ByteCount, RegistryInv, StoreInv, LimitInv, LogInv, PayloadBytes, NsKey, AddUsage;
    DeleteSubtractsExactly(s, ns, key);
  }

  // ----- Namespaces -----

  ghost function CreateNSRefusal(s: HubState, spec: NSSpec): Option<Sentinel> {
    if s.closed then Some(Closed)
    else if !IsNSID(spec.id) then Some(InvalidID)
    else if !IsOwner(spec.owner) || spec.maxKeys < 0 || spec.maxBytes < 0 then Some(InvalidArg)
    else if spec.id in s.items then Some(AlreadyExists)
    else None
  }

  /** A limit of 0 asks for the default. */
  ghost function WithNamespace(s: HubState, spec: NSSpec, now: int, auditNow: int): HubState {
    var n := Namespace(spec.id, spec.owner, now, if spec.maxKeys == 0 then 1024 else spec.maxKeys,
                       if spec.maxBytes == 0 then 33554432 else spec.maxBytes);
    Recording(
      s.(items := s.items[spec.id := n],
         acl := Acl(s.acl.grants, s.acl.owners[spec.id := spec.owner])),
      AuditRecord(0, auditNow, spec.id, [], 0, Lit("create_ns"), spec.owner, Lit("owner=") + spec.owner, 0, true, []))
  }

  lemma {:induction false} CreateNSLaw(s: HubState, spec: NSSpec, now: int, auditNow: int)
    ensures var (t, r) := CreateNS(s, spec, now, auditNow);
            match CreateNSRefusal(s, spec)
            case Some(why) =>
              && r.Err? && r.error.kind == why
              && t == if s.closed then s
                      else Recording(s, Failure(spec.id, [], Lit("create_ns"), spec.actor, r.error, auditNow))
            case None =>
              t == WithNamespace(s, spec, now, auditNow) && r == Ok(t.items[spec.id])
  {
    hide IsNSID, IsOwner, HubState.Failed, Recording, Audit.LogState.Succeeded, ErrorText;
    var (t, r) := CreateNS(s, spec, now, auditNow);
    if r.Err? {
      FailureRecorded(s, spec.id, [], Lit("create_ns"), spec.actor, r.error, auditNow);
    } else {
      SuccessRecorded(t.(log := s.log), spec.id, [], Lit("create_ns"), spec.owner, 0, 0, Lit("owner=") + spec.owner,
                      auditNow);
    }
  }

  ghost function DeleteNSRefusal(s: HubState, id: Bytes, actor: Bytes): Option<Sentinel> {
    if s.closed then Some(Closed)
    else if id !in s.items then Some(NotFound)
    else if actor != [] && !MayAdmin(s.acl, id, actor) then Some(Forbidden)
    else None
  }

  /** Nothing of the namespace is left; every entry removed is published as deleted. */
  ghost function WithoutNamespace(s: HubState, ns: Bytes, actor: Bytes, now: int): HubState {
    Recording(
      s.(items := s.items - {ns},
         acl := Acl(map k | k in s.acl.grants && k.ns != ns :: s.acl.grants[k], s.acl.owners - {ns}),
         entries := map id | id in s.entries && s.entries[id].ns != ns :: s.entries[id],
         use := s.use - {ns},
         last := map id | id in s.last.Keys + IdsOf(s.entries, ns) ::
           if id in IdsOf(s.entries, ns) then Event(ns, s.entries[id].key, s.entries[id].head, Lit("delete"))
           else s.last[id]),
      AuditRecord(0, now, ns, [], 0, Lit("delete_ns"), actor, [], KeyCount(s.entries, ns), true, []))
  }

  lemma {:induction false} DeleteNSLaw(s: HubState, ns: Bytes, actor: Bytes, now: int)
    ensures var (t, err) := DeleteNS(s, ns, actor, now);
            match DeleteNSRefusal(s, ns, actor)
            case Some(why) =>
              && err.Some? && err.value.kind == why
              && t == if why != NotFound then s
                      else Recording(s, Failure(ns, [], Lit("delete_ns"), actor, err.value, now))
            case None => err.None? && t == WithoutNamespace(s, ns, actor, now)
  {
    hide HubState.Failed, Recording, Audit.LogState.Succeeded, ErrorText, Acl.CheckError, MayAdmin, IdsOf, OfNS,
      LastAfterRemoval;
    if actor != [] {
      CheckIff(s.acl, ns, actor);
    }
    var (t, err) := DeleteNS(s, ns, actor, now);
    if err.Some? {
      FailureRecorded(s, ns, [], Lit("delete_ns"), actor, err.value, now);
    } else {
      RemovalIs(s, ns);
      SuccessRecorded(t.(log := s.log), ns, [], Lit("delete_ns"), actor, 0, |OfNS(s.entries, ns)|, [], now);
    }
  }

  lemma {:induction false} RemovalIs(s: HubState, ns: Bytes)
    ensures |OfNS(s.entries, ns)| == KeyCount(s.entries, ns)
    ensures LastAfterRemoval(s.last, OfNS(s.entries, ns)) ==
            map id | id in s.last.Keys + IdsOf(s.entries, ns) ::
              if id in IdsOf(s.entries, ns) then Event(ns, s.entries[id].key, s.entries[id].head, Lit("delete"))
              else s.last[id]
  {
    var gone := OfNS(s.entries, ns);
    assert gone.Keys == IdsOf(s.entries, ns);
    assert forall id :: id in gone ==> gone[id] == s.entries[id] && gone[id].ns == ns;
    PublishedRemovals(s.last, gone, IdsOf(s.entries, ns), s.entries, ns);
  }

  lemma {:induction false} PublishedRemovals(
      last: map<Bytes, Event>, gone: Entries, ids: set<Bytes>, m: Entries, ns: Bytes)
    requires gone.Keys == ids <= m.Keys && forall id :: id in gone ==> gone[id] == m[id] && gone[id].ns == ns
    ensures LastAfterRemoval(last, gone) ==
            map id | id in last.Keys + ids ::
              if id in ids then Event(ns, m[id].key, m[id].head, Lit("delete")) else last[id]
  {
    hide Lit;
  }

  // ----- Grant -----

  ghost function GrantRefusal(s: HubState, ns: Bytes, subject: Bytes, role: Bytes, actor: Bytes): Option<Sentinel> {
    if ns !in s.items then Some(NotFound)
    else if actor != [] && !MayAdmin(s.acl, ns, actor) then Some(Forbidden)
    else if RoleNamed(role).None? || subject == [] || |subject| > 64 || 0 in subject then Some(InvalidArg)
    else None
  }

  function RoleNamed(role: Bytes): Option<Role> {
    if role == [] || role == Lit("none") then Some(NoRole)
    else if role == Lit("read") || role == Lit("reader") then Some(Reader)
    else if role == Lit("write") || role == Lit("writer") then Some(Writer)
    else if role == Lit("admin") then Some(Admin)
    else None
  }

  lemma {:induction false} ParseRoleIs(role: Bytes)
    ensures ParseRole(role).Err? <==> RoleNamed(role).None?
    ensures ParseRole(role).Ok? ==> RoleNamed(role) == Some(ParseRole(role).value)
    ensures ParseRole(role).Err? ==> ParseRole(role).error.kind == InvalidArg
  {}

  /** One grant is set, or taken away by the role "none"; nothing is recorded or published, and a closed hub
      grants all the same. */
  lemma {:induction false} GrantLaw(s: HubState, ns: Bytes, subject: Bytes, role: Bytes, actor: Bytes)
    requires Sound(s)
    ensures var (t, err) := Grant(s, ns, subject, role, actor);
            match GrantRefusal(s, ns, subject, role, actor)
            case Some(why) => err.Some? && err.value.kind == why && t == s
            case None =>
              var k := GrantKey(ns, subject);
              var r := RoleNamed(role).value;
              && err.None?
              && t == s.(acl := Acl(if r == NoRole then s.acl.grants - {k} else s.acl.grants[k := r], s.acl.owners))
  {
    hide Inv, AllValid, Acl.CheckError, MayAdmin, RoleNamed, ParseRole, Sound;
    if actor != [] {
      CheckIff(s.acl, ns, actor);
    }
    ParseRoleIs(role);
    if ns in s.items {
      RegisteredIsNSID(s, ns);
    }
  }

  lemma {:induction false} RegisteredIsNSID(s: HubState, ns: Bytes)
    requires Sound(s) && ns in s.items
    ensures IsNSID(ns)
  {}
}
