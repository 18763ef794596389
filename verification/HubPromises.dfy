/** What callers of the hub can rely on: who can change what, that namespaces do not see each other, what
    reading returns, and what a stored signature proves. */
module HubPromises {
  import opened Base
  import opened Text
  import opened Meta
  import opened Validate
  import opened StoreEntry
  import opened StoreMemory
  import opened Quota
  import opened Access
  import opened HubModel
  import opened HubInvariants
  import opened HubRuns
  import opened HubLaws
  import Gray
  import Signing

  // ----- Authority -----

  /** Why the call fails, if it does. */
  function Answer(cfg: Config, s: HubState, op: Op): Option<Error> {
    match op
    case OpCreateNS(spec, now, auditNow) =>
      var r := CreateNS(s, spec, now, auditNow).1;
      if r.Ok? then None else Some(r.error)
    case OpDeleteNS(id, actor, auditNow) => DeleteNS(s, id, actor, auditNow).1
    case OpPut(ns, key, payload, opts, order, now, auditNow) =>
      var r := Put(cfg, s, ns, key, payload, opts, order, now, auditNow).1;
      if r.Ok? then None else Some(r.error)
    case OpRollback(ns, key, rev, actor, auditNow) => Rollback(s, ns, key, rev, actor, auditNow).1
    case OpDeleteKey(ns, key, actor, auditNow) => DeleteKey(s, ns, key, actor, auditNow).1
    case OpGrant(ns, subject, role, actor) => Grant(s, ns, subject, role, actor).1
    case OpClose => None
  }

  /** Creating a namespace and closing the hub ask for no actor. */
  function ActorOf(op: Op): Bytes {
    match op
    case OpCreateNS(_, _, _) => []
    case OpDeleteNS(_, actor, _) => actor
    case OpPut(_, _, _, opts, _, _, _) => opts.actor
    case OpRollback(_, _, _, actor, _) => actor
    case OpDeleteKey(_, _, actor, _) => actor
    case OpGrant(_, _, _, actor) => actor
    case OpClose => []
  }

  function SpaceOf(op: Op): Bytes {
    match op
    case OpCreateNS(spec, _, _) => spec.id
    case OpDeleteNS(id, _, _) => id
    case OpPut(ns, _, _, _, _, _, _) => ns
    case OpRollback(ns, _, _, _, _) => ns
    case OpDeleteKey(ns, _, _, _) => ns
    case OpGrant(ns, _, _, _) => ns
    case OpClose => []
  }

  /** The actor of the call owns the namespace, or holds the role "admin" there, or, if the call is one on a
      key, the role "writer". */
  ghost predicate Entitled(s: HubState, op: Op) {
    if op.OpPut? || op.OpRollback? || op.OpDeleteKey? then MayWrite(s.acl, SpaceOf(op), ActorOf(op))
    else MayAdmin(s.acl, SpaceOf(op), ActorOf(op))
  }

  /** The checks that come before the access list pass. */
  ghost predicate Heard(s: HubState, op: Op) {
    match op
    case OpPut(ns, key, payload, _, _, _, _) => !s.closed && IsKey(key) && payload != [] && ns in s.items
    case OpRollback(ns, _, _, _, _) => !s.closed && ns in s.items
    case OpDeleteKey(_, _, _, _) => !s.closed
    case OpDeleteNS(id, _, _) => !s.closed && id in s.items
    case OpGrant(ns, _, _, _) => ns in s.items
    case _ => false
  }

  /** Each call by its law. */
  lemma {:induction false} CallLaw(cfg: Config, s: HubState, op: Op)
    requires Sound(s)
    ensures var err := Answer(cfg, s, op);
            && (err.Some? ==> Step(cfg, s, op) == s.(log := Step(cfg, s, op).log))
            && (err.None? && ActorOf(op) != [] ==> Entitled(s, op))
            && ((err.Some? && err.value.kind == Forbidden) <==>
                Heard(s, op) && ActorOf(op) != [] && !Entitled(s, op))
  {
    hide Sound, IsKey, NsKey, MayWrite, MayAdmin, Put, Rollback, DeleteKey, DeleteNS, CreateNS, Grant, NewVersion,
      WithVersion, WithRollback, WithoutKey, WithNamespace, WithoutNamespace, IsNSID, IsOwner, RoleNamed, ErrorText,
      Gray.IsIteration, Gray.NormalForm, TrimSpace;
    match op {
      case OpCreateNS(spec, now, auditNow) => CreateNSLaw(s, spec, now, auditNow);
      case OpDeleteNS(id, actor, auditNow) => DeleteNSLaw(s, id, actor, auditNow);
      case OpPut(ns, key, payload, opts, order, now, auditNow) =>
        PutLaw(cfg, s, ns, key, payload, opts, order, now, auditNow);
      case OpRollback(ns, key, rev, actor, auditNow) => RollbackLaw(s, ns, key, rev, actor, auditNow);
      case OpDeleteKey(ns, key, actor, auditNow) => DeleteKeyLaw(s, ns, key, actor, auditNow);
      case OpGrant(ns, subject, role, actor) => GrantLaw(s, ns, subject, role, actor);
      case OpClose =>
    }
  }

  /** On every run, a call by a named actor that changes more than the audit trail is one by the owner of the
      namespace or by a holder of the role "admin" there; calls on keys are open to "writer" as well. */
  lemma {:induction false} OnlyTheEntitledChange(cfg: Config, auditCap: int, ops: seq<Op>, op: Op)
    requires ActorOf(op) != []
    requires var s := Run(cfg, New(auditCap), ops); Step(cfg, s, op) != s.(log := Step(cfg, s, op).log)
    ensures var acl := Run(cfg, New(auditCap), ops).acl;
            var k := GrantKey(SpaceOf(op), ActorOf(op));
            || (k.ns in acl.owners && acl.owners[k.ns] == k.subject)
            || (k in acl.grants && acl.grants[k] == Admin)
            || (k in acl.grants && acl.grants[k] == Writer && (op.OpPut? || op.OpRollback? || op.OpDeleteKey?))
  {
    hide Sound, Run, New, Step, Answer, Heard;
    RunsAreSound(cfg, auditCap, ops);
    CallLaw(cfg, Run(cfg, New(auditCap), ops), op);
  }

  /** The owner and holders of such a role are never refused as forbidden; every other named actor is, as
      soon as the checks before the access list pass. */
  lemma {:induction false} ForbiddenIff(cfg: Config, auditCap: int, ops: seq<Op>, op: Op)
    ensures var s := Run(cfg, New(auditCap), ops);
            var err := Answer(cfg, s, op);
            (err.Some? && err.value.kind == Forbidden) <==> Heard(s, op) && ActorOf(op) != [] && !Entitled(s, op)
  {
    hide Sound, Run, New, Step, Answer, Heard, Entitled;
    RunsAreSound(cfg, auditCap, ops);
    CallLaw(cfg, Run(cfg, New(auditCap), ops), op);
  }

  /** A failed call changes nothing but the audit trail. */
  lemma {:induction false} FailedCallsAreSilent(cfg: Config, auditCap: int, ops: seq<Op>, op: Op)
    requires Answer(cfg, Run(cfg, New(auditCap), ops), op).Some?
    ensures var s := Run(cfg, New(auditCap), ops); Step(cfg, s, op) == s.(log := Step(cfg, s, op).log)
  {
    hide Sound, Run, New, Step, Answer, Heard, Entitled;
    RunsAreSound(cfg, auditCap, ops);
    CallLaw(cfg, Run(cfg, New(auditCap), ops), op);
  }

  /** A closed hub is frozen, except for its grants. */
  lemma {:induction false} ClosedHubIsFrozen(cfg: Config, s: HubState, op: Op)
    requires s.closed
    ensures Step(cfg, s, op) == s.(acl := Step(cfg, s, op).acl)
    ensures !op.OpGrant? ==> Step(cfg, s, op) == s
    ensures op.OpGrant? || op.OpClose? || Answer(cfg, s, op) == Some(Error(Closed, []))
  {
    hide NsKey, Gray.IsIteration, Acl.CheckError, ParseRole, Acl.Granted, Acl.GrantError;
  }

  // ----- Namespaces do not see each other -----

  predicate SameAt<T(==)>(m: map<Bytes, T>, m': map<Bytes, T>, k: Bytes) {
    (k in m <==> k in m') && (k in m ==> m[k] == m'[k])
  }

  /** Nothing about the namespace differs: registration, owner, grants, chains, counter, last events. */
  ghost predicate SameSpace(s: HubState, t: HubState, ns: Bytes) {
    && SameAt(s.items, t.items, ns) && SameAt(s.acl.owners, t.acl.owners, ns) && SameAt(s.use, t.use, ns)
    && (forall k: GrantKey :: k.ns == ns ==>
      (k in s.acl.grants <==> k in t.acl.grants) && (k in s.acl.grants ==> s.acl.grants[k] == t.acl.grants[k]))
    && (forall key :: SameAt(s.entries, t.entries, NsKey(ns, key)))
    && (forall key :: SameAt(s.last, t.last, NsKey(ns, key)))
  }

  lemma {:induction false} OtherKeyStays(s: HubState, t: HubState, ns: Bytes, key: Bytes, other: Bytes)
    requires NUL !in ns && NUL !in other && other != ns
    requires t.items == s.items && t.acl == s.acl && t.use.Keys <= s.use.Keys + {ns}
    requires forall n :: n in s.use && n != ns ==> n in t.use && t.use[n] == s.use[n]
    requires forall id :: id != NsKey(ns, key) ==> SameAt(s.entries, t.entries, id) && SameAt(s.last, t.last, id)
    ensures SameSpace(s, t, other)
  {
    hide NsKey;
    forall k
      ensures SameAt(s.entries, t.entries, NsKey(other, k)) && SameAt(s.last, t.last, NsKey(other, k))
    {
      if NsKey(other, k) == NsKey(ns, key) {
        NsKeyNamesSpace(other, k, ns, key);
        assert false;
      }
    }
  }

  lemma {:induction false} RegisteredHasNoNul(s: HubState, ns: Bytes)
    requires Sound(s) && ns in s.items
    ensures NUL !in ns
  {
    ValidNamesHaveNoNul(ns, []);
  }

  lemma {:induction false} DeleteNSKeepsOthers(s: HubState, ns: Bytes, actor: Bytes, now: int, other: Bytes)
    requires Sound(s) && ns in s.items && NUL !in other && other != ns
    ensures SameSpace(s, WithoutNamespace(s, ns, actor, now), other)
  {
    hide NsKey, KeyCount, Sound;
    RegisteredHasNoNul(s, ns);
    forall k
      ensures NsKey(other, k) !in IdsOf(s.entries, ns)
    {
      if NsKey(other, k) in IdsOf(s.entries, ns) {
        var e := s.entries[NsKey(other, k)];
        StoredUnderOwnName(s, NsKey(other, k));
        NsKeyNamesSpace(other, k, e.ns, e.key);
        assert false;
      }
    }
  }

  lemma {:induction false} StoredUnderOwnName(s: HubState, id: Bytes)
    requires Sound(s) && id in s.entries
    ensures id == NsKey(s.entries[id].ns, s.entries[id].key)
  {}

  /** On every run, no call on one namespace changes anything about another, whether or not that is
      registered. */
  lemma {:induction false} NamespacesAreIsolated(cfg: Config, auditCap: int, ops: seq<Op>, op: Op, other: Bytes)
    requires other != SpaceOf(op) && NUL !in other
    ensures var s := Run(cfg, New(auditCap), ops); SameSpace(s, Step(cfg, s, op), other)
  {
    hide Sound, Run, New, Step, Answer;
    RunsAreSound(cfg, auditCap, ops);
    StepKeepsOthers(cfg, Run(cfg, New(auditCap), ops), op, other);
  }

  lemma {:induction false} StepKeepsOthers(cfg: Config, s: HubState, op: Op, other: Bytes)
    requires Sound(s) && other != SpaceOf(op) && NUL !in other
    ensures SameSpace(s, Step(cfg, s, op), other)
  {
    hide Sound, IsKey, NsKey, MayWrite, MayAdmin, Put, Rollback, DeleteKey, DeleteNS, CreateNS, Grant, NewVersion,
      WithVersion, WithRollback, WithoutKey, WithNamespace, WithoutNamespace, IsNSID, IsOwner, RoleNamed, ErrorText,
      Gray.IsIteration, Gray.NormalForm, TrimSpace, SameSpace, IsLastRelease;
    var t := Step(cfg, s, op);
    CallLaw(cfg, s, op);
    if Answer(cfg, s, op).Some? {
      OnlyTheTrailChanges(s, t, other);
    } else {
      match op {
        case OpCreateNS(spec, now, auditNow) =>
          CreateNSLaw(s, spec, now, auditNow);
          CreateNSKeepsOthers(s, spec, now, auditNow, other);
        case OpDeleteNS(id, actor, auditNow) =>
          DeleteNSLaw(s, id, actor, auditNow);
          DeleteNSKeepsOthers(s, id, actor, auditNow, other);
        case OpPut(ns, key, payload, opts, order, now, auditNow) =>
          PutLaw(cfg, s, ns, key, payload, opts, order, now, auditNow);
          PutKeepsOthers(s, ns, key, NewVersion(s, ns, key, payload, opts, order, now), auditNow, other);
        case OpRollback(ns, key, rev, actor, auditNow) =>
          RollbackLaw(s, ns, key, rev, actor, auditNow);
          RollbackKeepsOthers(s, ns, key, rev, t.entries[NsKey(ns, key)].stable, actor, auditNow, other);
        case OpDeleteKey(ns, key, actor, auditNow) =>
          DeleteKeyLaw(s, ns, key, actor, auditNow);
          DeleteKeyKeepsOthers(s, ns, key, actor, auditNow, other);
        case OpGrant(ns, subject, role, actor) =>
          GrantLaw(s, ns, subject, role, actor);
          OneGranted(s, t, GrantKey(ns, subject), other);
        case OpClose =>
          OnlyTheTrailChanges(s, t, other);
      }
    }
  }

  lemma {:induction false} StoredIsRegistered(s: HubState, ns: Bytes, key: Bytes)
    requires Sound(s) && NsKey(ns, key) in s.entries
    ensures ns in s.items
  {
    FoundUnderOwnName(s, ns, key);
  }

  lemma {:induction false} OnlyTheTrailChanges(s: HubState, t: HubState, other: Bytes)
    requires t == s.(log := t.log, closed := t.closed)
    ensures SameSpace(s, t, other)
  {}

  lemma {:induction false} PutKeepsOthers(
      s: HubState, ns: Bytes, key: Bytes, v: VersionMeta, auditNow: int, other: Bytes)
    requires Sound(s) && ns in s.items && NUL !in other && other != ns
    ensures SameSpace(s, WithVersion(s, ns, key, v, auditNow), other)
  {
    hide NsKey, KeyCount, ByteCount, Sound, SameSpace, VersionsUnder, StableUnder;
    RegisteredHasNoNul(s, ns);
    OtherKeyStays(s, WithVersion(s, ns, key, v, auditNow), ns, key, other);
  }

  lemma {:induction false} RollbackKeepsOthers(
      s: HubState, ns: Bytes, key: Bytes, rev: int, st: int, actor: Bytes, now: int, other: Bytes)
    requires Sound(s) && NsKey(ns, key) in s.entries && NUL !in other && other != ns
    ensures SameSpace(s, WithRollback(s, ns, key, rev, st, actor, now), other)
  {
    hide NsKey, Sound, SameSpace;
    StoredIsRegistered(s, ns, key);
    RegisteredHasNoNul(s, ns);
    OtherKeyStays(s, WithRollback(s, ns, key, rev, st, actor, now), ns, key, other);
  }

  lemma {:induction false} DeleteKeyKeepsOthers(
      s: HubState, ns: Bytes, key: Bytes, actor: Bytes, now: int, other: Bytes)
    requires Sound(s) && NsKey(ns, key) in s.entries && NUL !in other && other != ns
    ensures SameSpace(s, WithoutKey(s, ns, key, actor, now), other)
  {
    hide NsKey, KeyCount, ByteCount, PayloadBytes, Sound, SameSpace;
    StoredIsRegistered(s, ns, key);
    RegisteredHasNoNul(s, ns);
    OtherKeyStays(s, WithoutKey(s, ns, key, actor, now), ns, key, other);
  }

  lemma {:induction false} CreateNSKeepsOthers(s: HubState, spec: NSSpec, now: int, auditNow: int, other: Bytes)
    requires other != spec.id
    ensures SameSpace(s, WithNamespace(s, spec, now, auditNow), other)
  {
    hide NsKey, Lit;
  }

  lemma {:induction false} OneGranted(s: HubState, t: HubState, k: GrantKey, other: Bytes)
    requires other != k.ns && t == s.(acl := t.acl) && t.acl.owners == s.acl.owners
    requires t.acl.grants - {k} == s.acl.grants - {k}
    ensures SameSpace(s, t, other)
  {
    forall g: GrantKey | g.ns == other
      ensures g in s.acl.grants <==> g in t.acl.grants
      ensures g in s.acl.grants ==> s.acl.grants[g] == t.acl.grants[g]
    {
      assert g in s.acl.grants - {k} <==> g in s.acl.grants;
      assert g in t.acl.grants - {k} <==> g in t.acl.grants;
    }
  }

  // ----- What was put can be read -----

  lemma {:induction false} OneMoreCall(cfg: Config, auditCap: int, ops: seq<Op>, op: Op)
      returns (c: map<Bytes, Chronicle>)
    ensures var t := Step(cfg, Run(cfg, New(auditCap), ops), op); Inv(t) && Chronicled(t, c)
  {
    hide Inv, WatchInv, Chronicled, Chronicles, New, Step;
    assert (ops + [op])[..|ops|] == ops;
    RunsAreSafe(cfg, auditCap, ops + [op]);
    c := Chronicles(cfg, New(auditCap), map[], ops + [op]);
  }

  lemma {:induction false} RunStaysSound(cfg: Config, s: HubState, c: map<Bytes, Chronicle>, ops: seq<Op>)
    requires Inv(s) && Chronicled(s, c)
    ensures Sound(Run(cfg, s, ops))
  {
    hide Inv, WatchInv, AllValid, Chronicled, Chronicles, Run;
    RunKeeps(cfg, s, c, ops);
    ChronicledIsValid(Run(cfg, s, ops), Chronicles(cfg, s, c, ops));
  }

  /** On every run: what a Put stored under revision n is what GetRev gives for n, after any further calls
      that leave the key in place and the hub open. */
  lemma {:induction false} PutThenGetRev(
      cfg: Config, auditCap: int, ops: seq<Op>, ns: Bytes, key: Bytes, payload: Bytes, opts: PutOptions,
      order: seq<Bytes>, now: int, auditNow: int, more: seq<Op>)
    requires Gray.Visits(order, opts.gray)
    requires Put(cfg, Run(cfg, New(auditCap), ops), ns, key, payload, opts, order, now, auditNow).1.Ok?
    requires var t := Put(cfg, Run(cfg, New(auditCap), ops), ns, key, payload, opts, order, now, auditNow).0;
             && (forall k :: 0 <= k <= |more| ==> NsKey(ns, key) in Run(cfg, t, more[..k]).entries)
             && !Run(cfg, t, more).closed
    ensures var (t, n) := Put(cfg, Run(cfg, New(auditCap), ops), ns, key, payload, opts, order, now, auditNow);
            var got := GetRev(Run(cfg, t, more), ns, key, n.value);
            && got.Ok? && got.value.ns == ns && got.value.key == key && got.value.rev == n.value
            && got.value.payload == payload && got.value.ts == now
            && got.value.author == (if opts.author == [] then opts.actor else opts.author)
            && got.value.algo == StoredAlgo(opts.algo)
            && Gray.NormalForm(opts.gray, order) == Ok(got.value.gray)
  {
    hide Inv, AllValid, Chronicled, New, Run, Put, PutRefusal, NsKey, KeyCount, ByteCount, GetRev, Gray.NormalForm,
      Gray.IsIteration, StoredAlgo;
    var s := Run(cfg, New(auditCap), ops);
    var op: Op := OpPut(ns, key, payload, opts, order, now, auditNow);
    RunsAreSound(cfg, auditCap, ops);
    PutLaw(cfg, s, ns, key, payload, opts, order, now, auditNow);
    var t := Put(cfg, s, ns, key, payload, opts, order, now, auditNow).0;
    assert Step(cfg, s, op) == t;
    var c := OneMoreCall(cfg, auditCap, ops, op);
    ChainsOnlyGrow(cfg, t, c, more, NsKey(ns, key));
    RunStaysSound(cfg, t, c, more);
    var n := |VersionsUnder(s, ns, key)|;
    var vs := t.entries[NsKey(ns, key)].versions;
    assert vs[n] == NewVersion(s, ns, key, payload, opts, order, now);
    assert Run(cfg, t, more).entries[NsKey(ns, key)].versions[n] == vs[n];
    GetRevReads(Run(cfg, t, more), ns, key, n + 1);
  }

  // ----- What a stored signature proves -----

  /** On every run, a signature that Put accepts is the MAC of namespace, key, bound revision and payload
      under the key used, or verifies under the public key used; without one nothing is stored where
      signing is required, and nothing under an algorithm. */
  lemma {:induction false} AcceptedSignatureIsGood(
      cfg: Config, auditCap: int, ops: seq<Op>, ns: Bytes, key: Bytes, payload: Bytes, opts: PutOptions,
      order: seq<Bytes>, now: int, auditNow: int)
    requires Gray.Visits(order, opts.gray)
    requires Put(cfg, Run(cfg, New(auditCap), ops), ns, key, payload, opts, order, now, auditNow).1.Ok?
    ensures var id := if opts.keyID == [] then cfg.keys.deflt else opts.keyID;
            var msg := Signing.Canonical(
              cfg.crypto.sha256, ns, key, if opts.bindRev > 0 then opts.bindRev else 0, payload);
            var mac := Signing.KeyUsed(cfg.keys.hmac, ns, id, Signing.ALGO_HMAC);
            var ed := Signing.KeyUsed(cfg.keys.ed, ns, id, Signing.ALGO_ED25519);
            if opts.signature == [] then !cfg.requireSign && opts.algo == []
            else
              || (&& Signing.MeansHMAC(opts.algo)
                  && mac in cfg.keys.hmac && cfg.keys.hmac[mac] != []
                  && opts.signature == cfg.crypto.hmac(cfg.keys.hmac[mac], msg))
              || (&& Signing.MeansEd(opts.algo)
                  && ed in cfg.keys.ed && |cfg.keys.ed[ed].pub| == 32 && |opts.signature| == 64
                  && cfg.crypto.edVerify(cfg.keys.ed[ed].pub, msg, opts.signature))
  {
    hide Sound, Run, New, Put, NsKey, KeyCount, ByteCount, Recording, WithVersion, NewVersion, Gray.NormalForm,
      Gray.IsIteration, Signing.Canonical, Signing.MeansHMAC, Signing.MeansEd, Signing.KeyUsed, MayWrite, IsKey;
    RunsAreSound(cfg, auditCap, ops);
    PutLaw(cfg, Run(cfg, New(auditCap), ops), ns, key, payload, opts, order, now, auditNow);
  }

  /** If no two messages have the same MAC, then a MAC that is accepted by two Puts, on whatever runs, was
      made for the namespace, key, bound revision, payload length and payload digest of both. */
  lemma {:induction false} AcceptedMACIsForOneMessage(
      cfg: Config, auditCap: int, ops: seq<Op>, op: Op, auditCap': int, ops': seq<Op>, op': Op)
    requires forall k, k', m, m' :: cfg.crypto.hmac(k, m) == cfg.crypto.hmac(k', m') ==> m == m'
    requires op.OpPut? && Answer(cfg, Run(cfg, New(auditCap), ops), op).None?
    requires op'.OpPut? && Answer(cfg, Run(cfg, New(auditCap'), ops'), op').None?
    requires op.opts.signature == op'.opts.signature != []
    requires !Signing.MeansEd(op.opts.algo) && !Signing.MeansEd(op'.opts.algo)
    ensures op.ns == op'.ns && op.key == op'.key && |op.payload| == |op'.payload|
    ensures cfg.crypto.sha256(op.payload) == cfg.crypto.sha256(op'.payload)
    ensures op.opts.bindRev > 0 || op'.opts.bindRev > 0 ==> op.opts.bindRev == op'.opts.bindRev
  {
    hide Sound, Run, New, Answer, Signing.GoodMAC, Signing.MeansEd;
    AcceptedMAC(cfg, auditCap, ops, op);
    AcceptedMAC(cfg, auditCap', ops', op');
    Signing.MACIsForOneMessage(
      cfg.crypto, op.opts.signature,
      cfg.keys, op.ns, op.key, op.opts.keyID, SignRev(op.opts), op.payload,
      cfg.keys, op'.ns, op'.key, op'.opts.keyID, SignRev(op'.opts), op'.payload);
  }

  lemma {:induction false} AcceptedMAC(cfg: Config, auditCap: int, ops: seq<Op>, op: Op)
    requires op.OpPut? && Answer(cfg, Run(cfg, New(auditCap), ops), op).None?
    requires op.opts.signature != [] && !Signing.MeansEd(op.opts.algo)
    ensures Signing.GoodMAC(
              cfg.keys, cfg.crypto, op.ns, op.key, op.opts.keyID, SignRev(op.opts), op.payload, op.opts.signature)
    ensures Signing.LF !in op.ns && Signing.LF !in op.key
  {
    hide Sound, Run, New, Put, NsKey, KeyCount, ByteCount, Recording, WithVersion, NewVersion, Gray.NormalForm,
      Gray.IsIteration, Signing.Canonical, Signing.MeansHMAC, Signing.MeansEd, Signing.KeyUsed, MayWrite, IsKey, IsNSID;
    var s := Run(cfg, New(auditCap), ops);
    RunsAreSound(cfg, auditCap, ops);
    PutLaw(cfg, s, op.ns, op.key, op.payload, op.opts, op.order, op.now, op.auditNow);
    RegisteredIsNSID(s, op.ns);
    NamesAreLines(op.ns, op.key);
  }

  lemma {:induction false} NamesAreLines(ns: Bytes, key: Bytes)
    requires IsNSID(ns) && IsKey(key)
    ensures Signing.LF !in ns && Signing.LF !in key
  {}

  /** If no two messages have the same MAC, then on every run that requires signing two stored versions with
      the same MAC lie under the same namespace and key, and agree in length and digest. */
  lemma {:induction false} SignaturesCannotMove(
      cfg: Config, auditCap: int, ops: seq<Op>, id: Bytes, i: nat, id': Bytes, i': nat)
    requires cfg.requireSign
    requires forall k, k', m, m' :: cfg.crypto.hmac(k, m) == cfg.crypto.hmac(k', m') ==> m == m'
    requires var m := Run(cfg, New(auditCap), ops).entries;
             && id in m && i < |m[id].versions| && id' in m && i' < |m[id'].versions|
             && m[id].versions[i].sig == m[id'].versions[i'].sig
             && !Signing.MeansEd(m[id].versions[i].algo) && !Signing.MeansEd(m[id'].versions[i'].algo)
    ensures var m := Run(cfg, New(auditCap), ops).entries;
            var v, v' := m[id].versions[i], m[id'].versions[i'];
            id == id' && |v.payload| == |v'.payload| && cfg.crypto.sha256(v.payload) == cfg.crypto.sha256(v'.payload)
  {
    hide Sound, Run, New, NsKey, SignedInv, Signing.GoodMAC, Signing.MeansHMAC, Signing.MeansEd;
    RunsAreSound(cfg, auditCap, ops);
    EverythingStoredVerifies(cfg, auditCap, ops);
    var s := Run(cfg, New(auditCap), ops);
    var e, e' := s.entries[id], s.entries[id'];
    StoredUnderOwnName(s, id);
    StoredUnderOwnName(s, id');
    StoredNamesAreLines(s, id);
    StoredNamesAreLines(s, id');
    var keyID, bound := StoredMAC(cfg, s, id, i);
    var keyID', bound' := StoredMAC(cfg, s, id', i');
    Signing.MACIsForOneMessage(
      cfg.crypto, e.versions[i].sig,
      cfg.keys, e.ns, e.key, keyID, bound, e.versions[i].payload,
      cfg.keys, e'.ns, e'.key, keyID', bound', e'.versions[i'].payload);
  }

  lemma {:induction false} StoredMAC(cfg: Config, s: HubState, id: Bytes, i: nat) returns (keyID: Bytes, bound: int)
    requires SignedInv(cfg, s) && id in s.entries && i < |s.entries[id].versions|
    requires !Signing.MeansEd(s.entries[id].versions[i].algo)
    ensures var e := s.entries[id];
            Signing.GoodMAC(cfg.keys, cfg.crypto, e.ns, e.key, keyID, bound, e.versions[i].payload, e.versions[i].sig)
  {
    hide Signing.GoodMAC, Signing.GoodEd, Signing.MeansHMAC, Signing.MeansEd;
    var e := s.entries[id];
    var v := e.versions[i];
    assert Verifies(cfg, e.ns, e.key, v);
    keyID, bound :| (bound == 0 || bound == v.rev) &&
      Signing.GoodSignature(cfg.keys, cfg.crypto, e.ns, e.key, keyID, v.algo, bound, v.payload, v.sig);
  }

  lemma {:induction false} StoredNamesAreLines(s: HubState, id: Bytes)
    requires Sound(s) && id in s.entries
    ensures Signing.LF !in s.entries[id].ns && Signing.LF !in s.entries[id].key
  {
    hide QuotaInv, LimitInv, LogInv, AllValid, IsNSID, IsKey;
    NamesAreLines(s.entries[id].ns, s.entries[id].key);
  }

  // ----- The audit trail accounts for the store -----

  /** r records that v was put under the names of e. */
  predicate RecordsPut(r: AuditRecord, e: Entry, v: VersionMeta) {
    && r.ok && r.kind == Lit("publish") && r.ns == e.ns && r.key == e.key && r.rev == v.rev
    && r.actor == v.author && r.bytes == |v.payload|
  }

  ghost predicate HasRecord(rs: seq<AuditRecord>, e: Entry, v: VersionMeta) {
    exists r :: r in rs && RecordsPut(r, e, v)
  }

  /** Every stored version has its record. */
  ghost predicate Accounted(s: HubState) {
    forall id, i :: id in s.entries && 0 <= i < |s.entries[id].versions| ==>
      HasRecord(s.log.records, s.entries[id], s.entries[id].versions[i])
  }

  lemma {:induction false} RecordStays(rs: seq<AuditRecord>, rs': seq<AuditRecord>, e: Entry, e': Entry, v: VersionMeta)
    requires HasRecord(rs, e, v) && rs <= rs' && e'.ns == e.ns && e'.key == e.key
    ensures HasRecord(rs', e', v)
  {
    var r :| r in rs && RecordsPut(r, e, v);
    assert r in rs' && RecordsPut(r, e', v);
  }

  /** Chains under the same names whose versions were there before stay accounted for. */
  lemma {:induction false} StaysAccounted(s: HubState, t: HubState)
    requires Accounted(s) && s.log.records <= t.log.records
    requires forall id :: id in t.entries ==>
               && id in s.entries && t.entries[id].ns == s.entries[id].ns && t.entries[id].key == s.entries[id].key
               && t.entries[id].versions == s.entries[id].versions
    ensures Accounted(t)
  {
    hide HasRecord;
    forall id, i | id in t.entries && 0 <= i < |t.entries[id].versions|
      ensures HasRecord(t.log.records, t.entries[id], t.entries[id].versions[i])
    {
      RecordStays(s.log.records, t.log.records, s.entries[id], t.entries[id], t.entries[id].versions[i]);
    }
  }

  lemma {:induction false} PutIsAccounted(s: HubState, ns: Bytes, key: Bytes, v: VersionMeta, auditNow: int)
    requires Sound(s) && Accounted(s) && |s.log.records| < s.log.cap
    ensures Accounted(WithVersion(s, ns, key, v, auditNow))
  {
    hide HasRecord, Inv, AllValid, NsKey, KeyCount, ByteCount, StableUnder, Lit;
    var t := WithVersion(s, ns, key, v, auditNow);
    EntryWasItsOwn(s, ns, key);
    var e := t.entries[NsKey(ns, key)];
    assert HasRecord(t.log.records, e, v) by {
      NewestRecordsPut(t.log.records, e, v);
    }
    forall id, i | id in t.entries && 0 <= i < |t.entries[id].versions|
      ensures HasRecord(t.log.records, t.entries[id], t.entries[id].versions[i])
    {
      if id != NsKey(ns, key) || i < |e.versions| - 1 {
        assert t.entries[id].versions[i] == s.entries[id].versions[i];
        RecordStays(s.log.records, t.log.records, s.entries[id], t.entries[id], t.entries[id].versions[i]);
      }
    }
  }

  lemma {:induction false} NewestRecordsPut(rs: seq<AuditRecord>, e: Entry, v: VersionMeta)
    requires rs != [] && RecordsPut(rs[|rs| - 1], e, v)
    ensures HasRecord(rs, e, v)
  {}

  /** t has every record of s and at most one more. */
  predicate OneRecordMore(s: HubState, t: HubState) {
    t.log.cap == s.log.cap && s.log.records <= t.log.records && |t.log.records| <= |s.log.records| + 1
  }

  lemma {:induction false} PutAccounts(
      cfg: Config, s: HubState, ns: Bytes, key: Bytes, payload: Bytes, opts: PutOptions, order: seq<Bytes>,
      now: int, auditNow: int)
    requires Gray.Visits(order, opts.gray) && Sound(s) && Accounted(s) && |s.log.records| < s.log.cap
    ensures var t := Put(cfg, s, ns, key, payload, opts, order, now, auditNow).0; Accounted(t) && OneRecordMore(s, t)
  {
    hide Sound, Accounted, NsKey, PutRefusal, Put, NewVersion, Failure, VersionsUnder, StableUnder, KeyCount, ByteCount,
      Gray.NormalForm, Gray.IsIteration;
    PutLaw(cfg, s, ns, key, payload, opts, order, now, auditNow);
    var t := Put(cfg, s, ns, key, payload, opts, order, now, auditNow).0;
    if PutRefusal(cfg, s, ns, key, payload, opts).Some? {
      StaysAccounted(s, t);
    } else {
      PutIsAccounted(s, ns, key, NewVersion(s, ns, key, payload, opts, order, now), auditNow);
    }
  }

  lemma {:induction false} RollbackAccounts(s: HubState, ns: Bytes, key: Bytes, rev: int, actor: Bytes, now: int)
    requires Sound(s) && Accounted(s) && |s.log.records| < s.log.cap
    ensures var t := Rollback(s, ns, key, rev, actor, now).0; Accounted(t) && OneRecordMore(s, t)
  {
    hide Sound, Accounted, NsKey, MayWrite, Rollback, Failure, IsLastRelease;
    RollbackLaw(s, ns, key, rev, actor, now);
    StaysAccounted(s, Rollback(s, ns, key, rev, actor, now).0);
  }

  lemma {:induction false} DeleteKeyAccounts(s: HubState, ns: Bytes, key: Bytes, actor: Bytes, now: int)
    requires Sound(s) && Accounted(s) && |s.log.records| < s.log.cap
    ensures var t := DeleteKey(s, ns, key, actor, now).0; Accounted(t) && OneRecordMore(s, t)
  {
    hide Sound, Accounted, NsKey, DeleteKeyRefusal, DeleteKey, Failure, KeyCount, ByteCount, PayloadBytes;
    DeleteKeyLaw(s, ns, key, actor, now);
    StaysAccounted(s, DeleteKey(s, ns, key, actor, now).0);
  }

  lemma {:induction false} DeleteNSAccounts(s: HubState, ns: Bytes, actor: Bytes, now: int)
    requires Accounted(s) && |s.log.records| < s.log.cap
    ensures var t := DeleteNS(s, ns, actor, now).0; Accounted(t) && OneRecordMore(s, t)
  {
    hide Accounted, DeleteNSRefusal, DeleteNS, Failure, KeyCount, IdsOf;
    DeleteNSLaw(s, ns, actor, now);
    StaysAccounted(s, DeleteNS(s, ns, actor, now).0);
  }

  lemma {:induction false} CreateNSAccounts(s: HubState, spec: NSSpec, now: int, auditNow: int)
    requires Accounted(s) && |s.log.records| < s.log.cap
    ensures var t := CreateNS(s, spec, now, auditNow).0; Accounted(t) && OneRecordMore(s, t)
  {
    hide Accounted, CreateNSRefusal, CreateNS, Failure;
    CreateNSLaw(s, spec, now, auditNow);
    StaysAccounted(s, CreateNS(s, spec, now, auditNow).0);
  }

  lemma {:induction false} GrantAccounts(s: HubState, ns: Bytes, subject: Bytes, role: Bytes, actor: Bytes)
    requires Sound(s) && Accounted(s)
    ensures var t := Grant(s, ns, subject, role, actor).0; Accounted(t) && OneRecordMore(s, t)
  {
    hide Sound, Accounted, GrantRefusal, Grant, RoleNamed;
    GrantLaw(s, ns, subject, role, actor);
    StaysAccounted(s, Grant(s, ns, subject, role, actor).0);
  }

  lemma {:induction false} StepAccounts(cfg: Config, s: HubState, op: Op)
    requires Sound(s) && Accounted(s) && |s.log.records| < s.log.cap
    ensures Accounted(Step(cfg, s, op)) && OneRecordMore(s, Step(cfg, s, op))
  {
    hide Sound, Accounted, Put, Rollback, DeleteKey, DeleteNS, CreateNS, Grant;
    match op {
      case OpCreateNS(spec, now, auditNow) => CreateNSAccounts(s, spec, now, auditNow);
      case OpDeleteNS(id, actor, auditNow) => DeleteNSAccounts(s, id, actor, auditNow);
      case OpPut(ns, key, payload, opts, order, now, auditNow) =>
        PutAccounts(cfg, s, ns, key, payload, opts, order, now, auditNow);
      case OpRollback(ns, key, rev, actor, auditNow) => RollbackAccounts(s, ns, key, rev, actor, auditNow);
      case OpDeleteKey(ns, key, actor, auditNow) => DeleteKeyAccounts(s, ns, key, actor, auditNow);
      case OpGrant(ns, subject, role, actor) => GrantAccounts(s, ns, subject, role, actor);
      case OpClose => StaysAccounted(s, Step(cfg, s, op));
    }
  }

  lemma {:induction false} RunAccounts(cfg: Config, auditCap: int, ops: seq<Op>)
    requires |ops| <= New(auditCap).log.cap
    ensures var s := Run(cfg, New(auditCap), ops);
            Accounted(s) && s.log.cap == New(auditCap).log.cap && |s.log.records| <= |ops|
  {
    hide Sound, Accounted, Step;
    if ops == [] {
      NewIsAccounted(auditCap);
    } else {
      var before := ops[..|ops| - 1];
      RunAccounts(cfg, auditCap, before);
      RunsAreSound(cfg, auditCap, before);
      StepAccounts(cfg, Run(cfg, New(auditCap), before), ops[|ops| - 1]);
    }
  }

  lemma {:induction false} NewIsAccounted(auditCap: int)
    ensures Accounted(New(auditCap)) && New(auditCap).log.records == []
  {}

  /** On every run that is no longer than the audit trail has room, every version stored has a record in the
      trail that says when it succeeded as what: namespace, key, revision, author and size. */
  lemma {:induction false} TrailAccountsForStore(cfg: Config, auditCap: int, ops: seq<Op>, id: Bytes, i: nat)
    requires |ops| <= if auditCap <= 0 then 4096 else auditCap
    requires var m := Run(cfg, New(auditCap), ops).entries; id in m && i < |m[id].versions|
    ensures var s := Run(cfg, New(auditCap), ops);
            var e := s.entries[id];
            exists r :: r in s.log.records && RecordsPut(r, e, e.versions[i])
  {
    hide Run, RecordsPut;
    RunAccounts(cfg, auditCap, ops);
    var s := Run(cfg, New(auditCap), ops);
    assert HasRecord(s.log.records, s.entries[id], s.entries[id].versions[i]);
  }
}
