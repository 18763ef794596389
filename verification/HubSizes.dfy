/** That a snapshot exported after a run can be written: if the arguments of the calls fit Go's types
    with room to spare, so does everything the hub holds. */
module HubSizes {
  import opened Base
  import opened Text
  import opened Meta
  import opened StoreEntry
  import opened StoreMemory
  import opened Quota
  import opened Access
  import opened HubModel
  import opened HubInvariants
  import opened HubRuns
  import opened HubSnapshot
  import opened SnapshotCodec
  import opened Wire
  import Audit
  import Gray
  import Signing

  /** 2^60, for the length of one string or list and for the number of calls. */
  const MANY: nat := 0x1000_0000_0000_0000

  predicate Short(s: Bytes) {
    |s| <= MANY
  }

  predicate ShortRule(g: Option<GrayRule>) {
    g.Some? ==>
      && |g.value.allowIDs| <= MAX_STRINGS && (forall id :: id in g.value.allowIDs ==> Short(id))
      && |g.value.matchTags| <= MANY
      && forall k :: k in g.value.matchTags ==> Short(k) && Short(g.value.matchTags[k])
  }

  predicate ShortOptions(o: PutOptions) {
    Short(o.author) && Short(o.actor) && Short(o.algo) && Short(o.signature) && Short(o.keyID) && ShortRule(o.gray)
  }

  /** The arguments of one call, clock readings included. */
  predicate FitsOp(op: Op) {
    match op
    case OpCreateNS(spec, now, auditNow) =>
      && Short(spec.id) && Short(spec.owner) && Short(spec.actor)
      && IsInt64(spec.maxKeys) && IsInt64(spec.maxBytes) && IsInt64(now) && IsInt64(auditNow)
    case OpDeleteNS(id, actor, auditNow) => Short(id) && Short(actor) && IsInt64(auditNow)
    case OpPut(ns, key, payload, opts, _, now, auditNow) =>
      Short(ns) && Short(key) && Short(payload) && ShortOptions(opts) && IsInt64(now) && IsInt64(auditNow)
    case OpRollback(ns, key, rev, actor, auditNow) =>
      Short(ns) && Short(key) && IsInt64(rev) && Short(actor) && IsInt64(auditNow)
    case OpDeleteKey(ns, key, actor, auditNow) => Short(ns) && Short(key) && Short(actor) && IsInt64(auditNow)
    case OpGrant(ns, subject, role, actor) => Short(ns) && Short(subject)
    case OpClose => true
  }

  // ----- What fits after k calls -----

  predicate FitsChain(e: Entry, k: nat) {
    && IsLength(|e.ns|) && IsLength(|e.key|)
    && |e.versions| <= k && forall v :: v in e.versions ==> FitsVersionMeta(v)
  }

  predicate ChainsFit(m: Entries, k: nat) {
    |m| <= k && forall id :: id in m ==> FitsChain(m[id], k)
  }

  predicate NamesFit(items: map<Bytes, Namespace>, k: nat) {
    |items| <= k && forall id :: id in items ==> IsLength(|id|) && FitsNamespace(items[id])
  }

  predicate GrantsFit(g: Grants, k: nat) {
    |g| <= k && forall x :: x in g ==> IsLength(|x.subject|)
  }

  predicate LogFits(log: Audit.LogState, k: nat) {
    |log.records| <= k && 0 <= log.seqNo <= k && forall r :: r in log.records ==> FitsAudit(r)
  }

  predicate Sizes(s: HubState, k: nat) {
    NamesFit(s.items, k) && ChainsFit(s.entries, k) && GrantsFit(s.acl.grants, k) && LogFits(s.log, k)
  }

  lemma {:induction false} SizesLater(s: HubState, k: nat)
    requires Sizes(s, k)
    ensures Sizes(s, k + 1)
  {
    hide FitsNamespace, FitsVersionMeta, FitsAudit;
  }

  lemma {:induction false} FewerElements<T>(a: set<T>, b: set<T>)
    requires a <= b
    ensures |a| <= |b|
  {
    assert b == a + (b - a);
  }

  lemma {:induction false} FewerKeys<K, V>(m: map<K, V>, m': map<K, V>)
    requires m'.Keys <= m.Keys
    ensures |m'| <= |m|
  {
    FewerElements(m'.Keys, m.Keys);
    assert |m.Keys| == |m| && |m'.Keys| == |m'|;
  }

  // ----- Texts -----

  lemma {:induction false} DecimalLength(n: nat)
    ensures |DecimalNat(n)| <= 1 + n / 10
  {
    if n >= 10 {
      DecimalLength(n / 10);
    }
  }

  lemma {:induction false} RevLength(rev: int)
    requires IsInt64(rev)
    ensures |FormatRev(rev)| <= 2 * MANY
  {
    DecimalLength(if rev < 0 then -rev else rev);
  }

  lemma {:induction false} TrimmedLength(s: Bytes)
    ensures |TrimSpace(s)| <= |s|
  {
    TrimLeftLength(s);
    TrimRightStops(TrimLeft(s));
  }

  lemma {:induction false} TrimLeftLength(s: Bytes)
    ensures |TrimLeft(s)| <= |s|
  {
    if LeadingSpace(s) != 0 {
      TrimLeftLength(s[LeadingSpace(s)..]);
    }
  }

  lemma {:induction false} SentinelLength(kind: Sentinel)
    ensures |SentinelText(kind)| <= 100
  {
    match kind {
      case _ =>
    }
  }

  /** An error whose reference is made of a few short texts. */
  predicate ShortError(err: Error) {
    |err.ref| <= 4 * MANY
  }

  lemma {:induction false} ErrorLength(err: Error)
    requires ShortError(err)
    ensures IsLength(|ErrorText(err)|)
  {
    hide SentinelText;
    SentinelLength(err.kind);
  }

  // ----- Audit -----

  lemma {:induction false} LogGrows(log: Audit.LogState, k: nat, r: AuditRecord, now: int)
    requires LogFits(log, k) && k < MANY && FitsAudit(r.(seqNo := 0, ts := now))
    requires r.ts == ZERO_TIME
    ensures LogFits(log.Appended(r, now), k + 1)
  {
    var all := log.records + [log.Stamped(r, now)];
    assert forall x :: x in Audit.LastN(all, log.cap) ==> x in all;
  }

  lemma {:induction false} FailureFits(
      s: HubState, k: nat, ns: Bytes, key: Bytes, kind: Bytes, actor: Bytes, err: Error, now: int)
    requires Sizes(s, k) && k < MANY && ShortError(err) && IsInt64(now)
    requires Short(ns) && Short(key) && Short(kind) && Short(actor)
    ensures Sizes(s.Failed(ns, key, kind, actor, err, now), k + 1)
  {
    hide FitsNamespace, FitsVersionMeta, ErrorText;
    SizesLater(s, k);
    ErrorLength(err);
    LogGrows(s.log, k, AuditRecord(0, ZERO_TIME, ns, key, 0, kind, actor, [], 0, false, ErrorText(err)), now);
  }

  lemma {:induction false} SuccessFits(
      log: Audit.LogState, k: nat, ns: Bytes, key: Bytes, kind: Bytes, actor: Bytes, rev: int, bytes: int, detail: Bytes,
      now: int)
    requires LogFits(log, k) && k < MANY && IsInt64(rev) && IsInt64(bytes) && IsInt64(now)
    requires Short(ns) && Short(key) && Short(kind) && IsLength(|actor|) && IsLength(|detail|)
    ensures LogFits(log.Succeeded(ns, key, kind, actor, rev, bytes, detail, now), k + 1)
  {
    LogGrows(log, k, AuditRecord(0, ZERO_TIME, ns, key, rev, kind, actor, detail, bytes, true, []), now);
  }

  lemma {:induction false} KindsAreShort()
    ensures Short(KIND_PUBLISH) && Short(KIND_ROLLBACK) && Short(KIND_DELETE)
    ensures Short(KIND_CREATE_NS) && Short(KIND_DELETE_NS)
  {}

  lemma {:induction false} DeniedIsShort(acl: Acl, ns: Bytes, subject: Bytes, need: Role)
    requires Short(ns) && Short(subject)
    ensures acl.CheckError(ns, subject, need).Some? ==> ShortError(acl.CheckError(ns, subject, need).value)
  {}

  // ----- Put -----

  lemma {:induction false} CleanIDsFit(ids: seq<Bytes>)
    requires forall id :: id in ids ==> Short(id)
    ensures |Gray.CleanIDs(ids)| <= |ids| && forall id :: id in Gray.CleanIDs(ids) ==> Short(id)
  {
    hide TrimSpace;
    if ids != [] {
      var init, last := ids[..|ids| - 1], ids[|ids| - 1];
      assert ids == init + [last] && last in ids;
      CleanIDsFit(init);
      TrimmedLength(last);
    }
  }

  lemma {:induction false} CleanTagsFit(order: seq<Bytes>, tags: map<Bytes, Bytes>)
    requires forall k :: k in order ==> k in tags && Short(k) && Short(tags[k])
    ensures |Gray.CleanTags(order, tags)| <= |order|
    ensures forall k :: k in Gray.CleanTags(order, tags) ==> Short(k) && Short(Gray.CleanTags(order, tags)[k])
  {
    hide TrimSpace;
    if order != [] {
      var init, last := order[..|order| - 1], order[|order| - 1];
      assert order == init + [last] && last in order;
      CleanTagsFit(init, tags);
      TrimmedLength(last);
    }
  }

  lemma {:induction false} DistinctLength(xs: seq<Bytes>)
    requires forall i, j :: 0 <= i < j < |xs| ==> xs[i] != xs[j]
    ensures |set x | x in xs| == |xs|
  {
    if xs != [] {
      var init, last := xs[..|xs| - 1], xs[|xs| - 1];
      DistinctLength(init);
      assert xs == init + [last];
      assert (set x | x in xs) == (set x | x in init) + {last};
    }
  }

  /** An iteration is as long as the map is large. */
  lemma {:induction false} IterationLength<V>(order: seq<Bytes>, m: map<Bytes, V>)
    requires Gray.IsIteration(order, m)
    ensures |order| == |m|
  {
    DistinctLength(order);
    assert (set x | x in order) == m.Keys;
  }

  lemma {:induction false} SortedIDsFit(ids: seq<Bytes>)
    requires |ids| <= MAX_STRINGS && forall id :: id in ids ==> Short(id)
    ensures var clean := Order.Sort(Order.AtMost, Gray.CleanIDs(ids));
            |clean| <= MAX_STRINGS && forall id :: id in clean ==> IsLength(|id|)
  {
    hide Gray.CleanIDs, Order.Sort;
    var clean := Gray.CleanIDs(ids);
    CleanIDsFit(ids);
    forall id | id in Order.Sort(Order.AtMost, clean)
      ensures Short(id)
    {
      Order.SortKeepsElements(Order.AtMost, clean, id);
    }
  }

  lemma {:induction false} CleanedTagsFit(order: seq<Bytes>, tags: map<Bytes, Bytes>)
    requires Gray.IsIteration(order, tags) && |tags| <= MANY
    requires forall k :: k in tags ==> Short(k) && Short(tags[k])
    ensures FitsStringMap(Gray.CleanTags(order, tags))
  {
    hide Gray.CleanTags;
    IterationLength(order, tags);
    CleanTagsFit(order, tags);
  }

  lemma {:induction false} NormalFormFits(g: Option<GrayRule>, order: seq<Bytes>)
    requires Gray.Visits(order, g) && ShortRule(g)
    ensures Gray.NormalForm(g, order).Ok? ==> FitsRule(Gray.NormalForm(g, order).value)
    ensures Gray.NormalForm(g, order).Err? ==> ShortError(Gray.NormalForm(g, order).error)
  {
    hide TrimSpace, Gray.CleanIDs, Gray.CleanTags, Order.Sort, Gray.HasBlankKey, Gray.IsIteration, FitsStringMap;
    if g.Some? {
      SortedIDsFit(g.value.allowIDs);
      CleanedTagsFit(order, g.value.matchTags);
    }
  }

  lemma {:induction false} SignErrorIsShort(cfg: Config, ns: Bytes, key: Bytes, payload: Bytes, opts: PutOptions)
    requires ShortOptions(opts)
    ensures SignError(cfg, ns, key, payload, opts).Some? ==> ShortError(SignError(cfg, ns, key, payload, opts).value)
    ensures |Signing.NormalizeAlgo(opts.algo)| <= MANY
  {
    hide Signing.Canonical;
    Signing.AlgosDiffer();
  }

  lemma {:induction false} AdmissionFits(
      cfg: Config, s: HubState, ns: Bytes, key: Bytes, payload: Bytes, opts: PutOptions, order: seq<Bytes>, now: int,
      k: nat)
    requires Gray.Visits(order, opts.gray) && RegistryInv(s)
    requires Short(ns) && Short(key) && Short(payload) && ShortOptions(opts) && IsInt64(now)
    ensures var a := Admission(cfg, s, ns, key, payload, opts, order, now);
            && (a.Refuse? ==> ShortError(a.err))
            && (a.Admit? ==> IsInt64(a.v.rev) ==> FitsVersionMeta(a.v) && IsLength(|a.v.author|))
  {
    hide Gray.NormalForm, Gray.IsIteration, FitsRule, ShortRule, SignError, Signing.NormalizeAlgo, Acl.CheckError, NsKey,
      NextRevOf;
    DeniedIsShort(s.acl, ns, opts.actor, Writer);
    NormalFormFits(opts.gray, order);
    SignErrorIsShort(cfg, ns, key, payload, opts);
  }

  lemma {:induction false} PutFits(
      cfg: Config, s: HubState, ns: Bytes, key: Bytes, payload: Bytes, opts: PutOptions, order: seq<Bytes>,
      now: int, auditNow: int, k: nat)
    requires Gray.Visits(order, opts.gray) && Inv(s) && AllValid(s) && Sizes(s, k) && k < MANY
    requires FitsOp(OpPut(ns, key, payload, opts, order, now, auditNow))
    ensures Sizes(Put(cfg, s, ns, key, payload, opts, order, now, auditNow).0, k + 1)
  {
    hide Admission, FitsVersionMeta, FitsNamespace, FitsAudit, RegistryInv, StoreInv, QuotaInv, LimitInv, LogInv, NsKey,
      Appended, Created, PutVersionSpec;
    SizesLater(s, k);
    KindsAreShort();
    AdmissionFits(cfg, s, ns, key, payload, opts, order, now, k);
    match Admission(cfg, s, ns, key, payload, opts, order, now) {
      case Refuse(err, audited) =>
        FailureFits(s, k, ns, key, KIND_PUBLISH, opts.actor, err, auditNow);
      case Admit(v, newKey) =>
        Admitted(cfg, s, ns, key, payload, opts, order, now);
        AdmittedIsStored(s, ns, key, v);
        var e := PutVersionSpec(s.entries, ns, key, v).value;
        SuccessFits(s.log, k, ns, key, KIND_PUBLISH, v.author, e.head, |v.payload|, [], auditNow);
        ChainStored(s.entries, k, e, v);
    }
  }

  lemma {:induction false} ChainStored(m: Entries, k: nat, e: Entry, v: VersionMeta)
    requires ChainsFit(m, k) && FitsVersionMeta(v) && IsLength(|e.ns|) && IsLength(|e.key|)
    requires e.versions == (if NsKey(e.ns, e.key) in m then m[NsKey(e.ns, e.key)].versions else []) + [v]
    ensures ChainsFit(m[NsKey(e.ns, e.key) := e], k + 1)
  {
    hide FitsVersionMeta, NsKey;
  }

  // ----- Rollback, deletion -----

  lemma {:induction false} RollbackFits(s: HubState, ns: Bytes, key: Bytes, rev: int, actor: Bytes, auditNow: int, k: nat)
    requires Inv(s) && Sizes(s, k) && k < MANY && FitsOp(OpRollback(ns, key, rev, actor, auditNow))
    ensures Sizes(Rollback(s, ns, key, rev, actor, auditNow).0, k + 1)
  {
    hide FitsVersionMeta, FitsNamespace, FitsAudit, RegistryInv, StoreInv, QuotaInv, LimitInv, LogInv, NsKey,
      Acl.CheckError, LastReleased, FormatRev;
    SizesLater(s, k);
    KindsAreShort();
    DeniedIsShort(s.acl, ns, actor, Writer);
    RevLength(rev);
    var (t, err) := Rollback(s, ns, key, rev, actor, auditNow);
    if err.None? {
      var e := RollbackSpec(s.entries, ns, key, rev).value;
      SuccessFits(s.log, k, ns, key, KIND_ROLLBACK, actor, e.head, 0, [], auditNow);
    } else if t != s {
      assert ShortError(err.value);
      FailureFits(s, k, ns, key, KIND_ROLLBACK, actor, err.value, auditNow);
    }
  }

  lemma {:induction false} DeletedBytesFit(s: HubState, ns: Bytes, key: Bytes, k: nat)
    requires Inv(s) && NamesFit(s.items, k) && NsKey(ns, key) in s.entries
    ensures IsInt64(PayloadBytes(s.entries[NsKey(ns, key)].versions))
  {
    hide NsKey, PayloadBytes, KeyCount, ByteCount, StoreInv, LogInv;
    EntryWasItsOwn(s, ns, key);
    FoundUnderOwnName(s, ns, key);
    DeleteSubtractsExactly(s, ns, key);
  }

  lemma {:induction false} DeleteKeyFits(s: HubState, ns: Bytes, key: Bytes, actor: Bytes, auditNow: int, k: nat)
    requires Inv(s) && AllValid(s) && Sizes(s, k) && k < MANY && FitsOp(OpDeleteKey(ns, key, actor, auditNow))
    ensures Sizes(DeleteKey(s, ns, key, actor, auditNow).0, k + 1)
  {
    hide FitsVersionMeta, FitsNamespace, FitsAudit, Inv, NsKey, Acl.CheckError, PayloadBytes, ErrorText;
    SizesLater(s, k);
    KindsAreShort();
    var (t, err) := DeleteKey(s, ns, key, actor, auditNow);
    if err.None? {
      var e := s.entries[NsKey(ns, key)];
      DeletedBytesFit(s, ns, key, k);
      SuccessFits(s.log, k, ns, key, KIND_DELETE, actor, e.head, PayloadBytes(e.versions), [], auditNow);
      FewerKeys(s.entries, t.entries);
    } else if t != s {
      FailureFits(s, k, ns, key, KIND_DELETE, actor, err.value, auditNow);
    }
  }

  lemma {:induction false} RemovalFits(s: HubState, id: Bytes, k: nat)
    requires Sizes(s, k)
    ensures |OfNS(s.entries, id)| <= k && ChainsFit(WithoutNS(s.entries, id), k)
    ensures NamesFit(s.items - {id}, k) && GrantsFit(s.acl.Removed(id).grants, k)
  {
    hide FitsVersionMeta, FitsNamespace, LogFits;
    FewerKeys(s.entries, OfNS(s.entries, id));
    FewerKeys(s.entries, WithoutNS(s.entries, id));
    FewerKeys(s.items, s.items - {id});
    FewerKeys(s.acl.grants, s.acl.Removed(id).grants);
  }

  lemma {:induction false} DeleteNSFits(s: HubState, id: Bytes, actor: Bytes, auditNow: int, k: nat)
    requires Sizes(s, k) && k < MANY && FitsOp(OpDeleteNS(id, actor, auditNow))
    ensures Sizes(DeleteNS(s, id, actor, auditNow).0, k + 1)
  {
    hide FitsVersionMeta, FitsNamespace, FitsAudit, Acl.CheckError, Acl.Removed, OfNS, WithoutNS, LastAfterRemoval,
      ErrorText;
    SizesLater(s, k);
    KindsAreShort();
    var (t, err) := DeleteNS(s, id, actor, auditNow);
    if err.None? {
      RemovalFits(s, id, k);
      SuccessFits(s.log, k, id, [], KIND_DELETE_NS, actor, 0, |OfNS(s.entries, id)|, [], auditNow);
    } else if t != s {
      FailureFits(s, k, id, [], KIND_DELETE_NS, actor, err.value, auditNow);
    }
  }

  // ----- Namespaces, grants -----

  lemma {:induction false} CreateNSFits(s: HubState, spec: NSSpec, now: int, auditNow: int, k: nat)
    requires Sizes(s, k) && k < MANY && FitsOp(OpCreateNS(spec, now, auditNow))
    ensures Sizes(CreateNS(s, spec, now, auditNow).0, k + 1)
  {
    hide FitsVersionMeta, FitsAudit, Validate.IsNSID, Validate.IsOwner;
    SizesLater(s, k);
    KindsAreShort();
    var (t, r) := CreateNS(s, spec, now, auditNow);
    if r.Ok? {
      SuccessFits(s.log, k, r.value.id, [], KIND_CREATE_NS, spec.owner, 0, 0, Lit("owner=") + r.value.owner, auditNow);
    } else if t != s {
      FailureFits(s, k, spec.id, [], KIND_CREATE_NS, spec.actor, r.error, auditNow);
    }
  }

  lemma {:induction false} GrantFits(s: HubState, ns: Bytes, subject: Bytes, role: Bytes, actor: Bytes, k: nat)
    requires Sizes(s, k) && FitsOp(OpGrant(ns, subject, role, actor))
    ensures Sizes(HubModel.Grant(s, ns, subject, role, actor).0, k + 1)
  {
    hide FitsVersionMeta, FitsNamespace, FitsAudit, Acl.CheckError, ParseRole, Acl.GrantError;
    SizesLater(s, k);
    var t := HubModel.Grant(s, ns, subject, role, actor).0;
    if t != s && |t.acl.grants| > |s.acl.grants| {
    } else if t != s {
      FewerKeys(s.acl.grants, t.acl.grants);
    }
  }

  // ----- Runs -----

  lemma {:induction false} StepFits(cfg: Config, s: HubState, op: Op, k: nat)
    requires Inv(s) && AllValid(s) && Sizes(s, k) && k < MANY && FitsOp(op)
    ensures Sizes(Step(cfg, s, op), k + 1)
  {
    hide Inv, AllValid, Sizes, CreateNS, DeleteNS, Put, Rollback, DeleteKey, HubModel.Grant;
    match op {
      case OpCreateNS(spec, now, auditNow) => CreateNSFits(s, spec, now, auditNow, k);
      case OpDeleteNS(id, actor, auditNow) => DeleteNSFits(s, id, actor, auditNow, k);
      case OpPut(ns, key, payload, opts, order, now, auditNow) =>
        PutFits(cfg, s, ns, key, payload, opts, order, now, auditNow, k);
      case OpRollback(ns, key, rev, actor, auditNow) => RollbackFits(s, ns, key, rev, actor, auditNow, k);
      case OpDeleteKey(ns, key, actor, auditNow) => DeleteKeyFits(s, ns, key, actor, auditNow, k);
      case OpGrant(ns, subject, role, actor) => GrantFits(s, ns, subject, role, actor, k);
      case OpClose => ClosingFits(s, k);
    }
  }

  lemma {:induction false} ClosingFits(s: HubState, k: nat)
    requires Sizes(s, k)
    ensures Sizes(s.(closed := true), k + 1)
  {
    hide FitsNamespace, FitsVersionMeta, FitsAudit;
    SizesLater(s, k);
  }

  lemma {:induction false} NewFits(auditCap: int)
    ensures Sizes(New(auditCap), 0)
  {}

  /** A run of fitting calls leaves a hub whose parts fit. */
  lemma {:induction false} RunFits(cfg: Config, auditCap: int, ops: seq<Op>)
    requires |ops| <= MANY && forall op :: op in ops ==> FitsOp(op)
    ensures Sizes(Run(cfg, New(auditCap), ops), |ops|)
  {
    hide Inv, WatchInv, Chronicled, Chronicles, AllValid, Sizes, FitsOp, Step, New;
    if ops == [] {
      NewFits(auditCap);
    } else {
      var before, op := ops[..|ops| - 1], ops[|ops| - 1];
      assert ops == before + [op] && op in ops;
      RunFits(cfg, auditCap, before);
      RunsAreSafe(cfg, auditCap, before);
      ChronicledIsValid(Run(cfg, New(auditCap), before), Chronicles(cfg, New(auditCap), map[], before));
      StepFits(cfg, Run(cfg, New(auditCap), before), op, |before|);
    }
  }

  // ----- Exporting -----

  lemma {:induction false} SubjectsFit(g: Grants, ns: Bytes, subs: set<Bytes>)
    requires forall sub :: sub in subs ==> GrantKey(ns, sub) in g
    ensures |subs| <= |g|
  {
    if subs != {} {
      var sub :| sub in subs;
      SubjectsFit(g - {GrantKey(ns, sub)}, ns, subs - {sub});
      assert g == (g - {GrantKey(ns, sub)})[GrantKey(ns, sub) := g[GrantKey(ns, sub)]];
    }
  }

  lemma {:induction false} SubjectsMapFits(g: Grants, ns: Bytes, k: nat)
    requires GrantsFit(g, k) && k <= MANY
    ensures FitsStringMap(SubjectsOf(g, ns))
  {
    hide SubjectsOf;
    var m := SubjectsOf(g, ns);
    SubjectsFit(g, ns, m.Keys);
    assert |m| == |m.Keys|;
    forall sub | sub in m
      ensures IsLength(|sub|) && IsLength(|m[sub]|)
    {
      assert GrantKey(ns, sub).subject == sub;
      RoleNameLength(g[GrantKey(ns, sub)]);
    }
  }

  lemma {:induction false} ExportedFits(s: HubState, k: nat)
    requires RegistryInv(s) && NamesFit(s.items, k) && GrantsFit(s.acl.grants, k) && k <= MANY
    ensures var m := Exported(s.acl.grants);
            IsLength(|m|) && forall ns :: ns in m ==> IsLength(|ns|) && FitsStringMap(m[ns])
  {
    hide Exported, SubjectsOf, FitsNamespace, FitsStringMap, GrantsFit;
    var m := Exported(s.acl.grants);
    FewerElements(m.Keys, s.items.Keys);
    assert |m| == |m.Keys| && |s.items| == |s.items.Keys|;
    forall ns | ns in m
      ensures IsLength(|ns|) && FitsStringMap(m[ns])
    {
      SubjectsMapFits(s.acl.grants, ns, k);
    }
  }

  lemma {:induction false} RoleNameLength(r: Role)
    ensures |r.Name()| <= 6
  {}

  lemma {:induction false} UsageFitsLimits(s: HubState, k: nat)
    requires Inv(s) && NamesFit(s.items, k) && k <= MANY
    ensures IsLength(|s.use|)
    ensures forall ns :: ns in s.use ==> IsLength(|ns|) && IsInt64(s.use[ns].keys) && IsInt64(s.use[ns].bytes)
  {
    hide KeyCount, ByteCount, StoreInv, LogInv;
    FewerElements(s.use.Keys, s.items.Keys);
    assert |s.use| == |s.use.Keys| && |s.items| == |s.items.Keys|;
    forall ns | ns in s.use
      ensures IsLength(|ns|) && IsInt64(s.use[ns].keys) && IsInt64(s.use[ns].bytes)
    {
      assert UsageOf(s.use, ns) == s.use[ns];
    }
  }

  lemma {:induction false} EntriesFitExport(s: HubState, k: nat, es: seq<Entry>)
    requires AllValid(s) && ChainsFit(s.entries, k) && k <= MANY && Lists(es, s.entries)
    ensures IsLength(|es|) && forall e :: e in es ==> FitsStoredEntry(e)
  {
    hide FitsVersionMeta;
    forall e | e in es
      ensures FitsStoredEntry(e)
    {
      var id :| id in s.entries && s.entries[id] == e;
      assert ValidChain(e);
    }
  }

  lemma {:induction false} EntriesOfExportFit(s: HubState, k: nat, exportNow: int, b: Blob)
    requires AllValid(s) && ChainsFit(s.entries, k) && k <= MANY && IsExport(s, exportNow, b)
    ensures IsLength(|b.entries|) && forall e :: e in b.entries && e.Some? ==> FitsStoredEntry(e.value)
  {
    hide AllValid, ChainsFit, Lists, FitsStoredEntry, ListsNamespaces, Exported, VersionCount;
    var es :| Lists(es, s.entries) && b.entries == Wrap(es);
    EntriesFitExport(s, k, es);
    forall e | e in b.entries && e.Some?
      ensures FitsStoredEntry(e.value)
    {
      var i :| 0 <= i < |b.entries| && b.entries[i] == e;
      assert es[i] in es;
    }
  }

  lemma {:induction false} NamesOfExportFit(s: HubState, k: nat, ns: seq<Namespace>)
    requires NamesFit(s.items, k) && k <= MANY && ListsNamespaces(ns, s.items)
    ensures IsLength(|ns|) && forall n :: n in ns ==> FitsNamespace(n)
  {
    hide FitsNamespace;
  }

  lemma {:induction false} ExportOfFittingFits(s: HubState, k: nat, exportNow: int, b: Blob)
    requires Inv(s) && AllValid(s) && Sizes(s, k) && k <= MANY && IsInt64(exportNow) && IsExport(s, exportNow, b)
    ensures Fits(b)
  {
    hide Inv, AllValid, NamesFit, ChainsFit, GrantsFit, FitsNamespace, FitsStoredEntry, FitsAudit, FitsStringMap,
      Exported, Lists, ListsNamespaces, VersionCount, RegistryInv, StoreInv, Wrap;
    EntryWasItsOwn(s, [], []);
    EntriesOfExportFit(s, k, exportNow, b);
    NamesOfExportFit(s, k, b.namespaces);
    ExportedFits(s, k);
    UsageFitsLimits(s, k);
    assert |MAGIC| == 4;
  }

  /** Every export after a run of fitting calls, taken at a fitting time, fits the snapshot format. */
  lemma {:induction false} ExportFits(cfg: Config, auditCap: int, ops: seq<Op>, exportNow: int, b: Blob)
    requires |ops| <= MANY && (forall op :: op in ops ==> FitsOp(op)) && IsInt64(exportNow)
    requires IsExport(Run(cfg, New(auditCap), ops), exportNow, b)
    ensures Fits(b)
  {
    hide *;
    var s := Run(cfg, New(auditCap), ops);
    RunFits(cfg, auditCap, ops);
    RunsAreSafe(cfg, auditCap, ops);
    ChronicledIsValid(s, Chronicles(cfg, New(auditCap), map[], ops));
    ExportOfFittingFits(s, |ops|, exportNow, b);
  }

  /** For fitting calls, nothing needs to be assumed of the exported blob: it travels through the
      bytes and makes a hub that answers every question as the old one. */
  lemma {:induction false} FittingExportImportIsIdentity(
      cfg: Config, auditCap: int, ops: seq<Op>, exportNow: int, b: Blob, raw: Bytes, crc: Crc, json: Json,
      newCap: int, now: int, ns: Bytes, key: Bytes, client: ClientContext, rev: int, subject: Bytes)
    requires |ops| <= MANY && (forall op :: op in ops ==> FitsOp(op)) && IsInt64(exportNow)
    requires IsExport(Run(cfg, New(auditCap), ops), exportNow, b) && Encodes(raw, b, crc) && IsLength(|raw|)
    ensures var s := Run(cfg, New(auditCap), ops);
            var (t, err) := ImportRaw(New(newCap), raw, crc, json, now);
            && err.None? && SameContents(s, t)
            && t.acl.RoleOf(ns, subject) == s.acl.RoleOf(ns, subject)
            && UsageOf(t.use, ns) == UsageOf(s.use, ns)
            && (!s.closed ==>
              && Get(cfg, t, ns, key, client) == Get(cfg, s, ns, key, client)
              && GetRev(t, ns, key, rev) == GetRev(s, ns, key, rev))
  {
    hide *;
    ExportFits(cfg, auditCap, ops, exportNow, b);
    ExportImportIsIdentity(
      cfg, auditCap, ops, exportNow, b, raw, crc, json, newCap, now, ns, key, client, rev, subject);
  }
}
