/** What every step of the hub keeps, component by component and across components. */
module HubInvariants {
  import opened Base
  import opened Meta
  import opened Validate
  import opened StoreEntry
  import opened StoreMemory
  import opened Quota
  import opened Access
  import opened HubModel
  import Audit
  import Gray
  import Signing
  import Watch

  /** Namespaces are registered under their own valid id, with real limits and their owner known
      to the access list; grants exist for registered namespaces only. */
  ghost predicate RegistryInv(s: HubState) {
    && (forall id :: id in s.items ==>
      s.items[id].id == id && IsNSID(id) && s.items[id].maxKeys > 0 && s.items[id].maxBytes > 0)
    && s.acl.owners.Keys == s.items.Keys
    && (forall id :: id in s.items ==> s.acl.owners[id] == s.items[id].owner)
    && (forall k :: k in s.acl.grants ==> k.ns in s.items && s.acl.grants[k] != NoRole)
  }

  /** Entries belong to registered namespaces, have valid keys, and are stored under their names. */
  ghost predicate StoreInv(s: HubState) {
    && WellKeyed(s.entries)
    && forall id :: id in s.entries ==> s.entries[id].ns in s.items && IsKey(s.entries[id].key)
  }

  /** Each namespace's counter is what a recount of the store gives. */
  ghost predicate QuotaInv(s: HubState) {
    && s.use.Keys <= s.items.Keys
    && forall ns :: UsageOf(s.use, ns) == Usage(KeyCount(s.entries, ns), ByteCount(s.entries, ns))
  }

  /** What is really stored stays within the limits. */
  ghost predicate LimitInv(s: HubState) {
    forall ns :: ns in s.items ==>
      KeyCount(s.entries, ns) <= s.items[ns].maxKeys && ByteCount(s.entries, ns) <= s.items[ns].maxBytes
  }

  ghost predicate LogInv(s: HubState) {
    s.log.Valid() && Audit.Numbered(s.log) && Audit.Counted(s.log) && s.log.seqNo >= 0
  }

  ghost predicate Inv(s: HubState) {
    RegistryInv(s) && StoreInv(s) && QuotaInv(s) && LimitInv(s) && LogInv(s)
  }

  /** An entry exists exactly when the last event for its name exists and is no deletion, and then
      that event carries the entry's head. */
  ghost predicate WatchInv(s: HubState) {
    && (forall id :: id in s.last ==> id == Watch.LastKey(s.last[id].ns, s.last[id].key))
    && (forall id :: id in s.entries <==> id in s.last && s.last[id].kind != KIND_DELETE)
    && (forall id :: id in s.entries ==> s.last[id].rev == s.entries[id].head)
  }

  // ----- Names -----

  /** A name finds only the entry that carries it, whatever bytes the name is made of. */
  lemma {:induction false} FoundUnderOwnName(s: HubState, ns: Bytes, key: Bytes)
    requires RegistryInv(s) && StoreInv(s) && NsKey(ns, key) in s.entries
    ensures s.entries[NsKey(ns, key)].ns == ns && s.entries[NsKey(ns, key)].key == key && ns in s.items
  {
    var e := s.entries[NsKey(ns, key)];
    ValidNamesHaveNoNul(e.ns, e.key);
    NsKeyIsFaithful(e.ns, e.key, ns, key);
  }

  // ----- Put -----

  /** What is known once Put has admitted a version. */
  lemma {:induction false} Admitted(
      cfg: Config, s: HubState, ns: Bytes, key: Bytes, payload: Bytes, opts: PutOptions, order: seq<Bytes>, now: int)
    requires Gray.Visits(order, opts.gray)
    requires Admission(cfg, s, ns, key, payload, opts, order, now).Admit?
    ensures var a := Admission(cfg, s, ns, key, payload, opts, order, now);
            && !s.closed && IsKey(key) && ns in s.items && payload != []
            && a.v.rev == NextRevOf(s.entries, ns, key) && a.v.payload == payload && a.v.sig == opts.signature
            && a.v.algo == Signing.NormalizeAlgo(opts.algo)
            && a.newKey == (NsKey(ns, key) !in s.entries)
            && Quota.CheckError(s.use, s.items[ns], a.newKey, |payload|).None?
            && SignError(cfg, ns, key, payload, opts).None?
            && (opts.bindRev > 0 ==> opts.bindRev == a.v.rev)
            && Gray.NormalForm(opts.gray, order) == Ok(a.v.gray)
  {}

  lemma {:induction false} PayloadBytesSnoc(vs: seq<VersionMeta>, v: VersionMeta)
    ensures PayloadBytes(vs + [v]) == PayloadBytes(vs) + |v.payload|
  {
    assert (vs + [v])[..|vs|] == vs;
  }

  /** Once admitted, a version is stored: the chain grows by exactly it, and its revision is the
      next one. */
  lemma {:induction false} AdmittedIsStored(s: HubState, ns: Bytes, key: Bytes, v: VersionMeta)
    requires RegistryInv(s) && StoreInv(s)
    requires NsKey(ns, key) in s.entries ==> ValidChain(s.entries[NsKey(ns, key)])
    requires v.rev == NextRevOf(s.entries, ns, key)
    ensures PutVersionSpec(s.entries, ns, key, v).Ok?
    ensures var e := PutVersionSpec(s.entries, ns, key, v).value;
            var before := if NsKey(ns, key) in s.entries then s.entries[NsKey(ns, key)].versions else [];
            && e.ns == ns && e.key == key && e.versions == before + [v] && e.head == v.rev == |before| + 1
            && PayloadBytes(e.versions) == PayloadBytes(before) + |v.payload|
            && ValidChain(e)
  {
    hide NsKey, Appended, Created, ValidChain, PayloadBytes, RegistryInv, StoreInv;
    if NsKey(ns, key) in s.entries {
      FoundUnderOwnName(s, ns, key);
      AppendedIsValid(s.entries[NsKey(ns, key)], v);
    } else {
      CreatedIsValid(ns, key, v);
    }
  }

  lemma {:induction false} AppendedIsValid(e: Entry, v: VersionMeta)
    requires ValidChain(e) && v.rev == NextRev(Some(e))
    ensures var r := Appended(e, v);
            && r.Ok? && ValidChain(r.value) && r.value.ns == e.ns && r.value.key == e.key
            && r.value.versions == e.versions + [v] && r.value.head == v.rev == |e.versions| + 1
            && PayloadBytes(r.value.versions) == PayloadBytes(e.versions) + |v.payload|
  {
    PayloadBytesSnoc(e.versions, v);
  }

  lemma {:induction false} CreatedIsValid(ns: Bytes, key: Bytes, v: VersionMeta)
    requires v.rev == 1
    ensures var r := Created(ns, key, v);
            && r.Ok? && ValidChain(r.value) && r.value.ns == ns && r.value.key == key
            && r.value.versions == [] + [v] && r.value.head == 1
            && PayloadBytes(r.value.versions) == PayloadBytes([]) + |v.payload|
  {
    PayloadBytesSnoc([], v);
    assert [] + [v] == [v];
  }

  /** Storing an entry of a registered namespace, and counting what is new in it. */
  ghost predicate Stores(s: HubState, e: Entry, keys: int, bytes: nat, t: HubState) {
    var id := NsKey(e.ns, e.key);
    && e.ns in s.items && IsKey(e.key)
    && keys == (if id in s.entries then 0 else 1)
    && PayloadBytes(e.versions) == bytes + (if id in s.entries then PayloadBytes(s.entries[id].versions) else 0)
    && t.items == s.items && t.acl == s.acl
    && t.entries == s.entries[id := e] && t.use == Applied(s.use, e.ns, keys, bytes)
  }

  lemma {:induction false} RegistryAfterStore(s: HubState, e: Entry, keys: int, bytes: nat, t: HubState)
    requires RegistryInv(s) && StoreInv(s) && Stores(s, e, keys, bytes, t)
    ensures RegistryInv(t) && StoreInv(t)
  {}

  lemma {:induction false} CountsAfterStoring(s: HubState, e: Entry, keys: int, bytes: nat, t: HubState, ns: Bytes)
    requires RegistryInv(s) && StoreInv(s) && Stores(s, e, keys, bytes, t)
    ensures KeyCount(t.entries, ns) == KeyCount(s.entries, ns) + if ns == e.ns then keys else 0
    ensures ByteCount(t.entries, ns) == ByteCount(s.entries, ns) + if ns == e.ns then bytes else 0
  {
    var id := NsKey(e.ns, e.key);
    if id in s.entries {
      FoundUnderOwnName(s, e.ns, e.key);
    }
    CountsAfterStore(s.entries, id, e, ns);
  }

  lemma {:induction false} QuotaAfterStore(s: HubState, e: Entry, keys: int, bytes: nat, t: HubState)
    requires RegistryInv(s) && StoreInv(s) && QuotaInv(s) && Stores(s, e, keys, bytes, t)
    ensures QuotaInv(t)
  {
    hide KeyCount, ByteCount, RegistryInv, StoreInv;
    forall ns
      ensures UsageOf(t.use, ns) == Usage(KeyCount(t.entries, ns), ByteCount(t.entries, ns))
    {
      CountsAfterStoring(s, e, keys, bytes, t, ns);
    }
  }

  lemma {:induction false} LimitsAfterStore(s: HubState, e: Entry, keys: int, bytes: nat, t: HubState)
    requires Inv(s) && Stores(s, e, keys, bytes, t)
    requires Quota.CheckError(s.use, s.items[e.ns], keys == 1, bytes).None?
    ensures LimitInv(t)
  {
    hide KeyCount, ByteCount;
    forall ns | ns in t.items
      ensures KeyCount(t.entries, ns) <= t.items[ns].maxKeys && ByteCount(t.entries, ns) <= t.items[ns].maxBytes
    {
      CountsAfterStoring(s, e, keys, bytes, t, ns);
    }
  }

  /** Everything Put keeps when it writes. */
  lemma {:induction false} CommitKeepsInv(s: HubState, e: Entry, v: VersionMeta, newKey: bool, auditNow: int)
    requires Inv(s) && e.ns in s.items && IsKey(e.key)
    requires newKey == (NsKey(e.ns, e.key) !in s.entries)
    requires PayloadBytes(e.versions) ==
             (if newKey then 0 else PayloadBytes(s.entries[NsKey(e.ns, e.key)].versions)) + |v.payload|
    requires Quota.CheckError(s.use, s.items[e.ns], newKey, |v.payload|).None?
    ensures Inv(Committed(s, e.ns, e.key, e, v, newKey, auditNow))
  {
    hide RegistryInv, StoreInv, QuotaInv, LimitInv;
    var t := Committed(s, e.ns, e.key, e, v, newKey, auditNow);
    var keys := if newKey then 1 else 0;
    assert Stores(s, e, keys, |v.payload|, t);
    RegistryAfterStore(s, e, keys, |v.payload|, t);
    QuotaAfterStore(s, e, keys, |v.payload|, t);
    LimitsAfterStore(s, e, keys, |v.payload|, t);
    LogStep(s.log, AuditRecordOf(e.ns, e.key, KIND_PUBLISH, v.author, e.head, |v.payload|, []), auditNow);
  }

  function AuditRecordOf(
      ns: Bytes, key: Bytes, kind: Bytes, actor: Bytes, rev: int, bytes: int, detail: Bytes): AuditRecord
  {
    AuditRecord(0, ZERO_TIME, ns, key, rev, kind, actor, detail, bytes, true, [])
  }

  lemma {:induction false} LogStep(log: Audit.LogState, r: AuditRecord, now: int)
    requires log.Valid() && Audit.Numbered(log)
    ensures log.Appended(r, now).Valid() && Audit.Numbered(log.Appended(r, now)) && Audit.Counted(log.Appended(r, now))
  {
    Audit.NumbersGrow(log, Audit.Append(r, now));
  }

  lemma {:induction false} FailedKeepsInv(
      s: HubState, ns: Bytes, key: Bytes, kind: Bytes, actor: Bytes, err: Error, now: int)
    requires Inv(s)
    ensures Inv(s.Failed(ns, key, kind, actor, err, now))
  {
    LogStep(s.log, AuditRecord(0, ZERO_TIME, ns, key, 0, kind, actor, [], 0, false, ErrorText(err)), now);
  }

  lemma {:induction false} PutKeepsInv(
      cfg: Config, s: HubState, ns: Bytes, key: Bytes, payload: Bytes, opts: PutOptions, order: seq<Bytes>,
      now: int, auditNow: int)
    requires Gray.Visits(order, opts.gray)
    requires Inv(s)
    requires NsKey(ns, key) in s.entries ==> ValidChain(s.entries[NsKey(ns, key)])
    ensures Inv(Put(cfg, s, ns, key, payload, opts, order, now, auditNow).0)
  {
    match Admission(cfg, s, ns, key, payload, opts, order, now) {
      case Refuse(err, audited) =>
        FailedKeepsInv(s, ns, key, KIND_PUBLISH, opts.actor, err, auditNow);
      case Admit(v, newKey) =>
        Admitted(cfg, s, ns, key, payload, opts, order, now);
        AdmittedIsStored(s, ns, key, v);
        CommitKeepsInv(s, PutVersionSpec(s.entries, ns, key, v).value, v, newKey, auditNow);
    }
  }

  // ----- Rollback -----

  lemma {:induction false} ReplaceKeepsInv(s: HubState, e: Entry, t: HubState)
    requires Inv(s) && NsKey(e.ns, e.key) in s.entries
    requires e.versions == s.entries[NsKey(e.ns, e.key)].versions
    requires t.items == s.items && t.acl == s.acl && t.use == s.use && t.entries == s.entries[NsKey(e.ns, e.key) := e]
    ensures RegistryInv(t) && StoreInv(t) && QuotaInv(t) && LimitInv(t)
  {
    hide KeyCount, ByteCount;
    FoundUnderOwnName(s, e.ns, e.key);
    forall ns
      ensures KeyCount(t.entries, ns) == KeyCount(s.entries, ns)
      ensures ByteCount(t.entries, ns) == ByteCount(s.entries, ns)
    {
      CountsAfterStore(s.entries, NsKey(e.ns, e.key), e, ns);
    }
  }

  lemma {:induction false} RollbackKeepsInv(s: HubState, ns: Bytes, key: Bytes, rev: int, actor: Bytes, now: int)
    requires Inv(s)
    ensures Inv(Rollback(s, ns, key, rev, actor, now).0)
  {
    hide RegistryInv, StoreInv, QuotaInv, LimitInv, LogInv;
    var (t, err) := Rollback(s, ns, key, rev, actor, now);
    if err.Some? {
      FailedKeepsInv(s, ns, key, KIND_ROLLBACK, actor, err.value, now);
    } else {
      FoundUnderOwnName(s, ns, key);
      var e := RollbackSpec(s.entries, ns, key, rev).value;
      ReplaceKeepsInv(s, e, t);
      SuccessKeepsLog(s, ns, key, KIND_ROLLBACK, actor, e.head, 0, [], now, t);
    }
  }

  lemma {:induction false} SuccessKeepsLog(
      s: HubState, ns: Bytes, key: Bytes, kind: Bytes, actor: Bytes, rev: int, bytes: int, detail: Bytes, now: int,
      t: HubState)
    requires LogInv(s) && t.log == s.log.Succeeded(ns, key, kind, actor, rev, bytes, detail, now)
    ensures LogInv(t)
  {
    LogStep(s.log, AuditRecordOf(ns, key, kind, actor, rev, bytes, detail), now);
  }

  // ----- DeleteKey -----

  /** The clamps at zero never take effect: what a deletion subtracts is always there. */
  lemma {:induction false} DeleteSubtractsExactly(s: HubState, ns: Bytes, key: Bytes)
    requires Inv(s) && NsKey(ns, key) in s.entries
    ensures var u := UsageOf(s.use, ns);
            var bytes: int := PayloadBytes(s.entries[NsKey(ns, key)].versions);
            && 1 <= u.keys && bytes <= u.bytes
            && AddUsage(u, -1, -bytes) == Usage(u.keys - 1, u.bytes - bytes)
  {
    hide NsKey, KeyCount, ByteCount, PayloadBytes, RegistryInv, LimitInv, LogInv;
    FoundUnderOwnName(s, ns, key);
    CountsAfterRemove(s.entries, NsKey(ns, key), ns);
  }

  /** Taking entries away, and counting what is gone. */
  lemma {:induction false} ShrinkKeepsInv(s: HubState, t: HubState)
    requires Inv(s) && t.items.Keys <= s.items.Keys && t.entries.Keys <= s.entries.Keys
    requires forall ns :: ns in t.items ==> t.items[ns] == s.items[ns]
    requires forall id :: id in t.entries ==> t.entries[id] == s.entries[id] && t.entries[id].ns in t.items
    requires forall ns ::
               && KeyCount(t.entries, ns) <= KeyCount(s.entries, ns)
               && ByteCount(t.entries, ns) <= ByteCount(s.entries, ns)
    ensures StoreInv(t) && LimitInv(t)
  {
    hide KeyCount, ByteCount, IsKey, NsKey, IsNSID;
  }

  lemma {:induction false} QuotaAfterRemove(s: HubState, ns: Bytes, key: Bytes, t: HubState)
    requires Inv(s) && NsKey(ns, key) in s.entries
    requires t.items == s.items && t.entries == s.entries - {NsKey(ns, key)}
    requires t.use == Applied(s.use, ns, -1, -(PayloadBytes(s.entries[NsKey(ns, key)].versions) as int))
    ensures QuotaInv(t)
    ensures forall n ::
              && KeyCount(t.entries, n) <= KeyCount(s.entries, n)
              && ByteCount(t.entries, n) <= ByteCount(s.entries, n)
  {
    hide KeyCount, ByteCount, RegistryInv, StoreInv, LimitInv;
    FoundUnderOwnName(s, ns, key);
    DeleteSubtractsExactly(s, ns, key);
    forall n
      ensures UsageOf(t.use, n) == Usage(KeyCount(t.entries, n), ByteCount(t.entries, n))
      ensures KeyCount(t.entries, n) <= KeyCount(s.entries, n) && ByteCount(t.entries, n) <= ByteCount(s.entries, n)
    {
      CountsAfterRemove(s.entries, NsKey(ns, key), n);
    }
  }

  lemma {:induction false} StaysInRegistered(s: HubState, t: HubState)
    requires StoreInv(s) && t.items == s.items
    requires t.entries.Keys <= s.entries.Keys && forall id :: id in t.entries ==> t.entries[id] == s.entries[id]
    ensures forall id :: id in t.entries ==> t.entries[id].ns in t.items
  {}

  lemma {:induction false} RegistryFrame(s: HubState, t: HubState)
    requires RegistryInv(s) && t.items == s.items && t.acl == s.acl
    ensures RegistryInv(t)
  {}

  lemma {:induction false} DeleteKeyKeepsInv(s: HubState, ns: Bytes, key: Bytes, actor: Bytes, now: int)
    requires Inv(s)
    ensures Inv(DeleteKey(s, ns, key, actor, now).0)
  {
    hide RegistryInv, StoreInv, QuotaInv, LimitInv, LogInv, KeyCount, ByteCount;
    var (t, err) := DeleteKey(s, ns, key, actor, now);
    if err.Some? {
      FailedKeepsInv(s, ns, key, KIND_DELETE, actor, err.value, now);
    } else {
      var e := s.entries[NsKey(ns, key)];
      QuotaAfterRemove(s, ns, key, t);
      StaysInRegistered(s, t);
      ShrinkKeepsInv(s, t);
      RegistryFrame(s, t);
      SuccessKeepsLog(s, ns, key, KIND_DELETE, actor, e.head, PayloadBytes(e.versions), [], now, t);
    }
  }

  // ----- CreateNS, DeleteNS, Grant -----

  lemma {:induction false} NothingStoredFor(s: HubState, ns: Bytes)
    requires StoreInv(s) && ns !in s.items
    ensures KeyCount(s.entries, ns) == 0 == ByteCount(s.entries, ns)
  {
    assert IdsOf(s.entries, ns) == {};
  }

  lemma {:induction false} CreateKeepsRegistry(s: HubState, n: Namespace, t: HubState)
    requires RegistryInv(s) && StoreInv(s) && QuotaInv(s) && LimitInv(s)
    requires n.id !in s.items && IsNSID(n.id) && n.maxKeys > 0 && n.maxBytes > 0
    requires t.items == s.items[n.id := n] && t.acl == s.acl.(owners := s.acl.owners[n.id := n.owner])
    requires t.entries == s.entries && t.use == s.use
    ensures RegistryInv(t) && StoreInv(t) && QuotaInv(t) && LimitInv(t)
  {
    hide KeyCount, ByteCount, IsKey, NsKey, IsNSID, WellKeyed, RegistryInv;
    NothingStoredFor(s, n.id);
    OneMoreRegistered(s, n, t);
  }

  lemma {:induction false} OneMoreRegistered(s: HubState, n: Namespace, t: HubState)
    requires RegistryInv(s) && IsNSID(n.id) && n.maxKeys > 0 && n.maxBytes > 0
    requires t.items == s.items[n.id := n] && t.acl == s.acl.(owners := s.acl.owners[n.id := n.owner])
    ensures RegistryInv(t)
  {
    hide IsNSID;
  }

  lemma {:induction false} CreateNSKeepsInv(s: HubState, spec: NSSpec, now: int, auditNow: int)
    requires Inv(s)
    ensures Inv(CreateNS(s, spec, now, auditNow).0)
  {
    hide RegistryInv, StoreInv, QuotaInv, LimitInv, LogInv;
    var (t, r) := CreateNS(s, spec, now, auditNow);
    if r.Err? {
      FailedKeepsInv(s, spec.id, [], KIND_CREATE_NS, spec.actor, r.error, auditNow);
    } else {
      CreateKeepsRegistry(s, r.value, t);
      SuccessKeepsLog(s, spec.id, [], KIND_CREATE_NS, spec.owner, 0, 0, Lit("owner=") + spec.owner, auditNow, t);
    }
  }

  lemma {:induction false} RemoveKeepsRegistry(s: HubState, id: Bytes, t: HubState)
    requires RegistryInv(s) && t.items == s.items - {id} && t.acl == s.acl.Removed(id)
    ensures RegistryInv(t)
  {}

  lemma {:induction false} QuotaAfterRemoveNS(s: HubState, id: Bytes, t: HubState)
    requires QuotaInv(s)
    requires t.items == s.items - {id} && t.entries == WithoutNS(s.entries, id) && t.use == s.use - {id}
    ensures QuotaInv(t)
    ensures forall n ::
              && KeyCount(t.entries, n) <= KeyCount(s.entries, n)
              && ByteCount(t.entries, n) <= ByteCount(s.entries, n)
  {
    hide KeyCount, ByteCount;
    forall n
      ensures UsageOf(t.use, n) == Usage(KeyCount(t.entries, n), ByteCount(t.entries, n))
      ensures KeyCount(t.entries, n) <= KeyCount(s.entries, n) && ByteCount(t.entries, n) <= ByteCount(s.entries, n)
    {
      CountsAfterRemoveNS(s.entries, id, n);
    }
  }

  lemma {:induction false} KeptInRegistered(s: HubState, id: Bytes, t: HubState)
    requires StoreInv(s) && t.items == s.items - {id} && t.entries == WithoutNS(s.entries, id)
    ensures t.entries.Keys <= s.entries.Keys
    ensures forall i :: i in t.entries ==> t.entries[i] == s.entries[i] && t.entries[i].ns in t.items
  {}

  lemma {:induction false} DeleteNSKeepsInv(s: HubState, id: Bytes, actor: Bytes, now: int)
    requires Inv(s)
    ensures Inv(DeleteNS(s, id, actor, now).0)
  {
    hide RegistryInv, StoreInv, QuotaInv, LimitInv, LogInv, KeyCount, ByteCount, WithoutNS;
    var (t, err) := DeleteNS(s, id, actor, now);
    if err.Some? {
      FailedKeepsInv(s, id, [], KIND_DELETE_NS, actor, err.value, now);
    } else {
      RemoveKeepsRegistry(s, id, t);
      QuotaAfterRemoveNS(s, id, t);
      KeptInRegistered(s, id, t);
      ShrinkKeepsInv(s, t);
      SuccessKeepsLog(s, id, [], KIND_DELETE_NS, actor, 0, |OfNS(s.entries, id)|, [], now, t);
    }
  }

  lemma {:induction false} GrantKeepsInv(s: HubState, ns: Bytes, subject: Bytes, role: Bytes, actor: Bytes)
    requires Inv(s)
    ensures Inv(Grant(s, ns, subject, role, actor).0)
  {
    hide RegistryInv, StoreInv, QuotaInv, LimitInv, LogInv, Acl.CheckError, Acl.Granted;
    var t := Grant(s, ns, subject, role, actor).0;
    if ns in s.items && ParseRole(role).Ok? {
      GrantKeepsRegistry(s, ns, subject, ParseRole(role).value);
    }
    OnlyGrantsChange(s, t);
  }

  lemma {:induction false} GrantKeepsRegistry(s: HubState, ns: Bytes, subject: Bytes, role: Role)
    requires RegistryInv(s) && ns in s.items
    ensures RegistryInv(s.(acl := s.acl.Granted(ns, subject, role)))
  {
    hide IsNSID, IsActor;
  }

  lemma {:induction false} CloseKeepsInv(s: HubState)
    requires Inv(s)
    ensures Inv(s.(closed := true))
  {
    hide KeyCount, ByteCount, IsKey, NsKey, IsNSID;
  }

  lemma {:induction false} OnlyGrantsChange(s: HubState, t: HubState)
    requires StoreInv(s) && QuotaInv(s) && LimitInv(s) && LogInv(s) && t == s.(acl := t.acl)
    ensures StoreInv(t) && QuotaInv(t) && LimitInv(t) && LogInv(t)
  {
    hide KeyCount, ByteCount, IsKey, NsKey, IsNSID;
  }
}
