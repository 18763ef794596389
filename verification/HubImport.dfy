/** snap.go: what importing an arbitrary snapshot promises, and exactly when. */
module HubImport {
  import opened Base
  import opened Meta
  import opened StoreEntry
  import opened StoreMemory
  import opened Quota
  import opened Access
  import opened HubModel
  import opened HubInvariants
  import opened HubRuns
  import opened HubSamples
  import opened HubSnapshot
  import opened SnapshotCodec
  import opened Validate
  import Audit
  import Watch

  function BlobOf(namespaces: seq<Namespace>, entries: seq<Option<Entry>>, usage: Option<map<Bytes, Usage>>): Blob {
    Blob(Header(MAGIC, FORMAT, 0, |namespaces|, |entries|, VersionCount(entries)), namespaces, entries, None, None, usage)
  }

  // ----- Atomicity -----

  ghost predicate HasMalformed(b: Blob) {
    exists i :: 0 <= i < |b.entries| && b.entries[i].Some? && !ValidChain(b.entries[i].value)
  }

  /** A rejected snapshot has already replaced the registry and the access list, and nothing else;
      it is rejected exactly when some entry's chain is malformed. */
  lemma {:induction false} FailedImportReplacesRegistry(s: HubState, b: Blob, now: int)
    requires !s.closed
    ensures var (t, err) := Import(s, Some(b), now);
            && (err.Some? <==> HasMalformed(b))
            && (err.Some? ==>
              t == WithRegistry(s, b) == s.(items := t.items, acl := t.acl) && t.items == Registered(b.namespaces))
  {
    NoErrorAmongValid(b.entries);
  }

  /** Import is all or nothing exactly when no chain is malformed, or the snapshot brings the
      namespaces, owners and grants that the hub has already. */
  lemma {:induction false} ImportIsAtomicIff(s: HubState, b: Blob, now: int)
    requires !s.closed
    ensures var (t, err) := Import(s, Some(b), now);
            (err.Some? ==> t == s) <==>
            || !HasMalformed(b)
            || (&& Registered(b.namespaces) == s.items
                && WithOwners(s.acl.owners, b.namespaces) == s.acl.owners
                && (b.grants.Some? ==> Imported(b.grants.value) == s.acl.grants))
  {
    hide HasMalformed, Registered, WithOwners, Imported, FirstChainError;
    FailedImportReplacesRegistry(s, b, now);
  }

  /** A snapshot with one namespace and one empty chain is rejected by a new hub, which then has
      that namespace. */
  lemma {:induction false} RejectedImportCanChangeHub(auditCap: int, n: Namespace, now: int)
    ensures var b := BlobOf([n], [Some(Entry([], [], [], 0, 0))], None);
            var (t, err) := Import(New(auditCap), Some(b), now);
            err.Some? && t != New(auditCap) && n.id in t.items
  {
    var b := BlobOf([n], [Some(Entry([], [], [], 0, 0))], None);
    assert b.entries[0].Some? && !ValidChain(b.entries[0].value);
    assert HasMalformed(b);
    FailedImportReplacesRegistry(New(auditCap), b, now);
    assert [n][..0] == [];
    assert Registered([n]) == map[][n.id := n];
    assert n.id in Import(New(auditCap), Some(b), now).0.items;
    assert n.id !in New(auditCap).items;
  }

  // ----- Counters -----

  ghost predicate CountersExact(s: HubState) {
    forall ns :: UsageOf(s.use, ns) == Usage(KeyCount(s.entries, ns), ByteCount(s.entries, ns))
  }

  /** A recount reaches only the namespaces that are registered or hold entries: it is exact if and
      only if no stale counter is left. */
  lemma {:induction false} RecountIsExactIff(use: map<Bytes, Usage>, items: map<Bytes, Namespace>, m: Entries)
    ensures (forall ns :: UsageOf(Recounted(use, items, m), ns) == Usage(KeyCount(m, ns), ByteCount(m, ns)))
            <==> forall ns :: ns in use && ns !in items && ns !in SpacesOf(m) ==> use[ns] == Usage(0, 0)
  {
    forall ns | ns !in SpacesOf(m)
      ensures KeyCount(m, ns) == 0 == ByteCount(m, ns)
    {
      NothingInSpace(m, ns);
    }
    var after := Recounted(use, items, m);
    forall ns
      ensures UsageOf(after, ns) ==
              if ns in SpacesOf(m) then Usage(KeyCount(m, ns), ByteCount(m, ns))
              else if ns in use && ns !in items then use[ns] else Usage(0, 0)
    {}
  }

  lemma {:induction false} RegisteredIDs(ns: seq<Namespace>)
    ensures Registered(ns).Keys == IDsOf(ns)
  {
    RegisteredHolds(ns);
    forall id | id in IDsOf(ns)
      ensures id in Registered(ns)
    {
      var n :| n in ns && n.id == id;
      var i :| 0 <= i < |ns| && ns[i] == n;
    }
  }

  /** Counters that come with the snapshot are trusted: they are exact if and only if there is one
      for every namespace with entries, and each counts what the snapshot holds. */
  lemma {:induction false} TrustedIsExactIff(use: map<Bytes, Usage>, m: Entries)
    ensures (forall ns :: UsageOf(use, ns) == Usage(KeyCount(m, ns), ByteCount(m, ns)))
            <==> SpacesOf(m) <= use.Keys && forall ns :: ns in use ==> use[ns] == Usage(KeyCount(m, ns), ByteCount(m, ns))
  {
    hide KeyCount, ByteCount, SpacesOf;
    forall ns
      ensures ns in SpacesOf(m) ==> KeyCount(m, ns) > 0
      ensures ns !in SpacesOf(m) ==> KeyCount(m, ns) == 0 == ByteCount(m, ns)
    {
      if ns in SpacesOf(m) {
        SomethingInSpace(m, ns);
      } else {
        NothingInSpace(m, ns);
      }
    }
    if forall ns :: UsageOf(use, ns) == Usage(KeyCount(m, ns), ByteCount(m, ns)) {
      forall ns | ns in SpacesOf(m)
        ensures ns in use
      {
        assert UsageOf(use, ns) == Usage(KeyCount(m, ns), ByteCount(m, ns));
      }
      forall ns | ns in use
        ensures use[ns] == Usage(KeyCount(m, ns), ByteCount(m, ns))
      {
        assert UsageOf(use, ns) == Usage(KeyCount(m, ns), ByteCount(m, ns));
      }
    }
  }

  /** After a successful import every counter is exact if and only if: the counters in the snapshot
      count its entries, when it brings any; otherwise, the hub held no counter other than zero for
      a namespace that the snapshot neither registers nor stores entries for. */
  lemma {:induction false} ImportedCountersExactIff(s: HubState, b: Blob, now: int)
    requires !s.closed && !HasMalformed(b)
    ensures var (t, err) := Import(s, Some(b), now);
            var m := Restored(b.entries);
            && err.None? && t.entries == m
            && (CountersExact(t) <==>
              if b.usage.Some? then
                && SpacesOf(m) <= b.usage.value.Keys
                && forall ns :: ns in b.usage.value ==> b.usage.value[ns] == Usage(KeyCount(m, ns), ByteCount(m, ns))
              else
                forall ns :: ns in s.use && ns !in IDsOf(b.namespaces) && ns !in SpacesOf(m) ==> s.use[ns] == Usage(0, 0))
  {
    hide KeyCount, ByteCount, SpacesOf, Recounted, Restored, FirstChainError, WithRegistry, IDsOf, Registered;
    FailedImportReplacesRegistry(s, b, now);
    var m := Restored(b.entries);
    if b.usage.Some? {
      TrustedIsExactIff(b.usage.value, m);
    } else {
      RegisteredIDs(b.namespaces);
      NewRegistry(s, b);
      RecountIsExactIff(s.use, Registered(b.namespaces), m);
    }
  }

  lemma {:induction false} NewRegistry(s: HubState, b: Blob)
    ensures WithRegistry(s, b).items == Registered(b.namespaces)
  {}

  /** A hub with one key that imports an empty snapshot without counters still counts the key. */
  lemma {:induction false} ImportCanLeaveStaleCounter(cfg: Config, auditCap: int, now: int)
    requires !cfg.requireSign
    ensures var (t, err) := Import(Run(cfg, New(auditCap), OneKeyRun()), Some(BlobOf([], [], None)), now);
            err.None? && t.entries == map[] && UsageOf(t.use, Lit("a")) == Usage(1, 1) && !CountersExact(t)
  {
    OneKeyCounted(cfg, auditCap);
    var s := Run(cfg, New(auditCap), OneKeyRun());
    var b := BlobOf([], [], None);
    assert Lit("a") in s.use && Lit("a") !in IDsOf(b.namespaces) && Lit("a") !in SpacesOf(map[]);
    ImportedCountersExactIff(s, b, now);
  }

  /** A new hub believes a snapshot that counts a key it does not hold. */
  lemma {:induction false} ImportCanTrustWrongCounter(auditCap: int, now: int)
    ensures var (t, err) := Import(New(auditCap), Some(BlobOf([], [], Some(map[Lit("a") := Usage(1, 1)]))), now);
            err.None? && t.entries == map[] && UsageOf(t.use, Lit("a")) == Usage(1, 1) && !CountersExact(t)
  {
    var b := BlobOf([], [], Some(map[Lit("a") := Usage(1, 1)]));
    assert KeyCount(map[], Lit("a")) == 0;
    assert b.usage.value[Lit("a")] != Usage(KeyCount(map[], Lit("a")), ByteCount(map[], Lit("a")));
    ImportedCountersExactIff(New(auditCap), b, now);
  }

  // ----- Pointers -----

  /** After a successful import the pointers have a history, for every key, if and only if each
      chain stored passes the test that can be made on the snapshot. */
  lemma {:induction false} ImportedChainsHaveHistoryIff(s: HubState, b: Blob, now: int)
    requires !s.closed && !HasMalformed(b)
    ensures var (t, err) := Import(s, Some(b), now);
            && err.None? && t.entries == Restored(b.entries)
            && ((exists c :: Chronicled(t, c)) <==> forall id :: id in t.entries ==> Attainable(t.entries[id]))
  {
    hide Restored, FirstChainError, WithRegistry, Recounted, Attainable, Tracks, MarkOf;
    FailedImportReplacesRegistry(s, b, now);
    var t := Import(s, Some(b), now).0;
    ChronicledIff(t);
  }

  lemma {:induction false} ChronicledIff(t: HubState)
    ensures (exists c :: Chronicled(t, c)) <==> forall id :: id in t.entries ==> Attainable(t.entries[id])
  {
    hide Attainable, Tracks, MarkOf;
    forall id | id in t.entries
      ensures (exists m :: Tracks(t.entries[id], m)) <==> Attainable(t.entries[id])
      ensures Attainable(t.entries[id]) ==> Tracks(t.entries[id], MarkOf(t.entries[id]))
    {
      TracksIffAttainable(t.entries[id]);
    }
    if forall id :: id in t.entries ==> Attainable(t.entries[id]) {
      var c := map id | id in t.entries :: Chronicle(MarkOf(t.entries[id]), |t.entries[id].versions|);
      assert Chronicled(t, c);
    }
    if c: map<Bytes, Chronicle> :| Chronicled(t, c) {
      forall id | id in t.entries
        ensures Attainable(t.entries[id])
      {
        assert Tracks(t.entries[id], c[id].mark);
      }
    }
  }

  /** On every run every chain stored passes that test. */
  lemma {:induction false} RunsHoldAttainable(cfg: Config, auditCap: int, ops: seq<Op>)
    ensures var s := Run(cfg, New(auditCap), ops);
            forall id :: id in s.entries ==> Attainable(s.entries[id])
  {
    hide *;
    RunsAreSafe(cfg, auditCap, ops);
    ChronicledIff(Run(cfg, New(auditCap), ops));
  }

  /** Two versions released to nobody in particular, the first of them marked stable. */
  function UnreleasedStable(rule: GrayRule): Entry {
    var v := VersionMeta(1, [1], [], [], [], 0, Some(rule));
    Entry(Lit("a"), Lit("k"), [v, v.(rev := 2)], 2, 1)
  }

  /** A new hub imports such a chain without error, although no sequence of calls leads to it. */
  lemma {:induction false} ImportAcceptsUnreleasedStable(auditCap: int, rule: GrayRule, now: int)
    requires !Full(Some(rule))
    ensures var e := UnreleasedStable(rule);
            var (t, err) := Import(New(auditCap), Some(BlobOf([], [Some(e)], None)), now);
            && err.None? && t.entries == map[NsKey(e.ns, e.key) := e]
            && e.stable > 0 && !Released(e, e.stable) && !Attainable(e)
            && (forall c :: !Chronicled(t, c))
            && forall cfg, cap: int, ops: seq<Op> :: Run(cfg, New(cap), ops).entries != t.entries
  {
    hide NsKey;
    var e := UnreleasedStable(rule);
    var b := BlobOf([], [Some(e)], None);
    assert ValidChain(e) && !Attainable(e);
    assert [Some(e)][..0] == [];
    assert Restored(b.entries) == map[][NsKey(e.ns, e.key) := e];
    ImportedChainsHaveHistoryIff(New(auditCap), b, now);
    var t := Import(New(auditCap), Some(b), now).0;
    assert NsKey(e.ns, e.key) in t.entries;
    forall cfg, cap: int, ops: seq<Op>
      ensures Run(cfg, New(cap), ops).entries != t.entries
    {
      RunsHoldAttainable(cfg, cap, ops);
    }
  }

  // ----- Signatures -----

  ghost predicate ChainVerifies(cfg: Config, e: Entry) {
    forall i :: 0 <= i < |e.versions| ==> Verifies(cfg, e.ns, e.key, e.versions[i])
  }

  /** Import checks no signature: after a successful one everything stored verifies if and only if
      every chain that the snapshot stores does. */
  lemma {:induction false} ImportedChainsVerifyIff(cfg: Config, s: HubState, b: Blob, now: int)
    requires !s.closed && !HasMalformed(b)
    ensures var (t, err) := Import(s, Some(b), now);
            var m := Restored(b.entries);
            err.None? && (SignedInv(cfg, t) <==> forall id :: id in m ==> ChainVerifies(cfg, m[id]))
  {
    hide Restored, FirstChainError, WithRegistry, Recounted, Verifies, SignedInv, ChainVerifies, Import;
    FailedImportReplacesRegistry(s, b, now);
    EntriesAfterImport(s, b, now);
    SignedIffChainsVerify(cfg, Import(s, Some(b), now).0);
  }

  lemma {:induction false} EntriesAfterImport(s: HubState, b: Blob, now: int)
    requires !s.closed && Import(s, Some(b), now).1.None?
    ensures Import(s, Some(b), now).0.entries == Restored(b.entries)
  {
    hide Restored, FirstChainError, WithRegistry, Recounted;
  }

  lemma {:induction false} SignedIffChainsVerify(cfg: Config, s: HubState)
    ensures SignedInv(cfg, s) <==> forall id :: id in s.entries ==> ChainVerifies(cfg, s.entries[id])
  {
    hide Verifies;
    if forall id :: id in s.entries ==> ChainVerifies(cfg, s.entries[id]) {
      forall id, i | id in s.entries && 0 <= i < |s.entries[id].versions|
        ensures Verifies(cfg, s.entries[id].ns, s.entries[id].key, s.entries[id].versions[i])
      {
        assert ChainVerifies(cfg, s.entries[id]);
      }
    }
  }

  /** A new hub that requires signatures imports an unsigned version without error. */
  lemma {:induction false} ImportAcceptsUnsigned(cfg: Config, auditCap: int, now: int)
    requires cfg.requireSign
    ensures var e := Entry(Lit("a"), Lit("k"), [VersionMeta(1, [1], [], [], [], 0, None)], 1, 1);
            var (t, err) := Import(New(auditCap), Some(BlobOf([], [Some(e)], None)), now);
            err.None? && !SignedInv(cfg, t)
  {
    hide NsKey;
    var e := Entry(Lit("a"), Lit("k"), [VersionMeta(1, [1], [], [], [], 0, None)], 1, 1);
    var b := BlobOf([], [Some(e)], None);
    assert ValidChain(e);
    assert [Some(e)][..0] == [];
    assert Restored(b.entries) == map[][NsKey(e.ns, e.key) := e];
    UnsignedNeverVerifies(cfg, e.ns, e.key, e.versions[0]);
    assert !ChainVerifies(cfg, e);
    assert !HasMalformed(b);
    assert Restored(b.entries)[NsKey(e.ns, e.key)] == e;
    ImportedChainsVerifyIff(cfg, New(auditCap), b, now);
  }

  lemma {:induction false} UnsignedNeverVerifies(cfg: Config, ns: Bytes, key: Bytes, v: VersionMeta)
    requires v.sig == []
    ensures !Verifies(cfg, ns, key, v)
  {}

  // ----- Registry and access list -----

  lemma {:induction false} OwnersAfter(owners: map<Bytes, Bytes>, ns: seq<Namespace>)
    ensures WithOwners(owners, ns).Keys == owners.Keys + Registered(ns).Keys
    ensures forall id :: id in Registered(ns) ==>
              Registered(ns)[id].id == id && WithOwners(owners, ns)[id] == Registered(ns)[id].owner
  {
    if ns != [] {
      OwnersAfter(owners, ns[..|ns| - 1]);
    }
  }

  /** What can be checked on hub and snapshot: proper namespaces with limits, among them all that the
      hub has, and grants for them only. */
  ghost predicate SoundRegistry(s: HubState, b: Blob) {
    var items := Registered(b.namespaces);
    && (forall id :: id in items ==> IsNSID(id) && items[id].maxKeys > 0 && items[id].maxBytes > 0)
    && s.items.Keys <= items.Keys
    && (b.grants.Some? ==> forall k :: ImportsGrant(b.grants.value, k) ==> k.ns in items)
  }

  /** An import, successful or not, keeps registry and access list in agreement if and only if that
      holds: no owner is ever forgotten, and without grants in the snapshot the old ones stay. */
  lemma {:induction false} ImportedRegistryIff(s: HubState, b: Blob, now: int)
    requires !s.closed && RegistryInv(s)
    ensures RegistryInv(Import(s, Some(b), now).0) <==> SoundRegistry(s, b)
  {
    hide IsNSID, FirstChainError, Registered, WithOwners, Imported, Restored, Recounted;
    var items := Registered(b.namespaces);
    OwnersAfter(s.acl.owners, b.namespaces);
    var t := Import(s, Some(b), now).0;
    assert t.items == items && t.acl == WithRegistry(s, b).acl;
    if b.grants.Some? {
      GrantsAfter(b.grants.value);
    }
  }

  lemma {:induction false} GrantsAfter(m: map<Bytes, map<Bytes, Bytes>>)
    ensures forall k :: k in Imported(m) <==> ImportsGrant(m, k)
    ensures forall k :: k in Imported(m) ==> Imported(m)[k] != NoRole
  {
    hide Imported;
  }

  /** A hub with the namespace "a" that imports an empty snapshot has no such namespace any more, but
      its owner still has the administrator's role there. */
  lemma {:induction false} ImportCanKeepOwner(cfg: Config, auditCap: int, now: int)
    ensures var (t, err) := Import(Run(cfg, New(auditCap), [CreateA()]), Some(BlobOf([], [], None)), now);
            && err.None? && Lit("a") !in t.items && t.acl.RoleOf(Lit("a"), Lit("o")) == Admin && !RegistryInv(t)
  {
    hide Chronicles;
    CreatingA(cfg, auditCap);
    RunsAreSafe(cfg, auditCap, [CreateA()]);
    var s := Run(cfg, New(auditCap), [CreateA()]);
    assert s.acl.owners[Lit("a")] == s.items[Lit("a")].owner == Lit("o");
    assert Lit("o") == [111];
    ImportedRegistryIff(s, BlobOf([], [], None), now);
  }

  // ----- The audit trail -----

  /** A closed hub refuses, and nothing is imported from nothing. */
  lemma {:induction false} ImportNeedsOpenHub(s: HubState, b: Option<Blob>, now: int)
    ensures s.closed ==> Import(s, b, now) == (s, Some(Error(Closed, [])))
    ensures !s.closed && b.None? ==> Import(s, b, now) == (s, None)
  {}

  /** After a successful import the trail holds the newest of the snapshot's records, or of the hub's own if it
      brings none, and the import itself as the last; numbering goes on from the largest number. */
  lemma {:induction false} ImportedTrail(s: HubState, b: Blob, now: int)
    requires !s.closed && !HasMalformed(b)
    ensures var log := Import(s, Some(b), now).0.log;
            var rs := if b.audit.Some? then b.audit.value else s.log.records;
            var all := rs + [ImportRecord(|b.entries|, log.seqNo, now)];
            && log.cap == s.log.cap
            && log.records == (if |all| <= log.cap then all else all[|all| - log.cap..])
            && (b.audit.None? ==> log.seqNo == s.log.seqNo + 1)
            && (b.audit.Some? ==>
              && (forall r :: r in rs ==> r.seqNo < log.seqNo)
              && (log.seqNo == 1 || exists r :: r in rs && r.seqNo + 1 == log.seqNo))
  {
    hide Restored, Recounted, WithRegistry, FirstChainError, Audit.MaxSeq;
    FailedImportReplacesRegistry(s, b, now);
    KeepsLog(s, b);
    if b.audit.Some? {
      var rs := b.audit.value;
      Audit.MaxSeqIsMax(rs);
      Audit.MaxSeqIsSome(rs);
      Audit.LastNOfLastN(rs, ImportRecord(|b.entries|, Audit.MaxSeq(rs) + 1, now), s.log.cap);
    }
  }

  // ----- Everything -----

  lemma {:induction false} ImportedLogIsSafe(s: HubState, b: Blob, now: int)
    requires !s.closed && !HasMalformed(b) && LogInv(s)
    ensures LogInv(Import(s, Some(b), now).0)
  {
    hide Restored, Recounted, WithRegistry, FirstChainError, Audit.Numbered, Audit.Counted, Audit.MaxSeq, Audit.LastN;
    FailedImportReplacesRegistry(s, b, now);
    var log := if b.audit.Some? then s.log.Replaced(b.audit.value) else s.log;
    if b.audit.Some? {
      Audit.NumbersGrow(s.log, Audit.Replace(b.audit.value));
      Audit.MaxSeqIsSome(b.audit.value);
      ReplacedIsValid(s.log, b);
    }
    var r := AuditRecordOf([], [], KIND_IMPORT, [], 0, |b.entries|, []);
    LogStep(log, r, now);
    assert Import(s, Some(b), now).0.log == log.Appended(r, now) by {
      KeepsLog(s, b);
    }
  }

  lemma {:induction false} KeepsLog(s: HubState, b: Blob)
    ensures WithRegistry(s, b).log == s.log
  {}

  lemma {:induction false} ReplacedIsValid(log: Audit.LogState, b: Blob)
    requires log.Valid() && b.audit.Some?
    ensures log.Replaced(b.audit.value).Valid()
  {}

  /** What can be checked on hub and snapshot for everything to be as after a run. */
  ghost predicate SoundSnapshot(s: HubState, b: Blob) {
    var items, m := Registered(b.namespaces), Restored(b.entries);
    && SoundRegistry(s, b)
    && (forall id :: id in m ==> m[id].ns in items && IsKey(m[id].key) && Attainable(m[id]))
    && (forall ns :: ns in items ==> KeyCount(m, ns) <= items[ns].maxKeys && ByteCount(m, ns) <= items[ns].maxBytes)
    && (b.usage.Some? ==>
      && SpacesOf(m) <= b.usage.value.Keys <= items.Keys
      && forall ns :: ns in b.usage.value ==> b.usage.value[ns] == Usage(KeyCount(m, ns), ByteCount(m, ns)))
  }

  lemma {:induction false} ImportedStoreIff(t: HubState, es: seq<Option<Entry>>)
    requires t.entries == Restored(es)
    ensures StoreInv(t) <==> forall id :: id in t.entries ==> t.entries[id].ns in t.items && IsKey(t.entries[id].key)
  {
    hide Restored, IsKey, NsKey, WellKeyed;
    RestoredHolds(es);
  }

  /** Counters of registered namespaces only, and exact. */
  lemma {:induction false} ImportedQuotaIff(s: HubState, b: Blob, now: int)
    requires !s.closed && !HasMalformed(b) && Inv(s)
    requires var t := Import(s, Some(b), now).0; RegistryInv(t) && StoreInv(t)
    ensures var t := Import(s, Some(b), now).0;
            QuotaInv(t) <==>
              (b.usage.Some? ==>
                && SpacesOf(t.entries) <= b.usage.value.Keys <= t.items.Keys
                && forall ns :: ns in b.usage.value ==>
                    b.usage.value[ns] == Usage(KeyCount(t.entries, ns), ByteCount(t.entries, ns)))
  {
    hide KeyCount, ByteCount, Restored, FirstChainError, Registered, IDsOf, IsKey, NsKey, IsNSID, StoreInv, SoundRegistry,
      LimitInv, LogInv, WithOwners, Imported;
    var t := Import(s, Some(b), now).0;
    FailedImportReplacesRegistry(s, b, now);
    ImportedCountersExactIff(s, b, now);
    RegisteredIDs(b.namespaces);
    if b.usage.None? {
      ImportedRegistryIff(s, b, now);
      OldNamespacesStay(s, b);
      SpacesAreRegistered(t);
    }
  }

  lemma {:induction false} OldNamespacesStay(s: HubState, b: Blob)
    requires SoundRegistry(s, b)
    ensures s.items.Keys <= Registered(b.namespaces).Keys
  {}

  lemma {:induction false} SpacesAreRegistered(s: HubState)
    requires StoreInv(s)
    ensures SpacesOf(s.entries) <= s.items.Keys
  {
    hide IsKey, NsKey;
  }

  /** Importing a well-formed snapshot into a safe hub leaves a safe hub, with all pointers in closed
      form, if and only if the snapshot is sound for that hub. By RunKeeps it then stays safe. */
  lemma {:induction false} ImportIsSafeIff(s: HubState, b: Blob, now: int)
    requires !s.closed && !HasMalformed(b) && Inv(s)
    ensures var (t, err) := Import(s, Some(b), now);
            err.None? && (Inv(t) && (exists c :: Chronicled(t, c)) <==> SoundSnapshot(s, b))
  {
    hide KeyCount, ByteCount, Restored, FirstChainError, Registered, IsKey, NsKey, IsNSID, RegistryInv, StoreInv, QuotaInv,
      SoundRegistry, LogInv, Attainable, SpacesOf, Chronicled, HasMalformed, Recounted, WithOwners, Imported;
    FailedImportReplacesRegistry(s, b, now);
    var t := Import(s, Some(b), now).0;
    NewRegistry(s, b);
    assert t.entries == Restored(b.entries) && t.items == Registered(b.namespaces);
    ImportedRegistryIff(s, b, now);
    ImportedStoreIff(t, b.entries);
    ImportedLogIsSafe(s, b, now);
    ChronicledIff(t);
    if RegistryInv(t) && StoreInv(t) {
      ImportedQuotaIff(s, b, now);
    }
  }

  /** So a sound snapshot starts further runs that are safe throughout. */
  lemma {:induction false} SoundImportStaysSafe(cfg: Config, s: HubState, b: Blob, now: int, more: seq<Op>)
    requires !s.closed && !HasMalformed(b) && Inv(s) && SoundSnapshot(s, b)
    ensures var t := Run(cfg, Import(s, Some(b), now).0, more);
            Inv(t) && exists c :: Chronicled(t, c)
  {
    hide *;
    ImportIsSafeIff(s, b, now);
    var t := Import(s, Some(b), now).0;
    var c: map<Bytes, Chronicle> :| Chronicled(t, c);
    RunKeeps(cfg, t, c, more);
  }

  // ----- The index of last events -----

  /** Import leaves the index of last events alone: if it agreed with the store before, it does so
      afterwards if and only if the snapshot stores chains under the same names with the same heads. */
  lemma {:induction false} ImportedIndexAgreesIff(s: HubState, b: Blob, now: int)
    requires !s.closed && !HasMalformed(b) && WatchInv(s)
    ensures var (t, err) := Import(s, Some(b), now);
            var m := Restored(b.entries);
            err.None? &&
            (WatchInv(t) <==> m.Keys == s.entries.Keys && forall id :: id in m ==> m[id].head == s.entries[id].head)
  {
    hide Restored, FirstChainError, WithRegistry, Recounted, Watch.LastKey;
    FailedImportReplacesRegistry(s, b, now);
    KeepsIndex(s, b);
    var t := Import(s, Some(b), now).0;
    assert t.last == s.last && t.entries == Restored(b.entries);
  }

  lemma {:induction false} KeepsIndex(s: HubState, b: Blob)
    ensures WithRegistry(s, b).last == s.last
  {}

  /** After importing an empty snapshot into a hub with one key, the index still knows that key. */
  lemma {:induction false} ImportCanLeaveStaleEvent(cfg: Config, auditCap: int, now: int)
    requires !cfg.requireSign
    ensures var (t, err) := Import(Run(cfg, New(auditCap), OneKeyRun()), Some(BlobOf([], [], None)), now);
            && err.None? && t.entries == map[] && !WatchInv(t)
            && NsKey(Lit("a"), Lit("k")) in t.last && t.last[NsKey(Lit("a"), Lit("k"))].kind != KIND_DELETE
  {
    hide Chronicles, Inv, NsKey, Lit, OneKeyRun;
    var s := Run(cfg, New(auditCap), OneKeyRun());
    OneKeyCounted(cfg, auditCap);
    RunsAreSafe(cfg, auditCap, OneKeyRun());
    assert NsKey(Lit("a"), Lit("k")) in s.entries;
    KeepsIndex(s, BlobOf([], [], None));
    ImportedIndexAgreesIff(s, BlobOf([], [], None), now);
  }
}
