/** hub.go, put.go, get.go, snap.go: the hub object, in front of its components. Every method is
    proved to be the step of the state machine that HubModel and HubSnapshot define. Clock readings
    are arguments. */
module Hub {
  import opened Base
  import opened Meta
  import opened Validate
  import opened StoreEntry
  import opened StoreMemory
  import opened Quota
  import opened Access
  import opened HubModel
  import opened HubSnapshot
  import opened SnapshotCodec
  import Audit
  import Gray
  import Signing
  import SnapshotReader
  import SnapshotWriter
  import Watch

  class Hub {
    var closed: bool
    const ns: Registry
    const store: Memory
    const watch: Watch.WatchHub
    const audit: Audit.Log
    const quota: Limiter
    const keys: Signing.Keyring
    const requireSign: bool
    const crypto: Signing.Crypto
    const bucket: Gray.Bucket

    ghost predicate Valid()
      reads this, ns, store, watch, audit
    {
      audit.Valid() && watch.Valid() && WellKeyed(store.entries) && Keyed(ns.items)
    }

    ghost function State(): HubState
      requires Valid()
      reads this, ns, ns.acl, store, watch, audit, audit.buf, quota
    {
      HubState(closed, ns.items, ns.acl.State(), store.entries, quota.use, audit.State(), watch.last)
    }

    ghost function Cfg(): Config
      reads keys
    {
      Config(requireSign, keys.Contents(), crypto, bucket)
    }

    constructor (requireSign: bool, auditCap: int, keys: Signing.Keyring, crypto: Signing.Crypto, bucket: Gray.Bucket)
      ensures Valid() && State() == New(auditCap)
      ensures fresh(ns) && fresh(ns.acl) && fresh(store) && fresh(watch) && fresh(audit) && fresh(audit.buf) && fresh(quota)
      ensures Cfg() == Config(requireSign, keys.Contents(), crypto, bucket)
    {
      closed := false;
      var acl := new ACL();
      ns := new Registry(acl);
      store := new Memory();
      watch := new Watch.WatchHub();
      audit := new Audit.Log(auditCap);
      quota := new Limiter();
      this.keys, this.requireSign, this.crypto, this.bucket := keys, requireSign, crypto, bucket;
    }

    method Close()
      requires Valid()
      modifies this, watch
      ensures Valid() && State() == old(State()).(closed := true)
    {
      if closed {
        return;
      }
      closed := true;
      watch.Close();
    }

    // ----- put.go -----

    /** The checks of Put, up to the quota check; nothing is written. */
    method Admit(nsName: Bytes, key: Bytes, payload: Bytes, opts: PutOptions, now: int)
      returns (v: Verdict, ghost order: seq<Bytes>)
      requires Valid()
      ensures Gray.Visits(order, opts.gray)
      ensures v == Admission(Cfg(), State(), nsName, key, payload, opts, order, now)
      ensures v.Admit? ==>
                && !closed && IsKey(key) && nsName in ns.items && payload != []
                && v.v.rev == NextRevOf(store.entries, nsName, key) && v.v.payload == payload
                && (opts.bindRev > 0 ==> v.v.rev == opts.bindRev)
    {
      hide IsKey, NsKey, NextRev, SignError, Acl.CheckError, Quota.CheckError, Signing.NormalizeAlgo;
      hide Gray.NormalForm, Gray.IsIteration, Watch.WatchHub.Valid, Audit.Log.Valid, Audit.Log.State;
      order := [];
      if opts.gray.Some? {
        order := Gray.SomeIteration(opts.gray.value.matchTags);
      }
      if closed {
        return Refuse(Sentinel0(Closed), false), order;
      }
      var bad := ValidKey(key);
      if bad.Some? {
        return Refuse(bad.value, false), order;
      }
      if payload == [] {
        return Refuse(Sentinel0(PayloadEmpty), false), order;
      }
      var n := ns.Get(nsName);
      if n.Err? {
        return Refuse(n.error, false), order;
      }
      if opts.actor != [] {
        var denied := ns.acl.Check(nsName, opts.actor, Writer);
        if denied.Some? {
          return Refuse(denied.value, true), order;
        }
      }
      var gray;
      gray, order := Gray.Normalize(opts.gray);
      if gray.Err? {
        return Refuse(gray.error, true), order;
      }
      var next := store.NextRevision(nsName, key);
      if opts.bindRev > 0 && opts.bindRev != next {
        return Refuse(Error(Conflict, Lit("bind_rev")), true), order;
      }
      var unsigned := CheckSignature(nsName, key, payload, opts);
      if unsigned.Some? {
        return Refuse(unsigned.value, true), order;
      }
      var newKey := NsKey(nsName, key) !in store.entries;
      var over := quota.Check(n.value, newKey, |payload|);
      if over.Some? {
        return Refuse(over.value, true), order;
      }
      var author := opts.author;
      if author == [] {
        author := opts.actor;
      }
      v := HubModel.Admit(
        VersionMeta(next, payload, opts.signature, Signing.NormalizeAlgo(opts.algo), author, now, gray.value), newKey);
    }

    method CheckSignature(nsName: Bytes, key: Bytes, payload: Bytes, opts: PutOptions) returns (err: Option<Error>)
      ensures err == SignError(Cfg(), nsName, key, payload, opts)
    {
      var signRev := 0;
      if opts.bindRev > 0 {
        signRev := opts.bindRev;
      }
      var needSign := requireSign || opts.algo != [] || opts.signature != [];
      if !needSign {
        return None;
      }
      if opts.signature == [] {
        return Some(Sentinel0(SignRequired));
      }
      var algo := Signing.NormalizeAlgo(opts.algo);
      if algo == [] {
        algo := Signing.ALGO_HMAC;
      }
      err := keys.Contents().Verify(crypto, nsName, key, opts.keyID, algo, signRev, payload, opts.signature);
    }

    /** order is how the tags of the gray rule happened to be iterated. */
    method Put(nsName: Bytes, key: Bytes, payload: Bytes, opts: PutOptions, now: int, auditNow: int)
      returns (r: Result<int>, ghost order: seq<Bytes>)
      requires Valid()
      modifies store, watch, audit, audit.buf, quota
      ensures Valid() && Gray.Visits(order, opts.gray)
      ensures (State(), r) == HubModel.Put(old(Cfg()), old(State()), nsName, key, payload, opts, order, now, auditNow)
    {
      hide Admission, PutVersionSpec, NsKey, NextRevOf, WellKeyed, Keyed, ErrorText, Applied, IsKey, Watch.LastKey;
      hide Audit.Log.Valid, Audit.Log.State, Audit.LogState.Failed, Audit.LogState.Succeeded, Watch.WatchHub.Valid;
      var v;
      v, order := Admit(nsName, key, payload, opts, now);
      if v.Refuse? {
        if v.audited {
          audit.Fail(nsName, key, KIND_PUBLISH, opts.actor, ErrorText(v.err), auditNow);
        }
        return Err(v.err), order;
      }
      var stored := store.PutVersion(nsName, key, v.v);
      if stored.Err? {
        audit.Fail(nsName, key, KIND_PUBLISH, opts.actor, ErrorText(stored.error), auditNow);
        return Err(stored.error), order;
      }
      var e := stored.value;
      var addKeys := 0;
      if v.newKey {
        addKeys := 1;
      }
      quota.Commit(nsName, addKeys, |payload|);
      audit.OK(nsName, key, KIND_PUBLISH, v.v.author, e.head, |payload|, [], auditNow);
      watch.Publish(Event(nsName, key, e.head, KIND_PUBLISH));
      r := Ok(e.head);
    }

    // ----- get.go -----

    method Get(nsName: Bytes, key: Bytes, client: ClientContext) returns (r: Result<Value>)
      requires Valid()
      ensures r == HubModel.Get(Cfg(), State(), nsName, key, client)
    {
      if closed {
        return Err(Sentinel0(Closed));
      }
      var n := ns.Get(nsName);
      if n.Err? {
        return Err(n.error);
      }
      var e := store.Get(nsName, key);
      if e.Err? {
        return Err(e.error);
      }
      var choice := Gray.Select(bucket, e.value, client);
      if !choice.ok {
        return Err(Error(NoStable, Ref(nsName, key)));
      }
      var v := e.value.ByRev(choice.rev);
      if v.None? {
        return Err(Error(NotFound, Ref(nsName, key)));
      }
      r := Ok(ValueFrom(e.value, v.value, choice.hit));
    }

    method GetRev(nsName: Bytes, key: Bytes, rev: int) returns (r: Result<Value>)
      requires Valid()
      ensures r == HubModel.GetRev(State(), nsName, key, rev)
    {
      if closed {
        return Err(Sentinel0(Closed));
      }
      var e := store.Get(nsName, key);
      if e.Err? {
        return Err(e.error);
      }
      var v := e.value.ByRev(rev);
      if v.None? {
        return Err(Error(BadRevision, Ref(nsName, key)));
      }
      r := Ok(ValueFrom(e.value, v.value, rev == e.value.head));
    }

    method RollbackActor(nsName: Bytes, key: Bytes, rev: int, actor: Bytes, auditNow: int) returns (err: Option<Error>)
      requires Valid()
      modifies store, watch, audit, audit.buf
      ensures Valid()
      ensures (State(), err) == Rollback(old(State()), nsName, key, rev, actor, auditNow)
    {
      hide NsKey, WellKeyed, Keyed, ErrorText, RollbackSpec, Acl.CheckError;
      hide Audit.Log.Valid, Audit.Log.State, Audit.LogState.Failed, Audit.LogState.Succeeded, Watch.WatchHub.Valid;
      if closed {
        return Some(Sentinel0(Closed));
      }
      var n := ns.Get(nsName);
      if n.Err? {
        return Some(n.error);
      }
      if actor != [] {
        err := ns.acl.Check(nsName, actor, Writer);
        if err.Some? {
          audit.Fail(nsName, key, KIND_ROLLBACK, actor, ErrorText(err.value), auditNow);
          return;
        }
      }
      var e := store.Rollback(nsName, key, rev);
      if e.Err? {
        audit.Fail(nsName, key, KIND_ROLLBACK, actor, ErrorText(e.error), auditNow);
        return Some(e.error);
      }
      audit.OK(nsName, key, KIND_ROLLBACK, actor, e.value.head, 0, [], auditNow);
      watch.Publish(Event(nsName, key, e.value.head, KIND_ROLLBACK));
      err := None;
    }

    method DeleteKey(nsName: Bytes, key: Bytes, actor: Bytes, auditNow: int) returns (err: Option<Error>)
      requires Valid()
      modifies store, watch, audit, audit.buf, quota
      ensures Valid()
      ensures (State(), err) == HubModel.DeleteKey(old(State()), nsName, key, actor, auditNow)
    {
      hide NsKey, WellKeyed, Keyed, ErrorText, Applied, Acl.CheckError, Watch.LastKey, PayloadBytes, UsageOf, Quota.Max;
      hide Audit.Log.Valid, Audit.Log.State, Audit.LogState.Failed, Audit.LogState.Succeeded, Watch.WatchHub.Valid;
      if closed {
        return Some(Sentinel0(Closed));
      }
      if actor != [] {
        err := ns.acl.Check(nsName, actor, Writer);
        if err.Some? {
          return;
        }
      }
      var e := store.DeleteKey(nsName, key);
      if e.Err? {
        audit.Fail(nsName, key, KIND_DELETE, actor, ErrorText(e.error), auditNow);
        return Some(e.error);
      }
      var bytes: int := BytesOf(e.value);
      quota.Commit(nsName, -1, -bytes);
      audit.OK(nsName, key, KIND_DELETE, actor, e.value.head, bytes, [], auditNow);
      watch.Publish(Event(nsName, key, e.value.head, KIND_DELETE));
      err := None;
    }

    // ----- hub.go -----

    method CreateNSSpec(spec: NSSpec, now: int, auditNow: int) returns (r: Result<Namespace>)
      requires Valid()
      modifies ns, ns.acl, audit, audit.buf
      ensures Valid()
      ensures (State(), r) == CreateNS(old(State()), spec, now, auditNow)
    {
      hide ErrorText, IsNSID, IsOwner;
      if closed {
        return Err(Sentinel0(Closed));
      }
      r := ns.Create(spec.id, spec.owner, spec.maxKeys, spec.maxBytes, now);
      if r.Err? {
        audit.Fail(spec.id, [], KIND_CREATE_NS, spec.actor, ErrorText(r.error), auditNow);
        return;
      }
      audit.OK(r.value.id, [], KIND_CREATE_NS, spec.owner, 0, 0, Lit("owner=") + r.value.owner, auditNow);
    }

    method DeleteNSActor(id: Bytes, actor: Bytes, auditNow: int) returns (err: Option<Error>)
      requires Valid()
      modifies ns, ns.acl, store, watch, audit, audit.buf, quota
      ensures Valid()
      ensures (State(), err) == DeleteNS(old(State()), id, actor, auditNow)
    {
      hide ErrorText, WellKeyed, Keyed, Lists, WithoutNS, OfNS, LastAfterRemoval;
      if closed {
        return Some(Sentinel0(Closed));
      }
      var n := ns.Get(id);
      if n.Err? {
        audit.Fail(id, [], KIND_DELETE_NS, actor, ErrorText(n.error), auditNow);
        return Some(n.error);
      }
      if actor != [] {
        err := ns.acl.Check(id, actor, Admin);
        if err.Some? {
          return;
        }
      }
      var removed := RemoveNS(id);
      audit.OK(id, [], KIND_DELETE_NS, actor, 0, removed, [], auditNow);
      err := None;
    }

    /** The writes of DeleteNSActor: store, registry, counters, watchers. */
    method RemoveNS(id: Bytes) returns (count: nat)
      requires Valid() && id in ns.items
      modifies ns, ns.acl, store, watch, quota
      ensures Valid() && count == |OfNS(old(store.entries), id)|
      ensures ns.items == old(ns.items) - {id} && ns.acl.State() == old(ns.acl.State()).Removed(id)
      ensures store.entries == WithoutNS(old(store.entries), id) && quota.use == old(quota.use) - {id}
      ensures watch.last == LastAfterRemoval(old(watch.last), OfNS(old(store.entries), id))
    {
      hide WellKeyed, Keyed, Collects, WithoutNS, OfNS, LastAfterRemoval;
      ghost var gone := OfNS(store.entries, id);
      OfNSKeyed(store.entries, id);
      var removed := store.DeleteNS(id);
      var deleted := ns.Delete(id);
      // The source records a failure here, but the namespace was just found.
      assert deleted.Ok?;
      quota.DeleteNS(id);
      PublishRemoved(removed, gone);
      CollectsAll(removed, gone);
      count := |removed|;
    }

    /** One deletion event per removed entry. */
    method PublishRemoved(removed: seq<Entry>, ghost gone: Entries)
      requires Valid() && Lists(removed, gone) && WellKeyed(gone)
      modifies watch
      ensures Valid() && watch.last == LastAfterRemoval(old(watch.last), gone)
    {
      hide LastAfterRemoval, NsKey, Restored, Wrap;
      NothingRemoved(watch.last);
      NothingRestored(removed);
      for i := 0 to |removed|
        invariant Valid()
        invariant watch.last == LastAfterRemoval(old(watch.last), Restored(Wrap(removed[..i])))
      {
        var e := removed[i];
        OneMoreRestored(removed, i);
        OneMoreRemoved(old(watch.last), Restored(Wrap(removed[..i])), e);
        watch.Publish(Event(e.ns, e.key, e.head, KIND_DELETE));
      }
      assert removed[..|removed|] == removed;
      RestoreOfListing(gone, removed);
    }

    method Grant(nsID: Bytes, subject: Bytes, role: Bytes, actor: Bytes) returns (err: Option<Error>)
      requires Valid()
      modifies ns.acl
      ensures Valid()
      ensures (State(), err) == HubModel.Grant(old(State()), nsID, subject, role, actor)
    {
      hide IsNSID, IsActor, ParseRole;
      var n := ns.Get(nsID);
      if n.Err? {
        return Some(n.error);
      }
      if actor != [] {
        err := ns.acl.Check(nsID, actor, Admin);
        if err.Some? {
          return;
        }
      }
      var r := ParseRole(role);
      if r.Err? {
        return Some(r.error);
      }
      err := ns.acl.Grant(nsID, subject, r.value);
    }

    // ----- snap.go -----

    /** snapshot.Build; wall is the system clock, read only when the hub's own clock stands at the zero
        time. */
    static method Build(namespaces: seq<Namespace>, entries: seq<Entry>, records: seq<AuditRecord>,
                        grants: map<Bytes, map<Bytes, Bytes>>, usage: map<Bytes, Usage>, now: int, wall: int)
      returns (b: Blob)
      ensures b.header == Header(MAGIC, FORMAT, ExportTime(now, wall), |namespaces|, |entries|, VersionCount(b.entries))
      ensures b.namespaces == namespaces && b.entries == Wrap(entries)
      ensures b.audit == (if records == [] then None else Some(records))
      ensures b.grants == Some(grants) && b.usage == Some(usage)
    {
      var createdAt := now;
      if createdAt == ZERO_TIME {
        createdAt := wall;
      }
      var wrapped: seq<Option<Entry>> := [];
      for i := 0 to |entries|
        invariant wrapped == Wrap(entries[..i])
      {
        wrapped := wrapped + [Some(entries[i])];
      }
      assert entries[..|entries|] == entries;
      b := Tally(Blob(Header(MAGIC, FORMAT, createdAt, 0, 0, 0), namespaces, wrapped,
                      if records == [] then None else Some(records), Some(grants), Some(usage)));
    }

    method ExportSnapshot(now: int, wall: int) returns (r: Result<Blob>)
      requires Valid()
      ensures closed ==> r == Err(Sentinel0(Closed))
      ensures !closed ==> r.Ok? && IsExport(State(), ExportTime(now, wall), r.value)
    {
      hide Collects, CollectsNamespaces, Exported, VersionCount, WellKeyed, Keyed, ExportTime, Watch.WatchHub.Valid;
      if closed {
        return Err(Sentinel0(Closed));
      }
      var namespaces := ns.List();
      var entries := store.AllEntries();
      var records := audit.All();
      var grants := ns.acl.Export();
      var usage := quota.Export();
      var b := Build(namespaces, entries, records, grants, usage, now, wall);
      assert Lists(entries, store.entries) && b.entries == Wrap(entries);
      r := Ok(b);
    }

    method ImportSnapshot(blob: Option<Blob>, auditNow: int) returns (err: Option<Error>)
      requires Valid()
      modifies ns, ns.acl, store, audit, audit.buf, quota
      ensures Valid()
      ensures (State(), err) == Import(old(State()), blob, auditNow)
    {
      hide WellKeyed, Registered, WithOwners, Imported, FirstChainError, Restored, Recounted, Watch.WatchHub.Valid;
      if closed {
        return Some(Sentinel0(Closed));
      }
      if blob.None? {
        return None;
      }
      var b := blob.value;
      ns.ReplaceAll(b.namespaces);
      if b.grants.Some? {
        ns.acl.Import(b.grants.value);
      }
      err := store.ReplaceAll(b.entries);
      if err.Some? {
        return;
      }
      if b.usage.Some? {
        quota.ReplaceAll(b.usage.value);
      } else {
        RecalcQuota();
      }
      if b.audit.Some? {
        audit.ReplaceAll(b.audit.value);
      }
      audit.OK([], [], KIND_IMPORT, [], 0, |b.entries|, [], auditNow);
    }

    /** recalcQuotaLocked; its three loops are the methods below. */
    method RecalcQuota()
      requires Valid()
      modifies quota
      ensures quota.use == Recounted(old(quota.use), ns.items, store.entries)
    {
      hide Recounted, CollectsNamespaces, Collects, WellKeyed, Keyed, AllAssigned, UsageIn, IDsOf;
      var namespaces := ns.List();
      DropCounters(namespaces);
      var entries := store.AllEntries();
      var acc := AddUp(entries);
      SetCounters(acc);
      RecountIs(old(quota.use), ns.items, namespaces, store.entries, entries);
    }

    method DropCounters(namespaces: seq<Namespace>)
      modifies quota
      ensures quota.use == old(quota.use) - IDsOf(namespaces)
    {
      for i := 0 to |namespaces|
        invariant quota.use == old(quota.use) - IDsOf(namespaces[..i])
      {
        quota.DeleteNS(namespaces[i].id);
        assert namespaces[..i + 1] == namespaces[..i] + [namespaces[i]];
      }
      assert namespaces[..|namespaces|] == namespaces;
    }

    static method AddUp(entries: seq<Entry>) returns (acc: map<Bytes, Usage>)
      ensures acc == UsageIn(entries)
    {
      hide PayloadBytes;
      acc := map[];
      for i := 0 to |entries|
        invariant acc == UsageIn(entries[..i])
      {
        var e := entries[i];
        var u := if e.ns in acc then acc[e.ns] else Usage(0, 0);
        var bytes := BytesOf(e);
        assert entries[..i + 1][..i] == entries[..i];
        acc := acc[e.ns := Usage(u.keys + 1, u.bytes + bytes)];
      }
      assert entries[..|entries|] == entries;
    }

    method SetCounters(acc: map<Bytes, Usage>)
      modifies quota
      ensures quota.use == AllAssigned(old(quota.use), acc)
    {
      hide AllAssigned, Assigned;
      ghost var done: map<Bytes, Usage> := map[];
      var left := acc.Keys;
      NoneAssigned(quota.use);
      while left != {}
        invariant left <= acc.Keys && done == acc - left && quota.use == AllAssigned(old(quota.use), done)
      {
        var id :| id in left;
        OneMoreAssigned(old(quota.use), done, id, acc[id]);
        quota.Recalc(id, acc[id].keys, acc[id].bytes);
        assert done[id := acc[id]] == acc - (left - {id});
        left := left - {id};
        done := done[id := acc[id]];
      }
      assert done == acc;
    }

    method ExportBytes(now: int, wall: int, crc: Crc) returns (r: Result<Bytes>)
      requires Valid()
      ensures closed ==> r == Err(Sentinel0(Closed))
      ensures !closed ==> r.Ok? && exists b :: IsExport(State(), ExportTime(now, wall), b) && Encodes(r.value, b, crc)
    {
      var b := ExportSnapshot(now, wall);
      if b.Err? {
        return Err(b.error);
      }
      ExportHasNoNil(State(), ExportTime(now, wall), b.value);
      r := SnapshotWriter.Encode(Some(b.value), crc);
    }

    method ImportBytes(raw: Bytes, crc: Crc, json: Json, auditNow: int) returns (err: Option<Error>)
      requires Valid()
      modifies ns, ns.acl, store, audit, audit.buf, quota
      ensures Valid()
      ensures (State(), err) == ImportRaw(old(State()), raw, crc, json, auditNow)
    {
      var b := SnapshotReader.Decode(raw, crc, json);
      if b.Err? {
        return Some(b.error);
      }
      err := ImportSnapshot(Some(b.value), auditNow);
    }
  }
}
