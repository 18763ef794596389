/** snap.go: exporting the hub and importing a snapshot. */
module HubSnapshot {
  import opened Base
  import opened Meta
  import opened StoreEntry
  import opened StoreMemory
  import opened Quota
  import opened Access
  import opened HubModel
  import opened HubInvariants
  import opened HubRuns
  import opened SnapshotCodec
  import opened Wire
  import Audit

  // ----- Export -----

  /** The system clock stands in for a hub clock at the zero time. */
  function ExportTime(now: int, wall: int): int {
    if now == ZERO_TIME then wall else now
  }

  /** b is what exporting s at that time yields. */
  ghost predicate IsExport(s: HubState, now: int, b: Blob) {
    && ListsNamespaces(b.namespaces, s.items)
    && (exists es :: Lists(es, s.entries) && b.entries == Wrap(es))
    && b.audit == (if s.log.records == [] then None else Some(s.log.records))
    && b.grants == Some(Exported(s.acl.grants))
    && b.usage == Some(s.use)
    && b.header == Header(MAGIC, FORMAT, now, |b.namespaces|, |b.entries|, VersionCount(b.entries))
  }

  // ----- Import -----

  /** The counters after a recount: those of the namespaces in the registry are dropped, those of
      namespaces with entries are set, all others stay as they were. */
  ghost function Recounted(use: map<Bytes, Usage>, items: map<Bytes, Namespace>, m: Entries): map<Bytes, Usage> {
    map ns | ns in (use.Keys - items.Keys) + SpacesOf(m) ::
      if ns in SpacesOf(m) then Usage(KeyCount(m, ns), ByteCount(m, ns)) else use[ns]
  }

  /** The registry and the grants are replaced before the entries are looked at. */
  ghost function WithRegistry(s: HubState, b: Blob): HubState {
    s.(items := Registered(b.namespaces),
       acl := Acl(if b.grants.Some? then Imported(b.grants.value) else s.acl.grants,
                  WithOwners(s.acl.owners, b.namespaces)))
  }

  ghost function Import(s: HubState, blob: Option<Blob>, now: int): (HubState, Option<Error>) {
    if s.closed then (s, Some(Sentinel0(Closed)))
    else if blob.None? then (s, None)
    else
      var b := blob.value;
      var t := WithRegistry(s, b);
      if FirstChainError(b.entries).Some? then (t, FirstChainError(b.entries))
      else
        var m := Restored(b.entries);
        var log := if b.audit.Some? then s.log.Replaced(b.audit.value) else s.log;
        (t.(entries := m,
            use := if b.usage.Some? then b.usage.value else Recounted(s.use, t.items, m),
            log := log.Succeeded([], [], KIND_IMPORT, [], 0, |b.entries|, [], now)), None)
  }

  /** ImportBytes; a panic while decoding leaves the hub alone. */
  ghost function ImportRaw(s: HubState, raw: Bytes, crc: Crc, json: Json, now: int): (HubState, Option<Error>) {
    match DecodeSpec(raw, crc, json)
    case Err(err) => (s, Some(err))
    case Ok(b) => Import(s, Some(b), now)
  }

  /** A snapshot whose last four bytes are not the checksum of its body is refused and changes nothing. */
  lemma {:induction false} DamagedSnapshotIsRefused(s: HubState, raw: Bytes, crc: Crc, json: Json, now: int)
    requires |raw| >= 8 && raw[..4] == [67, 72, 66, 49] && raw[|raw| - 4..] != BigEndian(crc(raw[4..|raw| - 4]))
    ensures ImportRaw(s, raw, crc, json, now) == (s, Some(Error(Checksum, [])))
  {
    hide DecodeSpec, Import;
    assert MAGIC == [67, 72, 66, 49];
    DamagedIsRefused(raw, crc, json);
  }

  /** Whatever changes the hub or is answered without an error is framed by the magic and the checksum of its
      body, or does not begin with the magic and is JSON. */
  lemma {:induction false} OnlyFramedIsImported(s: HubState, raw: Bytes, crc: Crc, json: Json, now: int)
    requires ImportRaw(s, raw, crc, json, now).0 != s || ImportRaw(s, raw, crc, json, now).1.None?
    ensures |raw| >= 8
    ensures if raw[..4] == [67, 72, 66, 49] then raw[|raw| - 4..] == BigEndian(crc(raw[4..|raw| - 4]))
            else json(raw).Some?
  {
    hide DecodeSpec, Import, Frame;
    assert MAGIC == [67, 72, 66, 49];
    DecodedIsFramed(raw, crc, json);
    FrameSplits(MAGIC, raw[4..|raw| - 4], BigEndian(crc(raw[4..|raw| - 4])));
    FrameIs(raw[4..|raw| - 4], crc);
  }

  lemma {:induction false} FrameIs(body: Bytes, crc: Crc)
    ensures Frame(body, crc) == MAGIC + body + BigEndian(crc(body))
  {}

  /** An exported snapshot, its body altered so that the checksum differs, leaves any hub as it was. */
  lemma {:induction false} AlteredExportIsRefused(
      s: HubState, t: HubState, exportNow: int, b: Blob, raw: Bytes, crc: Crc, json: Json, raw': Bytes,
      now: int)
    requires IsExport(s, exportNow, b) && Encodes(raw, b, crc)
    requires |raw'| == |raw| && raw'[..4] == raw[..4] && raw'[|raw| - 4..] == raw[|raw| - 4..]
    requires crc(raw'[4..|raw| - 4]) != crc(raw[4..|raw| - 4])
    ensures ImportRaw(t, raw', crc, json, now) == (t, Some(Error(Checksum, [])))
  {
    hide DecodeSpec, Import, Encodes;
    ChangedIsRefused(raw, b, crc, json, raw');
  }

  // ----- Export followed by import -----

  function ImportRecord(entries: nat, seqNo: int, now: int): AuditRecord {
    AuditRecord(seqNo, now, [], [], 0, KIND_IMPORT, [], [], entries, true, [])
  }

  /** Everything the two hubs can be asked about is the same, except for the audit trail and the
      index of last events. */
  ghost predicate SameContents(s: HubState, t: HubState) {
    t.items == s.items && t.acl == s.acl && t.entries == s.entries && t.use == s.use
  }

  lemma {:induction false} RegistryComesBack(s: HubState, b: Blob, auditCap: int)
    requires RegistryInv(s) && ListsNamespaces(b.namespaces, s.items) && b.grants == Some(Exported(s.acl.grants))
    ensures WithRegistry(New(auditCap), b).items == s.items && WithRegistry(New(auditCap), b).acl == s.acl
  {
    hide Registered, WithOwners, Imported, Exported;
    RegisterListing(s.items, b.namespaces);
    assert Imported(Exported(s.acl.grants)) == s.acl.grants by {
      ImportInvertsExport(s.acl.grants);
    }
    assert s.acl.owners == map id | id in s.items :: s.items[id].owner;
  }

  lemma {:induction false} EntriesComeBack(s: HubState, b: Blob, es: seq<Entry>)
    requires StoreInv(s) && AllValid(s) && Lists(es, s.entries) && b.entries == Wrap(es)
    ensures FirstChainError(b.entries).None? && Restored(b.entries) == s.entries
  {
    RestoreOfListing(s.entries, es);
    ListingHasNoError(s.entries, es);
  }

  /** The trail comes back as far as the new log has room for it, the import itself is recorded
      last, and the numbering goes on where it was. */
  lemma {:induction false} TrailComesBack(s: HubState, log: Audit.LogState, now: int, entries: nat)
    requires LogInv(s) && log.Valid() && log.records == [] && log.seqNo == 0
    ensures var replayed := if s.log.records == [] then log else log.Replaced(s.log.records);
            var t := replayed.Succeeded([], [], KIND_IMPORT, [], 0, entries, [], now);
            && t.records == Audit.LastN(s.log.records + [ImportRecord(entries, s.log.seqNo + 1, now)], log.cap)
            && t.seqNo == s.log.seqNo + 1
  {
    assert Audit.MaxSeq(s.log.records) == s.log.seqNo by {
      Audit.ReplayKeepsCounter(s.log);
    }
    hide LogInv, Audit.MaxSeq;
    var record := ImportRecord(entries, s.log.seqNo + 1, now);
    Audit.LastNOfLastN(s.log.records, record, log.cap);
    assert [] + [record] == [record];
  }

  /** Exporting a safe hub and importing the blob into a new hub gives the same hub back. */
  lemma {:induction false} ImportInvertsExported(s: HubState, exportNow: int, b: Blob, auditCap: int, now: int)
    requires Inv(s) && AllValid(s) && IsExport(s, exportNow, b)
    ensures var (t, err) := Import(New(auditCap), Some(b), now);
            && err.None? && SameContents(s, t) && !t.closed && t.last == map[]
            && t.log.records == Audit.LastN(s.log.records + [ImportRecord(|b.entries|, s.log.seqNo + 1, now)], t.log.cap)
            && t.log.seqNo == s.log.seqNo + 1
  {
    hide RegistryInv, StoreInv, QuotaInv, LimitInv, LogInv, AllValid, Lists, ListsNamespaces, WithRegistry;
    var es :| Lists(es, s.entries) && b.entries == Wrap(es);
    RegistryComesBack(s, b, auditCap);
    EntriesComeBack(s, b, es);
    TrailComesBack(s, New(auditCap).log, now, |b.entries|);
    OnlyRegistryReplaced(New(auditCap), b);
  }

  lemma {:induction false} OnlyRegistryReplaced(s: HubState, b: Blob)
    ensures var t := WithRegistry(s, b); t == s.(items := t.items, acl := t.acl)
  {}

  /** What the two hubs answer. */
  lemma {:induction false} SameAnswers(
      cfg: Config, s: HubState, t: HubState, ns: Bytes, key: Bytes, client: ClientContext, rev: int, subject: Bytes)
    requires SameContents(s, t) && !s.closed && !t.closed
    ensures Get(cfg, t, ns, key, client) == Get(cfg, s, ns, key, client)
    ensures GetRev(t, ns, key, rev) == GetRev(s, ns, key, rev)
    ensures t.acl.RoleOf(ns, subject) == s.acl.RoleOf(ns, subject)
    ensures UsageOf(t.use, ns) == UsageOf(s.use, ns)
  {}

  /** Going through the bytes changes nothing about an export. */
  lemma {:induction false} BytesCarryTheBlob(
      s: HubState, exportNow: int, b: Blob, raw: Bytes, crc: Crc, json: Json, t: HubState, now: int)
    requires IsExport(s, exportNow, b) && Encodes(raw, b, crc) && Fits(b) && IsLength(|raw|)
    ensures ImportRaw(t, raw, crc, json, now) == Import(t, Some(b), now)
  {
    hide DecodeSpec, Encodes, Fits, Import;
    DecodeInvertsEncode(raw, b, crc, json);
    ExportIsSettled(s, exportNow, b);
  }

  /** For every run, every iteration order of the maps in the snapshot, and every audit capacity of
      the new hub: the exported bytes import without error, and the new hub answers every question
      as the old one does. */
  lemma {:induction false} ExportImportIsIdentity(
      cfg: Config, auditCap: int, ops: seq<Op>, exportNow: int, b: Blob, raw: Bytes, crc: Crc, json: Json,
      newCap: int, now: int, ns: Bytes, key: Bytes, client: ClientContext, rev: int, subject: Bytes)
    requires IsExport(Run(cfg, New(auditCap), ops), exportNow, b) && Encodes(raw, b, crc) && Fits(b) && IsLength(|raw|)
    ensures var s := Run(cfg, New(auditCap), ops);
            var (t, err) := ImportRaw(New(newCap), raw, crc, json, now);
            && err.None? && SameContents(s, t) && !t.closed
            && t.log.records == Audit.LastN(s.log.records + [ImportRecord(|s.entries|, s.log.seqNo + 1, now)], t.log.cap)
            && t.log.seqNo == s.log.seqNo + 1
            && t.acl.RoleOf(ns, subject) == s.acl.RoleOf(ns, subject)
            && UsageOf(t.use, ns) == UsageOf(s.use, ns)
            && (!s.closed ==>
              && Get(cfg, t, ns, key, client) == Get(cfg, s, ns, key, client)
              && GetRev(t, ns, key, rev) == GetRev(s, ns, key, rev))
  {
    hide Inv, WatchInv, AllValid, Get, GetRev, ImportRaw, Import, New, IsExport, Fits, Encodes, UsageOf;
    var s := Run(cfg, New(auditCap), ops);
    RunsAreSafe(cfg, auditCap, ops);
    ChronicledIsValid(s, Chronicles(cfg, New(auditCap), map[], ops));
    BytesCarryTheBlob(s, exportNow, b, raw, crc, json, New(newCap), now);
    ImportInvertsExported(s, exportNow, b, newCap, now);
    ExportListsAll(s, exportNow, b);
    if !s.closed {
      SameAnswers(cfg, s, Import(New(newCap), Some(b), now).0, ns, key, client, rev, subject);
    }
  }

  lemma {:induction false} ExportIsSettled(s: HubState, now: int, b: Blob)
    requires IsExport(s, now, b)
    ensures Settled(Tallied(b)) == b
  {}

  lemma {:induction false} ExportListsAll(s: HubState, now: int, b: Blob)
    requires IsExport(s, now, b)
    ensures |b.entries| == |s.entries|
  {}

  /** The imported hub is safe again, and stays so over every further run; only the index of last
      events starts empty, so it agrees with the store exactly when nothing was stored. */
  lemma {:induction false} ImportedHubIsSafe(
      cfg: Config, s: HubState, c: map<Bytes, Chronicle>, exportNow: int, b: Blob, auditCap: int, now: int, more: seq<Op>)
    requires Inv(s) && Chronicled(s, c) && IsExport(s, exportNow, b)
    ensures var t := Import(New(auditCap), Some(b), now).0;
            && Inv(t) && Chronicled(t, c)
            && Inv(Run(cfg, t, more)) && Chronicled(Run(cfg, t, more), Chronicles(cfg, t, c, more))
            && (WatchInv(t) <==> s.entries == map[])
  {
    var t := Import(New(auditCap), Some(b), now).0;
    assert Inv(t) && Chronicled(t, c) by {
      hide AllValid, Tracks, IsExport, Import, New;
      ChronicledIsValid(s, c);
      ImportInvertsExported(s, exportNow, b, auditCap, now);
      ImportedLog(s, exportNow, b, auditCap, now);
      SameContentsSafe(s, c, t);
    }
    hide Inv, WatchInv, Import, IsExport;
    RunKeeps(cfg, t, c, more);
    ChronicledIsValid(s, c);
    ImportInvertsExported(s, exportNow, b, auditCap, now);
    EmptyIndex(t);
  }

  lemma {:induction false} EmptyIndex(s: HubState)
    requires s.last == map[]
    ensures WatchInv(s) <==> s.entries == map[]
  {
    if s.entries != map[] {
      var id :| id in s.entries;
      assert id !in s.last;
    }
  }

  lemma {:induction false} ImportedLog(s: HubState, exportNow: int, b: Blob, auditCap: int, now: int)
    requires Inv(s) && AllValid(s) && IsExport(s, exportNow, b)
    ensures LogInv(Import(New(auditCap), Some(b), now).0)
  {
    hide RegistryInv, StoreInv, QuotaInv, LimitInv, AllValid, WithRegistry, Lists, ListsNamespaces;
    var es :| Lists(es, s.entries) && b.entries == Wrap(es);
    EntriesComeBack(s, b, es);
    OnlyRegistryReplaced(New(auditCap), b);
    var log := New(auditCap).log;
    var replayed := if s.log.records == [] then log else log.Replaced(s.log.records);
    assert Audit.Numbered(log);
    if s.log.records != [] {
      Audit.NumbersGrow(log, Audit.Replace(s.log.records));
      Audit.MaxSeqIsSome(s.log.records);
    }
    LogStep(replayed, AuditRecordOf([], [], KIND_IMPORT, [], 0, |b.entries|, []), now);
  }

  lemma {:induction false} SameContentsSafe(s: HubState, c: map<Bytes, Chronicle>, t: HubState)
    requires Inv(s) && Chronicled(s, c) && SameContents(s, t) && LogInv(t)
    ensures Inv(t) && Chronicled(t, c)
  {
    hide Tracks, KeyCount, ByteCount, NsKey;
  }

  lemma {:induction false} ExportHasNoNil(s: HubState, now: int, b: Blob)
    requires IsExport(s, now, b)
    ensures NoNilEntry(b)
  {}

  // ----- The recount, step by step -----

  ghost function IDsOf(ns: seq<Namespace>): set<Bytes> {
    set n | n in ns :: n.id
  }

  /** Every counter of done assigned over use. */
  ghost function AllAssigned(use: map<Bytes, Usage>, done: map<Bytes, Usage>): map<Bytes, Usage> {
    map ns | ns in use.Keys + done.Keys && (ns in done ==> done[ns] != Usage(0, 0)) ::
      if ns in done then done[ns] else use[ns]
  }

  lemma {:induction false} NoneAssigned(use: map<Bytes, Usage>)
    ensures AllAssigned(use, map[]) == use
  {}

  lemma {:induction false} OneMoreAssigned(use: map<Bytes, Usage>, done: map<Bytes, Usage>, ns: Bytes, u: Usage)
    requires ns !in done
    ensures AllAssigned(use, done[ns := u]) == Assigned(AllAssigned(use, done), ns, u)
  {}

  /** Dropping the registered namespaces and assigning what the listing adds up to is the
      recount. */
  lemma {:induction false} RecountIs(
      use: map<Bytes, Usage>, items: map<Bytes, Namespace>, ns: seq<Namespace>, m: Entries, es: seq<Entry>)
    requires Keyed(items) && CollectsNamespaces(ns, items) && WellKeyed(m) && Collects(es, m)
    ensures AllAssigned(use - IDsOf(ns), UsageIn(es)) == Recounted(use, items, m)
  {
    hide Collects, WellKeyed, Keyed, CollectsNamespaces, IDsOf, SpacesOf, KeyCount, ByteCount, UsageIn;
    IDsOfCollected(ns, items);
    UsageOfListing(m, es);
    forall n | n in SpacesOf(m)
      ensures KeyCount(m, n) > 0
    {
      SomethingInSpace(m, n);
    }
  }

  lemma {:induction false} IDsOfCollected(ns: seq<Namespace>, items: map<Bytes, Namespace>)
    requires Keyed(items) && CollectsNamespaces(ns, items)
    ensures IDsOf(ns) == items.Keys
  {
    assert forall id :: id in items ==> items[id] in ns;
  }

  lemma {:induction false} SomethingInSpace(m: Entries, ns: Bytes)
    requires ns in SpacesOf(m)
    ensures KeyCount(m, ns) > 0
  {
    var id :| id in m && m[id].ns == ns;
    assert id in IdsOf(m, ns);
  }

  // ----- Publishing removals, step by step -----

  lemma {:induction false} NothingRemoved(last: map<Bytes, Event>)
    ensures LastAfterRemoval(last, map[]) == last
  {}

  lemma {:induction false} NothingRestored(es: seq<Entry>)
    ensures Restored(Wrap(es[..0])) == map[]
  {}

  lemma {:induction false} OneMoreRestored(es: seq<Entry>, i: nat)
    requires i < |es|
    ensures Restored(Wrap(es[..i + 1])) == Restored(Wrap(es[..i]))[NsKey(es[i].ns, es[i].key) := es[i]]
  {
    hide NsKey;
    assert Wrap(es[..i + 1])[..i] == Wrap(es[..i]);
  }

  lemma {:induction false} OneMoreRemoved(last: map<Bytes, Event>, gone: Entries, e: Entry)
    ensures LastAfterRemoval(last, gone[NsKey(e.ns, e.key) := e]) ==
            Published(LastAfterRemoval(last, gone), e.ns, e.key, KIND_DELETE, e.head)
  {
    LastKeyIsNsKey(e.ns, e.key);
  }

  lemma {:induction false} OfNSKeyed(m: Entries, ns: Bytes)
    requires WellKeyed(m)
    ensures WellKeyed(OfNS(m, ns))
  {}
}
