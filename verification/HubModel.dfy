/** put.go, get.go, hub.go as a state machine: every hub method runs under one mutex, so each is
    one step on the hub's state. */
module HubModel {
  import opened Base
  import opened Meta
  import opened Validate
  import opened StoreEntry
  import opened StoreMemory
  import opened Quota
  import opened Access
  import Audit
  import Gray
  import Signing
  import Watch

  /** What does not change while the hub runs. */
  datatype Config = Config(requireSign: bool, keys: Signing.Keys, crypto: Signing.Crypto, bucket: Gray.Bucket)

  datatype HubState = HubState(
    closed: bool,
    items: map<Bytes, Namespace>,
    acl: Acl,
    entries: Entries,
    use: map<Bytes, Usage>,
    log: Audit.LogState,
    last: map<Bytes, Event>)
  {
    function Failed(ns: Bytes, key: Bytes, kind: Bytes, actor: Bytes, err: Error, now: int): HubState {
      this.(log := log.Failed(ns, key, kind, actor, ErrorText(err), now))
    }
  }

  function New(auditCap: int): HubState {
    HubState(false, map[], Acl(map[], map[]), map[], map[],
             Audit.LogState(if auditCap <= 0 then Audit.DEFAULT_CAP else auditCap, 0, []), map[])
  }

  datatype PutOptions = PutOptions(
    author: Bytes, actor: Bytes, algo: Bytes, signature: Bytes, keyID: Bytes, gray: Option<GrayRule>, bindRev: int)

  datatype Value = Value(
    ns: Bytes, key: Bytes, rev: int, payload: Bytes, author: Bytes, ts: int, gray: Option<GrayRule>,
    algo: Bytes, head: int, stable: int, hit: bool)

  function ValueFrom(e: Entry, v: VersionMeta, hit: bool): Value {
    Value(e.ns, e.key, v.rev, v.payload, v.author, v.ts, v.gray, v.algo, e.head, e.stable, hit)
  }

  // ----- Put -----

  function SignRev(opts: PutOptions): int {
    if opts.bindRev > 0 then opts.bindRev else 0
  }

  /** Why the signature is refused, if it is. */
  function SignError(cfg: Config, ns: Bytes, key: Bytes, payload: Bytes, opts: PutOptions): Option<Error> {
    if !cfg.requireSign && opts.algo == [] && opts.signature == [] then None
    else if opts.signature == [] then Some(Sentinel0(SignRequired))
    else
      var algo := Signing.NormalizeAlgo(opts.algo);
      cfg.keys.Verify(cfg.crypto, ns, key, opts.keyID, if algo == [] then Signing.ALGO_HMAC else algo,
                      SignRev(opts), payload, opts.signature)
  }

  datatype Verdict = Admit(v: VersionMeta, newKey: bool) | Refuse(err: Error, audited: bool)

  /** Everything Put checks before it writes, in order; order is how the tags of the gray rule are
      iterated. */
  function Admission(
      cfg: Config, s: HubState, ns: Bytes, key: Bytes, payload: Bytes, opts: PutOptions, order: seq<Bytes>,
      now: int): Verdict
    requires Gray.Visits(order, opts.gray)
  {
    if s.closed then Refuse(Sentinel0(Closed), false)
    else if !IsKey(key) then Refuse(Error(InvalidKey, key), false)
    else if payload == [] then Refuse(Sentinel0(PayloadEmpty), false)
    else if ns !in s.items then Refuse(Error(NotFound, ns), false)
    else if opts.actor != [] && s.acl.CheckError(ns, opts.actor, Writer).Some? then
      Refuse(s.acl.CheckError(ns, opts.actor, Writer).value, true)
    else
      var gray := Gray.NormalForm(opts.gray, order);
      var next := NextRevOf(s.entries, ns, key);
      var newKey := NsKey(ns, key) !in s.entries;
      if gray.Err? then Refuse(gray.error, true)
      else if opts.bindRev > 0 && opts.bindRev != next then Refuse(Error(Conflict, Lit("bind_rev")), true)
      else if SignError(cfg, ns, key, payload, opts).Some? then Refuse(SignError(cfg, ns, key, payload, opts).value, true)
      else if Quota.CheckError(s.use, s.items[ns], newKey, |payload|).Some? then
        Refuse(Quota.CheckError(s.use, s.items[ns], newKey, |payload|).value, true)
      else Admit(
        VersionMeta(next, payload, opts.signature, Signing.NormalizeAlgo(opts.algo),
                    if opts.author == [] then opts.actor else opts.author, now, gray.value),
        newKey)
  }

  function Published(last: map<Bytes, Event>, ns: Bytes, key: Bytes, kind: Bytes, rev: int): map<Bytes, Event> {
    last[Watch.LastKey(ns, key) := Event(ns, key, rev, kind)]
  }

  /** now stamps the version, auditNow the audit record. */
  function Put(
      cfg: Config, s: HubState, ns: Bytes, key: Bytes, payload: Bytes, opts: PutOptions, order: seq<Bytes>,
      now: int, auditNow: int): (HubState, Result<int>)
    requires Gray.Visits(order, opts.gray)
  {
    match Admission(cfg, s, ns, key, payload, opts, order, now)
    case Refuse(err, audited) =>
      (if audited then s.Failed(ns, key, KIND_PUBLISH, opts.actor, err, auditNow) else s, Err(err))
    case Admit(v, newKey) =>
      match PutVersionSpec(s.entries, ns, key, v)
      case Err(err) => (s.Failed(ns, key, KIND_PUBLISH, opts.actor, err, auditNow), Err(err))
      case Ok(e) => (Committed(s, ns, key, e, v, newKey, auditNow), Ok(e.head))
  }

  function Committed(
      s: HubState, ns: Bytes, key: Bytes, e: Entry, v: VersionMeta, newKey: bool, auditNow: int): HubState
  {
    s.(entries := s.entries[NsKey(ns, key) := e],
       use := Applied(s.use, ns, if newKey then 1 else 0, |v.payload|),
       log := s.log.Succeeded(ns, key, KIND_PUBLISH, v.author, e.head, |v.payload|, [], auditNow),
       last := Published(s.last, ns, key, KIND_PUBLISH, e.head))
  }

  // ----- Get, GetRev -----

  function Get(cfg: Config, s: HubState, ns: Bytes, key: Bytes, client: ClientContext): Result<Value> {
    if s.closed then Err(Sentinel0(Closed))
    else if ns !in s.items then Err(Error(NotFound, ns))
    else if NsKey(ns, key) !in s.entries then Err(Error(NotFound, Ref(ns, key)))
    else
      var e := s.entries[NsKey(ns, key)];
      var choice := Gray.Select(cfg.bucket, e, client);
      if !choice.ok then Err(Error(NoStable, Ref(ns, key)))
      else if e.ByRev(choice.rev).None? then Err(Error(NotFound, Ref(ns, key)))
      else Ok(ValueFrom(e, e.ByRev(choice.rev).value, choice.hit))
  }

  function GetRev(s: HubState, ns: Bytes, key: Bytes, rev: int): Result<Value> {
    if s.closed then Err(Sentinel0(Closed))
    else if NsKey(ns, key) !in s.entries then Err(Error(NotFound, Ref(ns, key)))
    else
      var e := s.entries[NsKey(ns, key)];
      if e.ByRev(rev).None? then Err(Error(BadRevision, Ref(ns, key)))
      else Ok(ValueFrom(e, e.ByRev(rev).value, rev == e.head))
  }

  // ----- Rollback, DeleteKey -----

  function Rollback(s: HubState, ns: Bytes, key: Bytes, rev: int, actor: Bytes, now: int): (HubState, Option<Error>) {
    if s.closed then (s, Some(Sentinel0(Closed)))
    else if ns !in s.items then (s, Some(Error(NotFound, ns)))
    else if actor != [] && s.acl.CheckError(ns, actor, Writer).Some? then
      var err := s.acl.CheckError(ns, actor, Writer).value;
      (s.Failed(ns, key, KIND_ROLLBACK, actor, err, now), Some(err))
    else match RollbackSpec(s.entries, ns, key, rev)
      case Err(err) => (s.Failed(ns, key, KIND_ROLLBACK, actor, err, now), Some(err))
      case Ok(e) =>
        (s.(entries := s.entries[NsKey(ns, key) := e],
            log := s.log.Succeeded(ns, key, KIND_ROLLBACK, actor, e.head, 0, [], now),
            last := Published(s.last, ns, key, KIND_ROLLBACK, e.head)), None)
  }

  /** The namespace is not looked up here, and a refused actor is not recorded. */
  function DeleteKey(s: HubState, ns: Bytes, key: Bytes, actor: Bytes, now: int): (HubState, Option<Error>) {
    var id := NsKey(ns, key);
    if s.closed then (s, Some(Sentinel0(Closed)))
    else if actor != [] && s.acl.CheckError(ns, actor, Writer).Some? then
      (s, s.acl.CheckError(ns, actor, Writer))
    else if id !in s.entries then
      var err := Error(NotFound, Ref(ns, key));
      (s.Failed(ns, key, KIND_DELETE, actor, err, now), Some(err))
    else
      var e := s.entries[id];
      var bytes: int := PayloadBytes(e.versions);
      (s.(entries := s.entries - {id},
          use := Applied(s.use, ns, -1, -bytes),
          log := s.log.Succeeded(ns, key, KIND_DELETE, actor, e.head, bytes, [], now),
          last := Published(s.last, ns, key, KIND_DELETE, e.head)), None)
  }

  // ----- Namespaces, grants, closing -----

  datatype NSSpec = NSSpec(id: Bytes, owner: Bytes, maxKeys: int, maxBytes: int, actor: Bytes)

  function CreateNS(s: HubState, spec: NSSpec, now: int, auditNow: int): (HubState, Result<Namespace>) {
    if s.closed then (s, Err(Sentinel0(Closed)))
    else match CreateSpec(s.items, spec.id, spec.owner, spec.maxKeys, spec.maxBytes, now)
      case Err(err) => (s.Failed(spec.id, [], KIND_CREATE_NS, spec.actor, err, auditNow), Err(err))
      case Ok(n) =>
        (s.(items := s.items[n.id := n],
            acl := s.acl.(owners := s.acl.owners[n.id := n.owner]),
            log := s.log.Succeeded(n.id, [], KIND_CREATE_NS, spec.owner, 0, 0, Lit("owner=") + n.owner, auditNow)), Ok(n))
  }

  /** The last events after the removed entries have been published as deleted. */
  function LastAfterRemoval(last: map<Bytes, Event>, removed: Entries): map<Bytes, Event> {
    last + map id | id in removed :: Event(removed[id].ns, removed[id].key, removed[id].head, KIND_DELETE)
  }

  function DeleteNS(s: HubState, id: Bytes, actor: Bytes, now: int): (HubState, Option<Error>) {
    if s.closed then (s, Some(Sentinel0(Closed)))
    else if id !in s.items then
      (s.Failed(id, [], KIND_DELETE_NS, actor, Error(NotFound, id), now), Some(Error(NotFound, id)))
    else if actor != [] && s.acl.CheckError(id, actor, Admin).Some? then (s, s.acl.CheckError(id, actor, Admin))
    else
      var removed := OfNS(s.entries, id);
      (s.(items := s.items - {id},
          acl := s.acl.Removed(id),
          entries := WithoutNS(s.entries, id),
          use := s.use - {id},
          log := s.log.Succeeded(id, [], KIND_DELETE_NS, actor, 0, |removed|, [], now),
          last := LastAfterRemoval(s.last, removed)), None)
  }

  /** Grant does not ask whether the hub is closed. */
  function Grant(s: HubState, ns: Bytes, subject: Bytes, role: Bytes, actor: Bytes): (HubState, Option<Error>) {
    if ns !in s.items then (s, Some(Error(NotFound, ns)))
    else if actor != [] && s.acl.CheckError(ns, actor, Admin).Some? then (s, s.acl.CheckError(ns, actor, Admin))
    else match ParseRole(role)
      case Err(err) => (s, Some(err))
      case Ok(r) => (s.(acl := s.acl.Granted(ns, subject, r)), s.acl.GrantError(ns, subject))
  }

  // ----- Runs -----

  /** The state-changing calls. Clock readings and the iteration order of a rule's tags are part of
      the call. */
  datatype Call =
    | OpCreateNS(spec: NSSpec, now: int, auditNow: int)
    | OpDeleteNS(id: Bytes, actor: Bytes, auditNow: int)
    | OpPut(ns: Bytes, key: Bytes, payload: Bytes, opts: PutOptions, order: seq<Bytes>, now: int, auditNow: int)
    | OpRollback(ns: Bytes, key: Bytes, rev: int, actor: Bytes, auditNow: int)
    | OpDeleteKey(ns: Bytes, key: Bytes, actor: Bytes, auditNow: int)
    | OpGrant(ns: Bytes, subject: Bytes, role: Bytes, actor: Bytes)
    | OpClose

  type Op = c: Call | c.OpPut? ==> Gray.Visits(c.order, c.opts.gray) witness OpClose

  function Step(cfg: Config, s: HubState, op: Op): HubState {
    match op
    case OpCreateNS(spec, now, auditNow) => CreateNS(s, spec, now, auditNow).0
    case OpDeleteNS(id, actor, auditNow) => DeleteNS(s, id, actor, auditNow).0
    case OpPut(ns, key, payload, opts, order, now, auditNow) =>
      Put(cfg, s, ns, key, payload, opts, order, now, auditNow).0
    case OpRollback(ns, key, rev, actor, auditNow) => Rollback(s, ns, key, rev, actor, auditNow).0
    case OpDeleteKey(ns, key, actor, auditNow) => DeleteKey(s, ns, key, actor, auditNow).0
    case OpGrant(ns, subject, role, actor) => Grant(s, ns, subject, role, actor).0
    case OpClose => s.(closed := true)
  }

  function Run(cfg: Config, s: HubState, ops: seq<Op>): HubState {
    if ops == [] then s else Step(cfg, Run(cfg, s, ops[..|ops| - 1]), ops[|ops| - 1])
  }
}
