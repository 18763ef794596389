/** internal/meta/types.go: the values every component exchanges. Times are nanoseconds since
    the Unix epoch; Go's zero time lies outside the 64-bit range. */
module Meta {
  import opened Base

  const ZERO_TIME: int := -62135596800000000000

  const KIND_PUBLISH: Bytes := Lit("publish")
  const KIND_ROLLBACK: Bytes := Lit("rollback")
  const KIND_DELETE: Bytes := Lit("delete")
  const KIND_CREATE_NS: Bytes := Lit("create_ns")
  const KIND_DELETE_NS: Bytes := Lit("delete_ns")
  const KIND_IMPORT: Bytes := Lit("import")

  lemma {:induction false} KindsDiffer()
    ensures KIND_DELETE != KIND_PUBLISH && KIND_DELETE != KIND_ROLLBACK
  {
    assert KIND_DELETE[0] == 100 && KIND_PUBLISH[0] == 112 && KIND_ROLLBACK[0] == 114;
  }

  datatype Namespace = Namespace(id: Bytes, owner: Bytes, createdAt: int, maxKeys: int, maxBytes: int)

  datatype GrayRule = GrayRule(percent: int, allowIDs: seq<Bytes>, matchTags: map<Bytes, Bytes>) {
    predicate IsZero() {
      percent <= 0 && allowIDs == [] && matchTags == map[]
    }

    predicate IsFullRollout() {
      percent >= 100 && allowIDs == [] && matchTags == map[]
    }
  }

  /** Released to every client: no rule, or one that is full or empty. */
  predicate Full(gray: Option<GrayRule>) {
    gray.None? || gray.value.IsFullRollout() || gray.value.IsZero()
  }

  datatype VersionMeta = VersionMeta(
    rev: int, payload: Bytes, sig: Bytes, algo: Bytes, author: Bytes, ts: int, gray: Option<GrayRule>)

  datatype Entry = Entry(ns: Bytes, key: Bytes, versions: seq<VersionMeta>, head: int, stable: int) {
    function ByRev(rev: int): (v: Option<VersionMeta>)
      ensures v.Some? ==> 0 < rev <= |versions| && v.value == versions[rev - 1] && v.value.rev == rev
    {
      if rev <= 0 || rev > |versions| || versions[rev - 1].rev != rev then None
      else Some(versions[rev - 1])
    }
  }

  /** tags may be missing, which is not the same as empty to the tag matcher. */
  datatype ClientContext = ClientContext(id: Bytes, tags: Option<map<Bytes, Bytes>>)

  datatype Event = Event(ns: Bytes, key: Bytes, rev: int, kind: Bytes)

  datatype AuditRecord = AuditRecord(
    seqNo: int, ts: int, ns: Bytes, key: Bytes, rev: int, kind: Bytes, actor: Bytes,
    detail: Bytes, bytes: int, ok: bool, err: Bytes)

  datatype Usage = Usage(keys: int, bytes: int)

  datatype Header = Header(
    magic: Bytes, format: int, createdAt: int, nsCount: nat, keyCount: nat, verCount: nat)

  /** internal/snapshot/types.go. An entry may be a nil pointer, and the audit list and the two
      maps may be missing. */
  datatype Blob = Blob(
    header: Header,
    namespaces: seq<Namespace>,
    entries: seq<Option<Entry>>,
    audit: Option<seq<AuditRecord>>,
    grants: Option<map<Bytes, map<Bytes, Bytes>>>,
    usage: Option<map<Bytes, Usage>>)
}
