/** internal/snapshot/codec.go: the printer. Every put method appends to one growing body; the
    order in which a map is visited is whatever the iteration picks. */
module SnapshotWriter {
  import opened Base
  import opened Meta
  import Wire
  import opened SnapshotCodec

  lemma {:induction false} UvarintThenRest(v: nat, rest: Bytes)
    ensures Wire.PutUvarint(v, []) + rest == Wire.PutUvarint(v, rest)
    decreases v
  {
    if v >= 128 {
      UvarintThenRest(v / 128, rest);
      var first := [(v % 128 + 128) as byte];
      assert first + Wire.PutUvarint(v / 128, []) + rest == first + (Wire.PutUvarint(v / 128, []) + rest);
    }
  }

  lemma {:induction false} TidySnoc<K, V>(items: seq<(K, V)>, k: K, v: V)
    requires Wire.Tidy(items) && k !in Wire.MapOf(items)
    ensures Wire.Tidy(items + [(k, v)])
    ensures Wire.MapOf(items + [(k, v)]) == Wire.MapOf(items)[k := v]
  {
    assert (items + [(k, v)])[..|items|] == items;
    forall i | 0 <= i < |items|
      ensures items[i].0 != k
    {
      Wire.MapOfHolds(items, i);
    }
  }

  /** after is before with x printed behind it. */
  ghost predicate Appended<T>(before: Bytes, after: Bytes, put: (T, Bytes) -> Bytes, x: T) {
    forall rest: Bytes {:trigger after + rest} :: after + rest == before + put(x, rest)
  }

  /** The count n and the elements xs of a list have been printed behind before. */
  ghost predicate ListSoFar<T>(before: Bytes, after: Bytes, n: nat, put: (T, Bytes) -> Bytes, xs: seq<T>) {
    forall rest: Bytes {:trigger after + rest} ::
      after + rest == before + Wire.PutUvarint(n, Wire.PutMany(put, xs, rest))
  }

  ghost predicate AppendedList<T>(before: Bytes, after: Bytes, put: (T, Bytes) -> Bytes, xs: seq<T>) {
    forall rest: Bytes {:trigger after + rest} :: after + rest == before + Wire.PutList(put, xs, rest)
  }

  lemma {:induction false} ListStart<T>(before: Bytes, after: Bytes, n: nat, put: (T, Bytes) -> Bytes)
    requires Appended(before, after, Wire.PutUvarint, n)
    ensures ListSoFar(before, after, n, put, [])
  {}

  lemma {:induction false} ListStep<T>(
      before: Bytes, mid: Bytes, after: Bytes, n: nat, put: (T, Bytes) -> Bytes, xs: seq<T>, x: T)
    requires ListSoFar(before, mid, n, put, xs) && Appended(mid, after, put, x)
    ensures ListSoFar(before, after, n, put, xs + [x])
  {
    forall rest: Bytes
      ensures after + rest == before + Wire.PutUvarint(n, Wire.PutMany(put, xs + [x], rest))
    {
      Wire.ManySnoc(put, xs, x, rest);
      assert after + rest == mid + put(x, rest);
    }
  }

  lemma {:induction false} ListDone<T>(before: Bytes, after: Bytes, put: (T, Bytes) -> Bytes, xs: seq<T>)
    requires ListSoFar(before, after, |xs|, put, xs)
    ensures AppendedList(before, after, put, xs)
  {}

  /** ws writes exactly the grants of done, each once. */
  ghost predicate WritesGrants(ws: seq<(Bytes, seq<(Bytes, Bytes)>)>, done: map<Bytes, map<Bytes, Bytes>>) {
    && Wire.Tidy(FromGrants(ws)) && (forall w :: w in ws ==> Wire.Tidy(w.1))
    && Wire.MapOf(FromGrants(ws)) == done
  }

  lemma {:induction false} NoGrants()
    ensures WritesGrants([], map[])
  {}

  lemma {:induction false} OneMoreGrant(
      ws: seq<(Bytes, seq<(Bytes, Bytes)>)>, done: map<Bytes, map<Bytes, Bytes>>,
      w: (Bytes, seq<(Bytes, Bytes)>), roles: map<Bytes, Bytes>)
    requires WritesGrants(ws, done) && w.0 !in done && Wire.Tidy(w.1) && Wire.MapOf(w.1) == roles
    ensures WritesGrants(ws + [w], done[w.0 := roles])
  {
    TidySnoc(FromGrants(ws), w.0, roles);
    assert FromGrants(ws + [w]) == FromGrants(ws) + [(w.0, roles)];
  }

  class Writer {
    var body: Bytes

    constructor ()
      ensures body == []
    {
      body := [];
    }

    method PutUvarint(v: nat)
      modifies this
      ensures Appended(old(body), body, Wire.PutUvarint, v)
    {
      body := body + Wire.PutUvarint(v, []);
      forall rest: Bytes
        ensures body + rest == old(body) + Wire.PutUvarint(v, rest)
      {
        UvarintThenRest(v, rest);
        assert body + rest == old(body) + (Wire.PutUvarint(v, []) + rest);
      }
    }

    method PutBytes(p: Bytes)
      modifies this
      ensures Appended(old(body), body, Wire.PutBytes, p)
    {
      PutUvarint(|p|);
      ghost var counted := body;
      body := body + p;
      forall rest: Bytes
        ensures body + rest == old(body) + Wire.PutBytes(p, rest)
      {
        assert body + rest == counted + (p + rest);
      }
    }

    method PutI64(v: int)
      modifies this
      ensures Appended(old(body), body, Wire.PutI64, v)
    {
      PutUvarint(Wire.ToUnsigned(v));
    }

    method PutStrings(xs: seq<Bytes>)
      modifies this
      ensures AppendedList(old(body), body, Wire.PutBytes, xs)
    {
      PutUvarint(|xs|);
      ListStart(old(body), body, |xs|, Wire.PutBytes);
      for i := 0 to |xs|
        invariant ListSoFar(old(body), body, |xs|, Wire.PutBytes, xs[..i])
      {
        ghost var mid := body;
        PutBytes(xs[i]);
        ListStep(old(body), mid, body, |xs|, Wire.PutBytes, xs[..i], xs[i]);
        assert xs[..i + 1] == xs[..i] + [xs[i]];
      }
      assert xs[..|xs|] == xs;
      ListDone(old(body), body, Wire.PutBytes, xs);
    }

    method PutPair(k: Bytes, v: Bytes)
      modifies this
      ensures Appended(old(body), body, Wire.PutPair, (k, v))
    {
      PutBytes(k);
      PutBytes(v);
    }

    method PutStringMap(m: map<Bytes, Bytes>) returns (ghost items: seq<(Bytes, Bytes)>)
      modifies this
      ensures Wire.Tidy(items) && Wire.MapOf(items) == m
      ensures AppendedList(old(body), body, Wire.PutPair, items)
    {
      PutUvarint(|m|);
      items := [];
      ListStart(old(body), body, |m|, Wire.PutPair);
      var left := m.Keys;
      while left != {}
        invariant left <= m.Keys && |items| + |left| == |m|
        invariant Wire.Tidy(items) && Wire.MapOf(items) == m - left
        invariant ListSoFar(old(body), body, |m|, Wire.PutPair, items)
      {
        var k :| k in left;
        ghost var mid := body;
        PutPair(k, m[k]);
        ListStep(old(body), mid, body, |m|, Wire.PutPair, items, (k, m[k]));
        TidySnoc(items, k, m[k]);
        left := left - {k};
        items := items + [(k, m[k])];
      }
      ListDone(old(body), body, Wire.PutPair, items);
    }

    method PutGray(g: Option<GrayRule>) returns (ghost w: Option<Wire.WireGray>)
      modifies this
      ensures TidyGray(w) && FromGray(w) == g
      ensures Appended(old(body), body, Wire.PutGray, w)
    {
      if g.None? {
        PutUvarint(0);
        return None;
      }
      PutUvarint(1);
      PutI64(g.value.percent);
      PutStrings(g.value.allowIDs);
      ghost var tags := PutStringMap(g.value.matchTags);
      w := Some(Wire.WireGray(g.value.percent, g.value.allowIDs, tags));
    }

    method PutNamespace(n: Namespace)
      modifies this
      ensures Appended(old(body), body, Wire.PutNamespace, n)
    {
      PutBytes(n.id);
      PutBytes(n.owner);
      PutI64(n.createdAt);
      PutI64(n.maxKeys);
      PutI64(n.maxBytes);
    }

    method PutNamespaces(ns: seq<Namespace>)
      modifies this
      ensures AppendedList(old(body), body, Wire.PutNamespace, ns)
    {
      PutUvarint(|ns|);
      ListStart(old(body), body, |ns|, Wire.PutNamespace);
      for i := 0 to |ns|
        invariant ListSoFar(old(body), body, |ns|, Wire.PutNamespace, ns[..i])
      {
        ghost var mid := body;
        PutNamespace(ns[i]);
        ListStep(old(body), mid, body, |ns|, Wire.PutNamespace, ns[..i], ns[i]);
        assert ns[..i + 1] == ns[..i] + [ns[i]];
      }
      assert ns[..|ns|] == ns;
      ListDone(old(body), body, Wire.PutNamespace, ns);
    }

    method PutVersion(v: VersionMeta) returns (ghost w: Wire.WireVersion)
      modifies this
      ensures TidyGray(w.gray) && FromVersion(w) == v
      ensures Appended(old(body), body, Wire.PutVersion, w)
    {
      PutI64(v.rev);
      PutBytes(v.payload);
      PutBytes(v.sig);
      PutBytes(v.algo);
      PutBytes(v.author);
      PutI64(v.ts);
      ghost var gray := PutGray(v.gray);
      w := Wire.WireVersion(v.rev, v.payload, v.sig, v.algo, v.author, v.ts, gray);
    }

    method PutVersions(vs: seq<VersionMeta>) returns (ghost ws: seq<Wire.WireVersion>)
      modifies this
      ensures (forall w :: w in ws ==> TidyGray(w.gray)) && FromVersions(ws) == vs
      ensures AppendedList(old(body), body, Wire.PutVersion, ws)
    {
      PutUvarint(|vs|);
      ws := [];
      ListStart(old(body), body, |vs|, Wire.PutVersion);
      for i := 0 to |vs|
        invariant (forall w :: w in ws ==> TidyGray(w.gray)) && FromVersions(ws) == vs[..i]
        invariant ListSoFar(old(body), body, |vs|, Wire.PutVersion, ws)
      {
        ghost var mid := body;
        ghost var w := PutVersion(vs[i]);
        ListStep(old(body), mid, body, |vs|, Wire.PutVersion, ws, w);
        assert FromVersions(ws + [w]) == FromVersions(ws) + [vs[i]];
        ws := ws + [w];
      }
      ListDone(old(body), body, Wire.PutVersion, ws);
    }

    method PutEntry(e: Entry) returns (ghost w: Wire.WireEntry)
      modifies this
      ensures TidyEntry(w) && FromEntry(w) == e
      ensures Appended(old(body), body, Wire.PutEntry, w)
    {
      PutBytes(e.ns);
      PutBytes(e.key);
      PutI64(e.head);
      PutI64(e.stable);
      ghost var versions := PutVersions(e.versions);
      w := Wire.WireEntry(e.ns, e.key, e.head, e.stable, versions);
    }

    method PutEntries(es: seq<Option<Entry>>) returns (ok: bool, ghost ws: seq<Wire.WireEntry>)
      modifies this
      ensures ok <==> forall e :: e in es ==> e.Some?
      ensures ok ==> (forall w :: w in ws ==> TidyEntry(w)) && FromEntries(ws) == es
      ensures ok ==> AppendedList(old(body), body, Wire.PutEntry, ws)
    {
      PutUvarint(|es|);
      ws := [];
      ListStart(old(body), body, |es|, Wire.PutEntry);
      for i := 0 to |es|
        invariant forall k :: 0 <= k < i ==> es[k].Some?
        invariant (forall w :: w in ws ==> TidyEntry(w)) && FromEntries(ws) == es[..i]
        invariant ListSoFar(old(body), body, |es|, Wire.PutEntry, ws)
      {
        if es[i].None? {
          assert es[i] in es;
          return false, ws;
        }
        ghost var mid := body;
        ghost var w := PutEntry(es[i].value);
        ListStep(old(body), mid, body, |es|, Wire.PutEntry, ws, w);
        assert FromEntries(ws + [w]) == FromEntries(ws) + [es[i]];
        ws := ws + [w];
      }
      ListDone(old(body), body, Wire.PutEntry, ws);
      ok := true;
    }

    method PutAudit(a: AuditRecord)
      modifies this
      ensures Appended(old(body), body, Wire.PutAudit, a)
    {
      PutI64(a.seqNo);
      PutI64(a.ts);
      PutBytes(a.ns);
      PutBytes(a.key);
      PutI64(a.rev);
      PutBytes(a.kind);
      PutBytes(a.actor);
      PutBytes(a.detail);
      PutI64(a.bytes);
      if a.ok {
        PutUvarint(1);
      } else {
        PutUvarint(0);
      }
      PutBytes(a.err);
    }

    method PutAudits(rs: seq<AuditRecord>)
      modifies this
      ensures AppendedList(old(body), body, Wire.PutAudit, rs)
    {
      PutUvarint(|rs|);
      ListStart(old(body), body, |rs|, Wire.PutAudit);
      for i := 0 to |rs|
        invariant ListSoFar(old(body), body, |rs|, Wire.PutAudit, rs[..i])
      {
        ghost var mid := body;
        PutAudit(rs[i]);
        ListStep(old(body), mid, body, |rs|, Wire.PutAudit, rs[..i], rs[i]);
        assert rs[..i + 1] == rs[..i] + [rs[i]];
      }
      assert rs[..|rs|] == rs;
      ListDone(old(body), body, Wire.PutAudit, rs);
    }

    method PutGrant(ns: Bytes, m: map<Bytes, Bytes>) returns (ghost w: (Bytes, seq<(Bytes, Bytes)>))
      modifies this
      ensures w.0 == ns && Wire.Tidy(w.1) && Wire.MapOf(w.1) == m
      ensures Appended(old(body), body, Wire.PutGrant, w)
    {
      PutBytes(ns);
      ghost var subs := PutStringMap(m);
      w := (ns, subs);
    }

    method PutGrants(m: map<Bytes, map<Bytes, Bytes>>) returns (ghost ws: seq<(Bytes, seq<(Bytes, Bytes)>)>)
      modifies this
      ensures Wire.Tidy(ws) && (forall w :: w in ws ==> Wire.Tidy(w.1))
      ensures Wire.MapOf(FromGrants(ws)) == m
      ensures AppendedList(old(body), body, Wire.PutGrant, ws)
    {
      hide ListSoFar, Appended, AppendedList, WritesGrants;
      PutUvarint(|m|);
      ws := [];
      ListStart(old(body), body, |m|, Wire.PutGrant);
      NoGrants();
      assert m - m.Keys == map[];
      var left := m.Keys;
      while left != {}
        invariant left <= m.Keys && |ws| + |left| == |m| && WritesGrants(ws, m - left)
        invariant ListSoFar(old(body), body, |m|, Wire.PutGrant, ws)
      {
        var ns :| ns in left;
        ghost var mid := body;
        ghost var w := PutGrant(ns, m[ns]);
        ListStep(old(body), mid, body, |m|, Wire.PutGrant, ws, w);
        OneMoreGrant(ws, m - left, w, m[ns]);
        assert (m - left)[ns := m[ns]] == m - (left - {ns});
        left := left - {ns};
        ws := ws + [w];
      }
      assert m - left == m;
      GrantsWritten(ws, m);
      ListDone(old(body), body, Wire.PutGrant, ws);
    }

    method PutUsage(ns: Bytes, u: Usage)
      modifies this
      ensures Appended(old(body), body, Wire.PutUsage, (ns, u))
    {
      PutBytes(ns);
      PutI64(u.keys);
      PutI64(u.bytes);
    }

    method PutUsages(m: map<Bytes, Usage>) returns (ghost ws: seq<(Bytes, Usage)>)
      modifies this
      ensures Wire.Tidy(ws) && Wire.MapOf(ws) == m
      ensures AppendedList(old(body), body, Wire.PutUsage, ws)
    {
      PutUvarint(|m|);
      ws := [];
      ListStart(old(body), body, |m|, Wire.PutUsage);
      var left := m.Keys;
      while left != {}
        invariant left <= m.Keys && |ws| + |left| == |m|
        invariant Wire.Tidy(ws) && Wire.MapOf(ws) == m - left
        invariant ListSoFar(old(body), body, |m|, Wire.PutUsage, ws)
      {
        var ns :| ns in left;
        ghost var mid := body;
        PutUsage(ns, m[ns]);
        ListStep(old(body), mid, body, |m|, Wire.PutUsage, ws, (ns, m[ns]));
        TidySnoc(ws, ns, m[ns]);
        left := left - {ns};
        ws := ws + [(ns, m[ns])];
      }
      ListDone(old(body), body, Wire.PutUsage, ws);
    }

    /** Everything between the magic and the checksum. */
    method PutBody(b: Blob) returns (ok: bool, ghost w: Wire.WireBlob)
      requires b == Tallied(b)
      modifies this
      ensures ok <==> NoNilEntry(b)
      ensures ok ==> TidyWire(w) && FromWire(w) == Settled(b)
      ensures ok ==> Appended(old(body), body, Wire.PutBlob, w)
    {
      var audit := if b.audit.Some? then b.audit.value else [];
      PutBytes(b.header.magic);
      PutI64(b.header.format);
      PutI64(b.header.createdAt);
      PutNamespaces(b.namespaces);
      ghost var entries, grants, usage;
      ok, entries := PutEntries(b.entries);
      if ok {
        PutAudits(audit);
        grants := PutGrants(if b.grants.Some? then b.grants.value else map[]);
        usage := PutUsages(if b.usage.Some? then b.usage.value else map[]);
        w := Wire.WireBlob(b.header.magic, b.header.format, b.header.createdAt,
                           b.namespaces, entries, audit, grants, usage);
        FromWireIs(w, b);
      } else {
        w := Wire.WireBlob([], 0, 0, [], [], [], [], []);
      }
    }
  }

  lemma {:induction false} FromWireIs(w: Wire.WireBlob, b: Blob)
    requires b == Tallied(b)
    requires w.magic == b.header.magic && w.format == b.header.format && w.createdAt == b.header.createdAt
    requires w.namespaces == b.namespaces && FromEntries(w.entries) == b.entries
    requires w.audit == if b.audit.Some? then b.audit.value else []
    requires Wire.MapOf(FromGrants(w.grants)) == if b.grants.Some? then b.grants.value else map[]
    requires Wire.MapOf(w.usage) == if b.usage.Some? then b.usage.value else map[]
    ensures FromWire(w) == Settled(b)
  {}

  lemma {:induction false} WholeBody(body: Bytes, b: Blob, w: Wire.WireBlob, crc: Crc)
    requires TidyWire(w) && FromWire(w) == Settled(Tallied(b)) && Appended([], body, Wire.PutBlob, w)
    ensures Encodes(Frame(body, crc), b, crc)
  {
    var rest: Bytes := [];
    assert body == body + rest == [] + Wire.PutBlob(w, rest) == Wire.PutBlob(w, rest);
  }

  lemma {:induction false} GrantsWritten(ws: seq<(Bytes, seq<(Bytes, Bytes)>)>, done: map<Bytes, map<Bytes, Bytes>>)
    requires WritesGrants(ws, done)
    ensures Wire.Tidy(ws) && (forall w :: w in ws ==> Wire.Tidy(w.1)) && Wire.MapOf(FromGrants(ws)) == done
  {
    forall i, j | 0 <= i < j < |ws|
      ensures ws[i].0 != ws[j].0
    {
      assert FromGrants(ws)[i].0 != FromGrants(ws)[j].0;
    }
  }

  /** Encode brings the blob's counts up to date and prints it; it refuses nil blobs and entries. */
  method Encode(blob: Option<Blob>, crc: Crc) returns (res: Result<Bytes>)
    ensures res.Ok? <==> blob.Some? && NoNilEntry(blob.value)
    ensures res.Ok? ==> Encodes(res.value, blob.value, crc)
    ensures blob.None? ==> res == Err(Sentinel0(Snapshot))
    ensures blob.Some? && res.Err? ==> res == Err(Error(Snapshot, Lit("nil entry")))
  {
    if blob.None? {
      return Err(Sentinel0(Snapshot));
    }
    var b := Tally(blob.value);
    var out := new Writer();
    var ok, w := out.PutBody(b);
    if !ok {
      return Err(Error(Snapshot, Lit("nil entry")));
    }
    WholeBody(out.body, blob.value, w, crc);
    res := Ok(MAGIC + out.body + BigEndian(crc(out.body)));
  }
}
