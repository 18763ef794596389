/** internal/snapshot/import.go: the parser. A cursor advances over the body; the first malformed
    part abandons the whole snapshot. */
module SnapshotReader {
  import opened Base
  import opened Meta
  import Wire
  import opened SnapshotCodec

  /** What a read method returned, and where it left the cursor, agree with the parser. */
  ghost predicate Reads<T>(p: Wire.Parsed<T>, r: Result<T>, after: Bytes) {
    match p
    case Got(v, rest) => r == Ok(v) && after == rest
    case Fails(err) => r == Err(err)
  }

  /** Likewise, for a value that stands for what the parser found. */
  ghost predicate ReadsAs<W, T>(p: Wire.Parsed<W>, from: W -> T, r: Result<T>, after: Bytes) {
    match p
    case Got(w, rest) => r == Ok(from(w)) && after == rest
    case Fails(err) => r == Err(err)
  }

  /** xs read already, p still to come. */
  function Prepend<T>(xs: seq<T>, p: Wire.Parsed<seq<T>>): Wire.Parsed<seq<T>> {
    match p
    case Got(ys, rest) => Wire.Got(xs + ys, rest)
    case Fails(err) => Wire.Fails(err)
  }

  /** What the list will turn out to be: xs has been read, left elements are still ahead, at s. */
  ghost function Outlook<T>(
      len: nat, get: (nat, Bytes) -> Wire.Parsed<T>, xs: seq<T>, left: nat, s: Bytes): Wire.Parsed<seq<T>>
  {
    Prepend(xs, Wire.GetMany(len, get, left, s))
  }

  lemma {:induction false} ReadStart<T>(len: nat, get: (nat, Bytes) -> Wire.Parsed<T>, n: nat, s: Bytes)
    ensures Outlook(len, get, [], n, s) == Wire.GetMany(len, get, n, s)
  {
    var p := Wire.GetMany(len, get, n, s);
    if p.Got? {
      assert [] + p.value == p.value;
    }
  }

  lemma {:induction false} ReadStep<T>(
      len: nat, get: (nat, Bytes) -> Wire.Parsed<T>, xs: seq<T>, left: nat, s: Bytes, p: Wire.Parsed<T>)
    requires left > 0 && p == get(len, s)
    ensures p.Fails? ==> Outlook(len, get, xs, left, s) == Wire.Fails(p.error)
    ensures p.Got? ==> Outlook(len, get, xs + [p.value], left - 1, p.rest) == Outlook(len, get, xs, left, s)
  {
    if p.Got? {
      var q := Wire.GetMany(len, get, left - 1, p.rest);
      if q.Got? {
        assert xs + ([p.value] + q.value) == xs + [p.value] + q.value;
      }
    }
  }

  lemma {:induction false} ReadEnd<T>(len: nat, get: (nat, Bytes) -> Wire.Parsed<T>, xs: seq<T>, s: Bytes)
    ensures Outlook(len, get, xs, 0, s) == Wire.Got(xs, s)
  {
    assert xs + [] == xs;
  }

  function GrantMap(ws: seq<(Bytes, seq<(Bytes, Bytes)>)>): map<Bytes, map<Bytes, Bytes>> {
    Wire.MapOf(FromGrants(ws))
  }

  lemma {:induction false} MapOfSnoc<K, V>(items: seq<(K, V)>, k: K, v: V)
    ensures Wire.MapOf(items + [(k, v)]) == Wire.MapOf(items)[k := v]
  {
    assert (items + [(k, v)])[..|items|] == items;
  }

  class Reader {
    const b: Bytes
    var i: nat

    ghost predicate Valid()
      reads this
    {
      i <= |b|
    }

    ghost function Rest(): Bytes
      reads this
      requires Valid()
    {
      b[i..]
    }

    constructor (body: Bytes)
      ensures Valid() && b == body && Rest() == body
    {
      b, i := body, 0;
    }

    method Uvarint() returns (r: Result<nat>)
      requires Valid()
      modifies this
      ensures Valid() && Reads(Wire.GetUvarint(old(Rest())), r, Rest())
    {
      var p := Wire.GetUvarint(b[i..]);
      if p.Fails? {
        return Err(p.error);
      }
      i := |b| - |p.rest|;
      r := Ok(p.value);
    }

    method I64() returns (r: Result<int>)
      requires Valid()
      modifies this
      ensures Valid() && Reads(Wire.GetI64(old(Rest())), r, Rest())
    {
      var u :- Uvarint();
      r := Ok(Wire.ToSigned(u));
    }

    method ByteString() returns (r: Result<Bytes>)
      requires Valid()
      modifies this
      ensures Valid() && Reads(Wire.GetBytes(|b|, old(Rest())), r, Rest())
    {
      hide Wire.GetUvarint, Wire.ToSigned, Wire.ToUnsigned;
      var u :- Uvarint();
      var hi := Wire.ToSigned(Wire.ToUnsigned(i + Wire.ToSigned(u)));
      if hi > |b| {
        return Err(Wire.MALFORMED);
      }
      if hi < i {
        // The slice expression panics.
        return Err(Wire.PANIC);
      }
      assert b[i..][..hi - i] == b[i..hi] && b[i..][hi - i..] == b[hi..];
      r := Ok(b[i..hi]);
      i := hi;
    }

    method Strings() returns (r: Result<seq<Bytes>>)
      requires Valid()
      modifies this
      ensures Valid() && Reads(Wire.GetStrings(|b|, old(Rest())), r, Rest())
    {
      hide Wire.GetBytes;
      var n :- Uvarint();
      if n > Wire.MAX_STRINGS {
        // Allocating the slice panics.
        return Err(Wire.PANIC);
      }
      ghost var total := Wire.GetMany(|b|, Wire.GetBytes, n, Rest());
      ghost var left := n;
      var xs := [];
      ReadStart(|b|, Wire.GetBytes, n, Rest());
      for k := 0 to n
        invariant Valid()
        invariant left == n - k && Outlook(|b|, Wire.GetBytes, xs, left, Rest()) == total
      {
        ghost var p := Wire.GetBytes(|b|, Rest());
        ReadStep(|b|, Wire.GetBytes, xs, left, Rest(), p);
        left := left - 1;
        var x :- ByteString();
        xs := xs + [x];
      }
      ReadEnd(|b|, Wire.GetBytes, xs, Rest());
      r := Ok(xs);
    }

    method Pair() returns (r: Result<(Bytes, Bytes)>)
      requires Valid()
      modifies this
      ensures Valid() && Reads(Wire.GetPair(|b|, old(Rest())), r, Rest())
    {
      var k :- ByteString();
      var v :- ByteString();
      r := Ok((k, v));
    }

    method StringMap() returns (r: Result<map<Bytes, Bytes>>, ghost ws: seq<(Bytes, Bytes)>)
      requires Valid()
      modifies this
      ensures Valid() && Reads(Wire.GetList(|b|, Wire.GetPair, old(Rest())), if r.Ok? then Ok(ws) else Err(r.error), Rest())
      ensures r.Ok? ==> r.value == Wire.MapOf(ws)
    {
      hide Wire.GetPair;
      ws := [];
      var n := Uvarint();
      if n.Err? { return Err(n.error), ws; }
      ghost var total := Wire.GetMany(|b|, Wire.GetPair, n.value, Rest());
      ghost var left := n.value;
      var m := map[];
      ReadStart(|b|, Wire.GetPair, n.value, Rest());
      for k := 0 to n.value
        invariant Valid() && m == Wire.MapOf(ws)
        invariant left == n.value - k && Outlook(|b|, Wire.GetPair, ws, left, Rest()) == total
      {
        ghost var p := Wire.GetPair(|b|, Rest());
        ReadStep(|b|, Wire.GetPair, ws, left, Rest(), p);
        left := left - 1;
        var next := Pair();
        if next.Err? { return Err(next.error), ws; }
        var item := next.value;
        MapOfSnoc(ws, item.0, item.1);
        m := m[item.0 := item.1];
        ws := ws + [item];
      }
      ReadEnd(|b|, Wire.GetPair, ws, Rest());
      r := Ok(m);
    }

    method Gray() returns (r: Result<Option<GrayRule>>)
      requires Valid()
      modifies this
      ensures Valid()
      ensures ReadsAs(Wire.GetGray(|b|, old(Rest())), FromGray, r, Rest())
    {
      hide Wire.GetUvarint, Wire.GetI64, Wire.GetStrings, Wire.GetList, Wire.GetBytes, Wire.GetPair;
      var flag :- Uvarint();
      if flag == 0 {
        return Ok(None);
      }
      var percent :- I64();
      var allowIDs :- Strings();
      var tags, items := StringMap();
      if tags.Err? { return Err(tags.error); }
      r := Ok(Some(GrayRule(percent, allowIDs, tags.value)));
    }

    method NextNamespace() returns (r: Result<Namespace>)
      requires Valid()
      modifies this
      ensures Valid() && Reads(Wire.GetNamespace(|b|, old(Rest())), r, Rest())
    {
      hide Wire.GetI64, Wire.GetBytes;
      var id :- ByteString();
      var owner :- ByteString();
      var createdAt :- I64();
      var maxKeys :- I64();
      var maxBytes :- I64();
      r := Ok(Namespace(id, owner, createdAt, maxKeys, maxBytes));
    }

    method Namespaces() returns (r: Result<seq<Namespace>>)
      requires Valid()
      modifies this
      ensures Valid() && Reads(Wire.GetList(|b|, Wire.GetNamespace, old(Rest())), r, Rest())
    {
      hide Wire.GetNamespace;
      var n :- Uvarint();
      ghost var total := Wire.GetMany(|b|, Wire.GetNamespace, n, Rest());
      ghost var left := n;
      var xs := [];
      ReadStart(|b|, Wire.GetNamespace, n, Rest());
      for k := 0 to n
        invariant Valid()
        invariant left == n - k && Outlook(|b|, Wire.GetNamespace, xs, left, Rest()) == total
      {
        ghost var p := Wire.GetNamespace(|b|, Rest());
        ReadStep(|b|, Wire.GetNamespace, xs, left, Rest(), p);
        left := left - 1;
        var x :- NextNamespace();
        xs := xs + [x];
      }
      ReadEnd(|b|, Wire.GetNamespace, xs, Rest());
      r := Ok(xs);
    }

    method Version() returns (r: Result<VersionMeta>, ghost w: Wire.WireVersion)
      requires Valid()
      modifies this
      ensures Valid() && Reads(Wire.GetVersion(|b|, old(Rest())), if r.Ok? then Ok(w) else Err(r.error), Rest())
      ensures r.Ok? ==> r.value == FromVersion(w)
    {
      hide Wire.GetUvarint, Wire.GetI64, Wire.GetBytes, Wire.GetGray, FromGray;
      w := Wire.WireVersion(0, [], [], [], [], 0, None);
      ghost var whole := Wire.GetVersion(|b|, Rest());
      var rev := I64();
      if rev.Err? { return Err(rev.error), w; }
      var payload := ByteString();
      if payload.Err? { return Err(payload.error), w; }
      var sig := ByteString();
      if sig.Err? { return Err(sig.error), w; }
      var algo := ByteString();
      if algo.Err? { return Err(algo.error), w; }
      var author := ByteString();
      if author.Err? { return Err(author.error), w; }
      var ts := I64();
      if ts.Err? { return Err(ts.error), w; }
      var gray := Gray();
      if gray.Err? { return Err(gray.error), w; }
      w := whole.value;
      r := Ok(VersionMeta(rev.value, payload.value, sig.value, algo.value, author.value, ts.value, gray.value));
    }

    method Versions() returns (r: Result<seq<VersionMeta>>, ghost ws: seq<Wire.WireVersion>)
      requires Valid()
      modifies this
      ensures Valid() && Reads(Wire.GetList(|b|, Wire.GetVersion, old(Rest())), if r.Ok? then Ok(ws) else Err(r.error), Rest())
      ensures r.Ok? ==> r.value == FromVersions(ws)
    {
      hide Wire.GetVersion;
      ws := [];
      var n := Uvarint();
      if n.Err? { return Err(n.error), ws; }
      ghost var total := Wire.GetMany(|b|, Wire.GetVersion, n.value, Rest());
      ghost var left := n.value;
      var vs := [];
      ReadStart(|b|, Wire.GetVersion, n.value, Rest());
      for k := 0 to n.value
        invariant Valid() && vs == FromVersions(ws)
        invariant left == n.value - k && Outlook(|b|, Wire.GetVersion, ws, left, Rest()) == total
      {
        ghost var p := Wire.GetVersion(|b|, Rest());
        ReadStep(|b|, Wire.GetVersion, ws, left, Rest(), p);
        left := left - 1;
        var v, w := Version();
        if v.Err? { return Err(v.error), ws; }
        assert FromVersions(ws + [w]) == FromVersions(ws) + [v.value];
        vs := vs + [v.value];
        ws := ws + [w];
      }
      ReadEnd(|b|, Wire.GetVersion, ws, Rest());
      r := Ok(vs);
    }

    method NextEntry() returns (r: Result<Entry>, ghost w: Wire.WireEntry)
      requires Valid()
      modifies this
      ensures Valid() && Reads(Wire.GetEntry(|b|, old(Rest())), if r.Ok? then Ok(w) else Err(r.error), Rest())
      ensures r.Ok? ==> r.value == FromEntry(w)
    {
      hide Wire.GetI64, Wire.GetBytes, Wire.GetList, FromVersions;
      w := Wire.WireEntry([], [], 0, 0, []);
      ghost var whole := Wire.GetEntry(|b|, Rest());
      var ns := ByteString();
      if ns.Err? { return Err(ns.error), w; }
      var key := ByteString();
      if key.Err? { return Err(key.error), w; }
      var head := I64();
      if head.Err? { return Err(head.error), w; }
      var stable := I64();
      if stable.Err? { return Err(stable.error), w; }
      var versions, ws := Versions();
      if versions.Err? { return Err(versions.error), w; }
      w := whole.value;
      r := Ok(Entry(ns.value, key.value, versions.value, head.value, stable.value));
    }

    method Entries() returns (r: Result<seq<Option<Entry>>>, ghost ws: seq<Wire.WireEntry>)
      requires Valid()
      modifies this
      ensures Valid() && Reads(Wire.GetList(|b|, Wire.GetEntry, old(Rest())), if r.Ok? then Ok(ws) else Err(r.error), Rest())
      ensures r.Ok? ==> r.value == FromEntries(ws)
    {
      hide Wire.GetEntry;
      ws := [];
      var n := Uvarint();
      if n.Err? { return Err(n.error), ws; }
      ghost var total := Wire.GetMany(|b|, Wire.GetEntry, n.value, Rest());
      ghost var left := n.value;
      var es := [];
      ReadStart(|b|, Wire.GetEntry, n.value, Rest());
      for k := 0 to n.value
        invariant Valid() && es == FromEntries(ws)
        invariant left == n.value - k && Outlook(|b|, Wire.GetEntry, ws, left, Rest()) == total
      {
        ghost var p := Wire.GetEntry(|b|, Rest());
        ReadStep(|b|, Wire.GetEntry, ws, left, Rest(), p);
        left := left - 1;
        var e, w := NextEntry();
        if e.Err? { return Err(e.error), ws; }
        assert FromEntries(ws + [w]) == FromEntries(ws) + [Some(e.value)];
        es := es + [Some(e.value)];
        ws := ws + [w];
      }
      ReadEnd(|b|, Wire.GetEntry, ws, Rest());
      r := Ok(es);
    }

    method NextAudit() returns (r: Result<AuditRecord>)
      requires Valid()
      modifies this
      ensures Valid() && Reads(Wire.GetAudit(|b|, old(Rest())), r, Rest())
    {
      hide Wire.GetUvarint, Wire.GetI64, Wire.GetBytes;
      var seqNo :- I64();
      var ts :- I64();
      var ns :- ByteString();
      var key :- ByteString();
      var rev :- I64();
      var kind :- ByteString();
      var actor :- ByteString();
      var detail :- ByteString();
      var bytes :- I64();
      var ok :- Uvarint();
      var err :- ByteString();
      r := Ok(AuditRecord(seqNo, ts, ns, key, rev, kind, actor, detail, bytes, ok == 1, err));
    }

    method Audits() returns (r: Result<seq<AuditRecord>>)
      requires Valid()
      modifies this
      ensures Valid() && Reads(Wire.GetList(|b|, Wire.GetAudit, old(Rest())), r, Rest())
    {
      hide Wire.GetAudit;
      var n :- Uvarint();
      ghost var total := Wire.GetMany(|b|, Wire.GetAudit, n, Rest());
      ghost var left := n;
      var xs := [];
      ReadStart(|b|, Wire.GetAudit, n, Rest());
      for k := 0 to n
        invariant Valid()
        invariant left == n - k && Outlook(|b|, Wire.GetAudit, xs, left, Rest()) == total
      {
        ghost var p := Wire.GetAudit(|b|, Rest());
        ReadStep(|b|, Wire.GetAudit, xs, left, Rest(), p);
        left := left - 1;
        var x :- NextAudit();
        xs := xs + [x];
      }
      ReadEnd(|b|, Wire.GetAudit, xs, Rest());
      r := Ok(xs);
    }

    method NextGrant() returns (r: Result<(Bytes, map<Bytes, Bytes>)>, ghost w: (Bytes, seq<(Bytes, Bytes)>))
      requires Valid()
      modifies this
      ensures Valid() && Reads(Wire.GetGrant(|b|, old(Rest())), if r.Ok? then Ok(w) else Err(r.error), Rest())
      ensures r.Ok? ==> r.value == (w.0, Wire.MapOf(w.1))
    {
      w := ([], []);
      var ns := ByteString();
      if ns.Err? { return Err(ns.error), w; }
      ghost var items;
      var subs;
      subs, items := StringMap();
      if subs.Err? { return Err(subs.error), w; }
      w := (ns.value, items);
      r := Ok((ns.value, subs.value));
    }

    method Grants() returns (r: Result<map<Bytes, map<Bytes, Bytes>>>, ghost ws: seq<(Bytes, seq<(Bytes, Bytes)>)>)
      requires Valid()
      modifies this
      ensures Valid() && Reads(Wire.GetList(|b|, Wire.GetGrant, old(Rest())), if r.Ok? then Ok(ws) else Err(r.error), Rest())
      ensures r.Ok? ==> r.value == GrantMap(ws)
    {
      hide Wire.GetGrant;
      ws := [];
      var n := Uvarint();
      if n.Err? { return Err(n.error), ws; }
      ghost var total := Wire.GetMany(|b|, Wire.GetGrant, n.value, Rest());
      ghost var left := n.value;
      var m := map[];
      ReadStart(|b|, Wire.GetGrant, n.value, Rest());
      for k := 0 to n.value
        invariant Valid() && m == Wire.MapOf(FromGrants(ws))
        invariant left == n.value - k && Outlook(|b|, Wire.GetGrant, ws, left, Rest()) == total
      {
        ghost var p := Wire.GetGrant(|b|, Rest());
        ReadStep(|b|, Wire.GetGrant, ws, left, Rest(), p);
        left := left - 1;
        var next, w := NextGrant();
        if next.Err? { return Err(next.error), ws; }
        var (ns, subs) := next.value;
        assert FromGrants(ws + [w]) == FromGrants(ws) + [(ns, subs)];
        MapOfSnoc(FromGrants(ws), ns, subs);
        m := m[ns := subs];
        ws := ws + [w];
      }
      ReadEnd(|b|, Wire.GetGrant, ws, Rest());
      r := Ok(m);
    }

    method NextUsage() returns (r: Result<(Bytes, Usage)>)
      requires Valid()
      modifies this
      ensures Valid() && Reads(Wire.GetUsage(|b|, old(Rest())), r, Rest())
    {
      var ns :- ByteString();
      var keys :- I64();
      var bytes :- I64();
      r := Ok((ns, Usage(keys, bytes)));
    }

    method Usages() returns (r: Result<map<Bytes, Usage>>, ghost ws: seq<(Bytes, Usage)>)
      requires Valid()
      modifies this
      ensures Valid() && Reads(Wire.GetList(|b|, Wire.GetUsage, old(Rest())), if r.Ok? then Ok(ws) else Err(r.error), Rest())
      ensures r.Ok? ==> r.value == Wire.MapOf(ws)
    {
      hide Wire.GetUsage;
      ws := [];
      var n := Uvarint();
      if n.Err? { return Err(n.error), ws; }
      ghost var total := Wire.GetMany(|b|, Wire.GetUsage, n.value, Rest());
      ghost var left := n.value;
      var m := map[];
      ReadStart(|b|, Wire.GetUsage, n.value, Rest());
      for k := 0 to n.value
        invariant Valid() && m == Wire.MapOf(ws)
        invariant left == n.value - k && Outlook(|b|, Wire.GetUsage, ws, left, Rest()) == total
      {
        ghost var p := Wire.GetUsage(|b|, Rest());
        ReadStep(|b|, Wire.GetUsage, ws, left, Rest(), p);
        left := left - 1;
        var next := NextUsage();
        if next.Err? { return Err(next.error), ws; }
        var u := next.value;
        MapOfSnoc(ws, u.0, u.1);
        m := m[u.0 := u.1];
        ws := ws + [u];
      }
      ReadEnd(|b|, Wire.GetUsage, ws, Rest());
      r := Ok(m);
    }

    /** Everything between the magic and the checksum. */
    method Body() returns (r: Result<Blob>)
      requires Valid()
      modifies this
      ensures Valid()
      ensures ReadsAs(Wire.GetBlob(|b|, old(Rest())), FromWire, r, Rest())
    {
      hide Wire.GetBytes, Wire.GetI64, Wire.GetList, Tallied;
      var magic :- ByteString();
      var format :- I64();
      var createdAt :- I64();
      var namespaces :- Namespaces();
      var entries, wireEntries := Entries();
      if entries.Err? { return Err(entries.error); }
      var audit :- Audits();
      var grants, wireGrants := Grants();
      if grants.Err? { return Err(grants.error); }
      var usage, wireUsage := Usages();
      if usage.Err? { return Err(usage.error); }
      var b := Tally(Blob(
        Header(magic, format, createdAt, 0, 0, 0),
        namespaces, entries.value, if audit == [] then None else Some(audit), Some(grants.value), Some(usage.value)));
      r := Ok(b);
    }
  }

  method Decode(raw: Bytes, crc: Crc, json: Json) returns (res: Result<Blob>)
    ensures res == DecodeSpec(raw, crc, json)
  {
    hide Wire.GetBlob, Tallied;
    if |raw| < 8 {
      return Err(Sentinel0(Snapshot));
    }
    if raw[..4] != MAGIC {
      var b := json(raw);
      if b.None? {
        return Err(Error(Snapshot, Lit("magic")));
      }
      if b.value.header.magic == [] {
        return Ok(b.value.(header := b.value.header.(magic := MAGIC)));
      }
      return Ok(b.value);
    }
    var body := raw[4..|raw| - 4];
    if FromBigEndian(raw[|raw| - 4..]) != crc(body) {
      return Err(Sentinel0(Checksum));
    }
    var r := new Reader(body);
    res := r.Body();
  }
}
