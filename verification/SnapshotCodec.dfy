/** internal/snapshot: what a snapshot's bytes mean (Frame, DecodeSpec), and the printer and
    parser that produce and read them. */
module SnapshotCodec {
  import opened Base
  import opened Meta
  import opened Wire

  const MAGIC: Bytes := Lit("CHB1")
  const FORMAT: int := 1

  type uint32 = x: int | 0 <= x < 0x1_0000_0000

  /** The CRC-32 of the source; nothing below depends on which checksum it is. */
  type Crc = Bytes -> uint32

  /** What encoding/json makes of a text, if it can. */
  type Json = Bytes -> Option<Blob>

  // ----- Blobs -----

  function VersionCount(entries: seq<Option<Entry>>): nat {
    if entries == [] then 0
    else
      var last := entries[|entries| - 1];
      VersionCount(entries[..|entries| - 1]) + if last.Some? then |last.value.versions| else 0
  }

  /** Versions add up entry by entry, and nil entries have none. */
  lemma {:induction false} VersionCountAdds(es: seq<Option<Entry>>, i: nat)
    requires i < |es|
    ensures VersionCount(es) == VersionCount(es[..i]) + VersionCount(es[i + 1..]) +
              if es[i].Some? then |es[i].value.versions| else 0
    ensures VersionCount([]) == 0
  {
    var init := es[..|es| - 1];
    if i == |init| {
      assert es[i + 1..] == [];
    } else {
      VersionCountAdds(init, i);
      assert init[..i] == es[..i] && es[i + 1..][..|init| - i - 1] == init[i + 1..];
    }
  }

  /** The header's counts brought up to date. */
  function Tallied(b: Blob): Blob {
    b.(header := b.header.(nsCount := |b.namespaces|, keyCount := |b.entries|, verCount := VersionCount(b.entries)))
  }

  /** The format cannot tell a missing map from an empty one, nor a missing audit list. */
  function Settled(b: Blob): Blob {
    b.(audit := if b.audit.Some? && b.audit.value != [] then b.audit else None,
       grants := Some(if b.grants.Some? then b.grants.value else map[]),
       usage := Some(if b.usage.Some? then b.usage.value else map[]))
  }

  method Tally(b: Blob) returns (b': Blob)
    ensures b' == Tallied(b)
  {
    var n := 0;
    for i := 0 to |b.entries|
      invariant n == VersionCount(b.entries[..i])
    {
      assert b.entries[..i + 1][..i] == b.entries[..i];
      if b.entries[i].Some? {
        n := n + |b.entries[i].value.versions|;
      }
    }
    assert b.entries[..|b.entries|] == b.entries;
    b' := b.(header := b.header.(nsCount := |b.namespaces|, keyCount := |b.entries|, verCount := n));
  }

  // ----- From wire values to blobs -----

  function FromGray(w: Option<WireGray>): Option<GrayRule> {
    match w
    case None => None
    case Some(r) => Some(GrayRule(r.percent, r.allowIDs, MapOf(r.tags)))
  }

  function FromVersion(w: WireVersion): VersionMeta {
    VersionMeta(w.rev, w.payload, w.sig, w.algo, w.author, w.ts, FromGray(w.gray))
  }

  function FromVersions(ws: seq<WireVersion>): seq<VersionMeta> {
    seq(|ws|, i requires 0 <= i < |ws| => FromVersion(ws[i]))
  }

  function FromEntry(w: WireEntry): Entry {
    Entry(w.ns, w.key, FromVersions(w.versions), w.head, w.stable)
  }

  function FromEntries(ws: seq<WireEntry>): seq<Option<Entry>> {
    seq(|ws|, i requires 0 <= i < |ws| => Some(FromEntry(ws[i])))
  }

  function FromGrants(ws: seq<(Bytes, seq<(Bytes, Bytes)>)>): seq<(Bytes, map<Bytes, Bytes>)> {
    seq(|ws|, i requires 0 <= i < |ws| => (ws[i].0, MapOf(ws[i].1)))
  }

  function FromWire(w: WireBlob): Blob {
    Tallied(Blob(
      Header(w.magic, w.format, w.createdAt, 0, 0, 0),
      w.namespaces, FromEntries(w.entries), if w.audit == [] then None else Some(w.audit),
      Some(MapOf(FromGrants(w.grants))), Some(MapOf(w.usage))))
  }

  // ----- The encodings of a blob -----

  ghost predicate TidyGray(w: Option<WireGray>) {
    w.Some? ==> Tidy(w.value.tags)
  }

  ghost predicate TidyEntry(w: WireEntry) {
    forall v :: v in w.versions ==> TidyGray(v.gray)
  }

  /** Each map is written once per key. */
  ghost predicate TidyWire(w: WireBlob) {
    && (forall e :: e in w.entries ==> TidyEntry(e))
    && Tidy(w.grants) && (forall g :: g in w.grants ==> Tidy(g.1))
    && Tidy(w.usage)
  }

  predicate NoNilEntry(b: Blob) {
    forall e :: e in b.entries ==> e.Some?
  }

  function BigEndian(n: uint32): Bytes {
    [(n / 0x100_0000) as byte, (n / 0x1_0000 % 0x100) as byte, (n / 0x100 % 0x100) as byte, (n % 0x100) as byte]
  }

  function FromBigEndian(s: Bytes): int
    requires |s| == 4
  {
    s[0] as int * 0x100_0000 + s[1] as int * 0x1_0000 + s[2] as int * 0x100 + s[3] as int
  }

  lemma {:induction false} BigEndianRoundTrip(n: uint32)
    ensures FromBigEndian(BigEndian(n)) == n
  {
    var low := n / 0x100;
    var high := low / 0x100;
    assert n / 0x1_0000 == high && n / 0x100_0000 == high / 0x100;
  }

  /** Four bytes, the most significant first, are the big-endian form of one number alone. */
  lemma {:induction false} BigEndianIs(s: Bytes, n: uint32)
    requires |s| == 4
    ensures s == BigEndian(n) <==>
            n == s[0] as int * 0x100_0000 + s[1] as int * 0x1_0000 + s[2] as int * 0x100 + s[3] as int
  {
    BigEndianRoundTrip(n);
    if n == FromBigEndian(s) {
      var high := s[0] as int * 0x100 + s[1] as int;
      LastDigit(s[0] as int, s[1] as int);
      LastDigit(high, s[2] as int);
      LastDigit(high * 0x100 + s[2] as int, s[3] as int);
      assert n / 0x100 == high * 0x100 + s[2] as int;
      assert n / 0x1_0000 == n / 0x100 / 0x100 && n / 0x100_0000 == n / 0x1_0000 / 0x100;
      assert BigEndian(n)[0] == s[0] && BigEndian(n)[1] == s[1] && BigEndian(n)[2] == s[2] && BigEndian(n)[3] == s[3];
    }
  }

  lemma {:induction false} LastDigit(high: int, low: int)
    requires 0 <= high && 0 <= low < 0x100
    ensures (high * 0x100 + low) / 0x100 == high && (high * 0x100 + low) % 0x100 == low
  {}

  function Frame(body: Bytes, crc: Crc): Bytes {
    MAGIC + body + BigEndian(crc(body))
  }

  /** raw is the encoding of b under some iteration order of each of its maps. */
  ghost predicate Encodes(raw: Bytes, b: Blob, crc: Crc) {
    exists w :: TidyWire(w) && FromWire(w) == Settled(Tallied(b)) && raw == Frame(PutBlob(w, []), crc)
  }

  // ----- What decoding yields -----

  /** A text without the magic may still be a snapshot in JSON, which has no checksum. */
  function DecodeSpec(raw: Bytes, crc: Crc, json: Json): Result<Blob> {
    if |raw| < 8 then Err(Sentinel0(Snapshot))
    else if raw[..4] != MAGIC then
      match json(raw)
      case None => Err(Error(Snapshot, Lit("magic")))
      case Some(b) => Ok(if b.header.magic == [] then b.(header := b.header.(magic := MAGIC)) else b)
    else
      var body := raw[4..|raw| - 4];
      if FromBigEndian(raw[|raw| - 4..]) != crc(body) then Err(Sentinel0(Checksum))
      else match GetBlob(|body|, body)
        case Fails(err) => Err(err)
        case Got(w, _) => Ok(FromWire(w))
  }

  /** Whatever does not end in the checksum of its body is refused, damaged exports included. */
  lemma {:induction false} DamagedIsRefused(raw: Bytes, crc: Crc, json: Json)
    requires |raw| >= 8 && raw[..4] == MAGIC && raw[|raw| - 4..] != BigEndian(crc(raw[4..|raw| - 4]))
    ensures DecodeSpec(raw, crc, json) == Err(Error(Checksum, []))
  {
    hide GetBlob, FromWire;
    BigEndianIs(raw[|raw| - 4..], crc(raw[4..|raw| - 4]));
  }

  /** Without the magic it is read as JSON, whatever it ends in; shorter texts are refused even then. */
  lemma {:induction false} ForeignIsJson(raw: Bytes, crc: Crc, json: Json)
    requires |raw| < 8 || raw[..4] != MAGIC
    ensures DecodeSpec(raw, crc, json).Ok? <==> |raw| >= 8 && json(raw).Some?
    ensures DecodeSpec(raw, crc, json).Err? ==> DecodeSpec(raw, crc, json).error.kind == Snapshot
    ensures |raw| >= 8 && json(raw).Some? ==>
              var b := json(raw).value;
              DecodeSpec(raw, crc, json).value == b.(header := b.header.(magic :=
                if b.header.magic == [] then MAGIC else b.header.magic))
  {}

  /** Only what is framed by the magic and the checksum of its body is decoded, or what is JSON. */
  lemma {:induction false} DecodedIsFramed(raw: Bytes, crc: Crc, json: Json)
    requires DecodeSpec(raw, crc, json).Ok?
    ensures |raw| >= 8
    ensures if raw[..4] == MAGIC then raw == Frame(raw[4..|raw| - 4], crc) else json(raw).Some?
  {
    hide GetBlob, FromWire;
    BigEndianIs(raw[|raw| - 4..], crc(raw[4..|raw| - 4]));
    assert raw == raw[..4] + raw[4..|raw| - 4] + raw[|raw| - 4..];
  }

  /** An encoding whose body was changed is refused if the two bodies have different checksums, and
      always if its checksum was changed instead. */
  lemma {:induction false} ChangedIsRefused(raw: Bytes, b: Blob, crc: Crc, json: Json, raw': Bytes)
    requires Encodes(raw, b, crc) && |raw'| == |raw| && raw'[..4] == raw[..4]
    requires
      var n := |raw| - 4;
      || (raw'[n..] == raw[n..] && crc(raw'[4..n]) != crc(raw[4..n]))
      || (raw'[n..] != raw[n..] && raw'[4..n] == raw[4..n])
    ensures DecodeSpec(raw', crc, json) == Err(Error(Checksum, []))
  {
    hide DecodeSpec, TidyWire, FromWire, PutBlob, Settled, Tallied;
    var w :| TidyWire(w) && FromWire(w) == Settled(Tallied(b)) && raw == Frame(PutBlob(w, []), crc);
    FrameSplits(MAGIC, PutBlob(w, []), BigEndian(crc(PutBlob(w, []))));
    BigEndianRoundTrip(crc(raw[4..|raw| - 4]));
    BigEndianRoundTrip(crc(raw'[4..|raw| - 4]));
    DamagedIsRefused(raw', crc, json);
  }

  /** The body that is the number 2^63 alone, correctly framed, ends decoding in a panic: it is the
      length of the magic to be read. */
  lemma {:induction false} DecodeCanPanic(crc: Crc, json: Json)
    ensures var body := PutUvarint(I63, []);
            IsLength(|body|) && DecodeSpec(Frame(body, crc), crc, json) == Err(PANIC)
  {
    hide PutUvarint, GetUvarint, FromWire, SliceOf, FromBigEndian;
    var body := PutUvarint(I63, []);
    UvarintLength(I63);
    UvarintRoundTrip(I63, []);
    BytesPanicIff(|body|, body);
    FrameSplits(MAGIC, body, BigEndian(crc(body)));
    BigEndianRoundTrip(crc(body));
  }

  // ----- Every number and length of the blob fits Go's types -----

  predicate FitsStringMap(m: map<Bytes, Bytes>) {
    IsLength(|m|) && forall k :: k in m ==> IsLength(|k|) && IsLength(|m[k]|)
  }

  predicate FitsRule(g: Option<GrayRule>) {
    g.Some? ==>
      && IsInt64(g.value.percent)
      && |g.value.allowIDs| <= MAX_STRINGS && (forall id :: id in g.value.allowIDs ==> IsLength(|id|))
      && FitsStringMap(g.value.matchTags)
  }

  predicate FitsVersionMeta(v: VersionMeta) {
    && IsInt64(v.rev) && IsInt64(v.ts)
    && IsLength(|v.payload|) && IsLength(|v.sig|) && IsLength(|v.algo|) && IsLength(|v.author|)
    && FitsRule(v.gray)
  }

  predicate FitsStoredEntry(e: Entry) {
    && IsLength(|e.ns|) && IsLength(|e.key|) && IsInt64(e.head) && IsInt64(e.stable)
    && IsLength(|e.versions|) && forall v :: v in e.versions ==> FitsVersionMeta(v)
  }

  predicate Fits(b: Blob) {
    && IsLength(|b.header.magic|) && IsInt64(b.header.format) && IsInt64(b.header.createdAt)
    && IsLength(|b.namespaces|) && (forall n :: n in b.namespaces ==> FitsNamespace(n))
    && IsLength(|b.entries|) && (forall e :: e in b.entries && e.Some? ==> FitsStoredEntry(e.value))
    && (b.audit.Some? ==>
      IsLength(|b.audit.value|) && forall a :: a in b.audit.value ==> FitsAudit(a))
    && (b.grants.Some? ==>
      && IsLength(|b.grants.value|)
      && forall ns :: ns in b.grants.value ==> IsLength(|ns|) && FitsStringMap(b.grants.value[ns]))
    && (b.usage.Some? ==>
      && IsLength(|b.usage.value|)
      && forall ns :: ns in b.usage.value ==>
          IsLength(|ns|) && IsInt64(b.usage.value[ns].keys) && IsInt64(b.usage.value[ns].bytes))
  }

  lemma {:induction false} PairsFit(ps: seq<(Bytes, Bytes)>)
    requires Tidy(ps) && FitsStringMap(MapOf(ps))
    ensures FitsPairs(ps)
  {
    MapOfSize(ps);
    forall p | p in ps
      ensures IsLength(|p.0|) && IsLength(|p.1|)
    {
      var i :| 0 <= i < |ps| && ps[i] == p;
      MapOfHolds(ps, i);
    }
  }

  lemma {:induction false} VersionFits(w: WireVersion)
    requires TidyGray(w.gray) && FitsVersionMeta(FromVersion(w))
    ensures FitsVersion(w)
  {
    if w.gray.Some? {
      PairsFit(w.gray.value.tags);
    }
  }

  lemma {:induction false} EntryFits(w: WireEntry)
    requires TidyEntry(w) && FitsStoredEntry(FromEntry(w))
    ensures FitsEntry(w)
  {
    forall v | v in w.versions
      ensures FitsVersion(v)
    {
      var i :| 0 <= i < |w.versions| && w.versions[i] == v;
      assert FromEntry(w).versions[i] == FromVersion(v);
      VersionFits(v);
    }
  }

  lemma {:induction false} EntriesFit(ws: seq<WireEntry>)
    requires forall w :: w in ws ==> TidyEntry(w)
    requires forall e :: e in FromEntries(ws) && e.Some? ==> FitsStoredEntry(e.value)
    ensures forall w :: w in ws ==> FitsEntry(w)
  {
    forall w | w in ws
      ensures FitsEntry(w)
    {
      var i :| 0 <= i < |ws| && ws[i] == w;
      assert FromEntries(ws)[i] == Some(FromEntry(w));
      EntryFits(w);
    }
  }

  lemma {:induction false} TidyGrants(ws: seq<(Bytes, seq<(Bytes, Bytes)>)>)
    requires Tidy(ws)
    ensures Tidy(FromGrants(ws))
  {}

  lemma {:induction false} GrantsFit(ws: seq<(Bytes, seq<(Bytes, Bytes)>)>, m: map<Bytes, map<Bytes, Bytes>>)
    requires Tidy(ws) && m == MapOf(FromGrants(ws))
    requires forall g :: g in ws ==> Tidy(g.1)
    requires IsLength(|m|) && forall ns :: ns in m ==> IsLength(|ns|) && FitsStringMap(m[ns])
    ensures IsLength(|ws|) && forall g :: g in ws ==> IsLength(|g.0|) && FitsPairs(g.1)
  {
    TidyGrants(ws);
    MapOfSize(FromGrants(ws));
    forall g | g in ws
      ensures IsLength(|g.0|) && FitsPairs(g.1)
    {
      var i :| 0 <= i < |ws| && ws[i] == g;
      MapOfHolds(FromGrants(ws), i);
      PairsFit(g.1);
    }
  }

  lemma {:induction false} UsageFits(ws: seq<(Bytes, Usage)>, m: map<Bytes, Usage>)
    requires Tidy(ws) && m == MapOf(ws)
    requires IsLength(|m|)
    requires forall ns :: ns in m ==> IsLength(|ns|) && IsInt64(m[ns].keys) && IsInt64(m[ns].bytes)
    ensures IsLength(|ws|)
    ensures forall u :: u in ws ==> IsLength(|u.0|) && IsInt64(u.1.keys) && IsInt64(u.1.bytes)
  {
    MapOfSize(ws);
    forall u | u in ws
      ensures IsLength(|u.0|) && IsInt64(u.1.keys) && IsInt64(u.1.bytes)
    {
      var i :| 0 <= i < |ws| && ws[i] == u;
      MapOfHolds(ws, i);
    }
  }

  /** The parts of a wire value that encodes b. */
  lemma {:induction false} WireParts(w: WireBlob, b: Blob)
    requires FromWire(w) == Settled(Tallied(b))
    ensures w.magic == b.header.magic && w.format == b.header.format && w.createdAt == b.header.createdAt
    ensures w.namespaces == b.namespaces && FromEntries(w.entries) == b.entries
    ensures w.audit == if b.audit.Some? then b.audit.value else []
    ensures MapOf(FromGrants(w.grants)) == if b.grants.Some? then b.grants.value else map[]
    ensures MapOf(w.usage) == if b.usage.Some? then b.usage.value else map[]
  {
    var s := Settled(Tallied(b));
    assert s.grants == Some(MapOf(FromGrants(w.grants))) && s.usage == Some(MapOf(w.usage));
    assert s.entries == FromEntries(w.entries);
  }

  lemma {:induction false} WireFits(w: WireBlob, b: Blob)
    requires TidyWire(w) && FromWire(w) == Settled(Tallied(b)) && Fits(b)
    ensures FitsWire(w)
  {
    hide FromWire, Settled, Tallied, FitsNamespace, FitsStoredEntry, FitsEntry, FitsAudit, FitsStringMap, FitsPairs,
      TidyEntry, FromEntry, FromGrants, MapOf;
    WireParts(w, b);
    assert |w.entries| == |b.entries|;
    EntriesFit(w.entries);
    GrantsFit(w.grants, if b.grants.Some? then b.grants.value else map[]);
    UsageFits(w.usage, if b.usage.Some? then b.usage.value else map[]);
  }

  lemma {:induction false} FrameSplits(magic: Bytes, body: Bytes, sum: Bytes)
    requires |magic| == 4 && |sum| == 4
    ensures var raw := magic + body + sum;
            |raw| >= 8 && raw[..4] == magic && raw[4..|raw| - 4] == body && raw[|raw| - 4..] == sum
  {}

  /** Decoding inverts encoding: for every blob the program can hold, and every order in which
      its maps may have been written, decoding yields the blob itself with its counts brought up
      to date, up to missing versus empty. */
  lemma {:induction false} DecodeInvertsEncode(raw: Bytes, b: Blob, crc: Crc, json: Json)
    requires Encodes(raw, b, crc) && Fits(b) && IsLength(|raw|)
    ensures DecodeSpec(raw, crc, json) == Ok(Settled(Tallied(b)))
  {
    var w :| TidyWire(w) && FromWire(w) == Settled(Tallied(b)) && raw == Frame(PutBlob(w, []), crc);
    var body := PutBlob(w, []);
    WireFits(w, b);
    BlobRoundTrip(|body|, w, []);
    FrameSplits(MAGIC, body, BigEndian(crc(body)));
    BigEndianRoundTrip(crc(body));
  }

  /** Different snapshots never share an encoding. */
  lemma {:induction false} EncodingsIdentifyBlobs(raw: Bytes, b: Blob, b': Blob, crc: Crc)
    requires Encodes(raw, b, crc) && Encodes(raw, b', crc) && Fits(b) && Fits(b')
    requires IsLength(|raw|)
    ensures Settled(Tallied(b)) == Settled(Tallied(b'))
  {
    DecodeInvertsEncode(raw, b, crc, _ => None);
    DecodeInvertsEncode(raw, b', crc, _ => None);
  }
}
