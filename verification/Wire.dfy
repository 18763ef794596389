/** The byte format of internal/snapshot, as printers and parsers on values.

    PutX(x, rest) is the encoding of x followed by the bytes rest; GetX(s) reads one x off the
    front of s and hands back what follows it. A map travels as the list of its items in the
    order in which Go happened to iterate it, so the wire types hold lists where the blob holds
    maps. */
module Wire {
  import opened Base
  import opened Meta

  const U64: int := 0x1_0000_0000_0000_0000
  const I63: int := 0x8000_0000_0000_0000

  const MALFORMED: Error := Sentinel0(Snapshot)
  const PANIC: Error := Sentinel0(Panicked)

  /** Fails carries the error returned, or Panicked. */
  datatype Parsed<+T> = Got(value: T, rest: Bytes) | Fails(error: Error) {
    predicate IsFailure() {
      Fails?
    }

    function PropagateFailure<U>(): Parsed<U>
      requires Fails?
    {
      Fails(error)
    }

    function Extract(): (T, Bytes)
      requires Got?
    {
      (value, rest)
    }
  }

  // ----- ULEB128 (encoding/binary's Uvarint) -----

  function PutUvarint(v: nat, rest: Bytes): Bytes {
    if v < 128 then [v as byte] + rest else [(v % 128 + 128) as byte] + PutUvarint(v / 128, rest)
  }

  /** The value of a group of bytes: seven bits each, the lowest first. */
  function SevenBits(s: Bytes): nat {
    if s == [] then 0 else s[0] as int % 128 + 128 * SevenBits(s[1..])
  }

  /** A written number carries its value in seven bits a byte, all bytes but the last have the top bit
      set, and no byte is wasted. */
  lemma {:induction false} UvarintIsLEB128(v: nat)
    ensures var s := PutUvarint(v, []);
            && s != [] && SevenBits(s) == v
            && (forall i :: 0 <= i < |s| - 1 ==> s[i] >= 128) && s[|s| - 1] < 128
            && (|s| > 1 ==> s[|s| - 1] != 0)
  {
    var s := PutUvarint(v, []);
    if v >= 128 {
      UvarintIsLEB128(v / 128);
      assert s[1..] == PutUvarint(v / 128, []);
      assert forall i :: 1 <= i < |s| ==> s[i] == s[1..][i - 1];
    } else {
      assert s == [v as byte] && s[1..] == [];
    }
  }

  /** Reading from the i-th byte of a number on: at most ten bytes, and the tenth at most 1. */
  function GetUvarintFrom(s: Bytes, i: nat): (p: Parsed<nat>)
    ensures p.Got? ==> |p.rest| < |s| && p.rest == s[|s| - |p.rest|..]
  {
    if s == [] || i == 10 then Fails(MALFORMED)
    else if s[0] < 128 then
      if i == 9 && s[0] > 1 then Fails(MALFORMED) else Got(s[0] as int, s[1..])
    else match GetUvarintFrom(s[1..], i + 1)
      case Fails(err) => Fails(err)
      case Got(v, rest) => Got(s[0] as int - 128 + 128 * v, rest)
  }

  function GetUvarint(s: Bytes): (p: Parsed<nat>)
    ensures p.Got? ==> |p.rest| < |s| && p.rest == s[|s| - |p.rest|..]
  {
    GetUvarintFrom(s, 0)
  }

  /** 2^64 / 128^i, the numbers that can still be written from the i-th byte on. */
  function Room(i: nat): int
    requires i <= 9
  {
    [0x1_0000_0000_0000_0000, 0x200_0000_0000_0000, 0x4_0000_0000_0000, 0x800_0000_0000, 0x10_0000_0000,
     0x2000_0000, 0x40_0000, 0x8000, 0x100, 2][i]
  }

  lemma {:induction false} UvarintFromRoundTrip(v: nat, i: nat, rest: Bytes)
    requires i <= 9 && v < Room(i)
    ensures GetUvarintFrom(PutUvarint(v, rest), i) == Got(v, rest)
    decreases v
  {
    var s := PutUvarint(v, rest);
    if v < 128 {
      assert s[1..] == rest;
    } else {
      assert i < 9 && Room(i) == 128 * Room(i + 1);
      UvarintFromRoundTrip(v / 128, i + 1, rest);
      assert s[1..] == PutUvarint(v / 128, rest);
    }
  }

  lemma {:induction false} UvarintRoundTrip(v: nat, rest: Bytes)
    requires v < U64
    ensures GetUvarint(PutUvarint(v, rest)) == Got(v, rest)
  {
    UvarintFromRoundTrip(v, 0, rest);
  }

  /** Whatever is read fits 64 bits. */
  lemma {:induction false} UvarintIsBounded(s: Bytes, i: nat)
    requires i <= 9
    ensures GetUvarintFrom(s, i).Got? ==> GetUvarintFrom(s, i).value < Room(i)
  {
    if s != [] && s[0] >= 128 && i < 9 {
      assert Room(i) == 128 * Room(i + 1);
      UvarintIsBounded(s[1..], i + 1);
    }
  }

  lemma {:induction false} UvarintLength(v: nat)
    ensures 1 <= |PutUvarint(v, [])| <= 1 + v / 128
  {
    if v >= 128 {
      UvarintLength(v / 128);
    }
  }

  // ----- int64 as uint64, and byte strings -----

  /** uint64(v) */
  function ToUnsigned(v: int): nat {
    v % U64
  }

  /** int64(u) */
  function ToSigned(u: nat): int {
    if u < I63 then u else u - U64
  }

  predicate IsInt64(v: int) {
    -I63 <= v < I63
  }

  /** The length of any Go slice or map. */
  predicate IsLength(n: nat) {
    n < I63
  }

  function PutI64(v: int, rest: Bytes): Bytes {
    PutUvarint(ToUnsigned(v), rest)
  }

  function GetI64(s: Bytes): Parsed<int> {
    var (u, s1) :- GetUvarint(s);
    Got(ToSigned(u), s1)
  }

  /** Exactly the 64-bit integers survive, negative ones included. */
  lemma {:induction false} I64RoundTrip(v: int, rest: Bytes)
    ensures GetI64(PutI64(v, rest)) == Got(v, rest) <==> IsInt64(v)
  {
    UvarintRoundTrip(ToUnsigned(v), rest);
  }

  function PutBytes(p: Bytes, rest: Bytes): Bytes {
    PutUvarint(|p|, p + rest)
  }

  // ----- The bound check of a string, in 64-bit integers -----

  datatype Slice = Bounds(lo: nat, hi: nat) | TooLong | OutOfRange

  /** A length u has been read, and the cursor stands at i of len: the sum is compared in 64 bits,
      then the slice expression needs its bounds in order. */
  function SliceOf(len: nat, i: nat, u: nat): Slice {
    var hi := ToSigned(ToUnsigned(i + ToSigned(u)));
    if hi > len then TooLong else if hi < i then OutOfRange else Bounds(i, hi)
  }

  /** The slice expression panics, where an error was meant, exactly when length and cursor add up to
      2^63 or more; otherwise the check is exact. */
  lemma {:induction false} SliceFailsIff(len: nat, i: nat, u: nat)
    requires i <= len && IsLength(len) && u < U64
    ensures SliceOf(len, i, u).OutOfRange? <==> i + u >= I63
    ensures i + u < I63 ==> SliceOf(len, i, u) == if i + u > len then TooLong else Bounds(i, i + u)
  {
    var n := i + ToSigned(u);
    assert ToUnsigned(n) == if n < 0 then n + U64 else n;
  }

  lemma {:induction false} SliceInside(len: nat, i: nat, u: nat)
    requires i + u <= len && i + u < I63
    ensures SliceOf(len, i, u) == Bounds(i, i + u)
  {}

  /** Where the cursor stands when s is left of a body of the given length. */
  function Cursor(len: nat, s: Bytes): nat {
    if |s| <= len then len - |s| else 0
  }

  /** len is the length of the whole body. */
  function GetBytes(len: nat, s: Bytes): Parsed<Bytes> {
    var (u, s1) :- GetUvarint(s);
    var i := Cursor(len, s1);
    match SliceOf(i + |s1|, i, u)
    case Bounds(lo, hi) => Got(s1[..hi - lo], s1[hi - lo..])
    case TooLong => Fails(MALFORMED)
    case OutOfRange => Fails(PANIC)
  }

  /** Reading a string panics exactly when its length and the cursor behind it add up to 2^63 or
      more. */
  lemma {:induction false} BytesPanicIff(len: nat, s: Bytes)
    requires |s| <= len && IsLength(len)
    ensures GetBytes(len, s) == Fails(PANIC) <==>
            var p := GetUvarint(s); p.Got? && len - |p.rest| + p.value >= I63
  {
    hide SliceOf;
    UvarintIsBounded(s, 0);
    UvarintFailsMalformed(s, 0);
    var p := GetUvarint(s);
    if p.Got? {
      SliceFailsIff(len, len - |p.rest|, p.value);
    }
  }

  lemma {:induction false} UvarintFailsMalformed(s: Bytes, i: nat)
    ensures GetUvarintFrom(s, i).Fails? ==> GetUvarintFrom(s, i).error == MALFORMED
  {
    if s != [] && s[0] >= 128 && i != 10 {
      UvarintFailsMalformed(s[1..], i + 1);
    }
  }

  lemma {:induction false} BytesRoundTrip(len: nat, p: Bytes, rest: Bytes)
    requires IsLength(len) && IsLength(|p|)
    ensures GetBytes(len, PutBytes(p, rest)) == Got(p, rest)
  {
    hide SliceOf, PutUvarint, GetUvarint;
    var s := p + rest;
    UvarintRoundTrip(|p|, s);
    SliceInside(Cursor(len, s) + |s|, Cursor(len, s), |p|);
    assert s[..|p|] == p && s[|p|..] == rest;
  }

  // ----- Lists -----

  function PutMany<T>(put: (T, Bytes) -> Bytes, xs: seq<T>, rest: Bytes): Bytes {
    if xs == [] then rest else put(xs[0], PutMany(put, xs[1..], rest))
  }

  function GetMany<T>(len: nat, get: (nat, Bytes) -> Parsed<T>, n: nat, s: Bytes): Parsed<seq<T>> {
    if n == 0 then Got([], s)
    else
      var (x, s1) :- get(len, s);
      var (xs, s2) :- GetMany(len, get, n - 1, s1);
      Got([x] + xs, s2)
  }

  function PutList<T>(put: (T, Bytes) -> Bytes, xs: seq<T>, rest: Bytes): Bytes {
    PutUvarint(|xs|, PutMany(put, xs, rest))
  }

  function GetList<T>(len: nat, get: (nat, Bytes) -> Parsed<T>, s: Bytes): Parsed<seq<T>> {
    var (n, s1) :- GetUvarint(s);
    GetMany(len, get, n, s1)
  }

  /** get reads back everything that put writes for x, whatever follows. */
  ghost predicate Inverts<T(!new)>(len: nat, get: (nat, Bytes) -> Parsed<T>, put: (T, Bytes) -> Bytes, x: T) {
    forall rest: Bytes :: get(len, put(x, rest)) == Got(x, rest)
  }

  lemma {:induction false} ManyRoundTrip<T(!new)>(
      len: nat, get: (nat, Bytes) -> Parsed<T>, put: (T, Bytes) -> Bytes, xs: seq<T>, rest: Bytes)
    requires forall x :: x in xs ==> Inverts(len, get, put, x)
    ensures GetMany(len, get, |xs|, PutMany(put, xs, rest)) == Got(xs, rest)
  {
    if xs != [] {
      assert Inverts(len, get, put, xs[0]);
      ManyRoundTrip(len, get, put, xs[1..], rest);
      assert xs == [xs[0]] + xs[1..];
    }
  }

  lemma {:induction false} ListRoundTrip<T(!new)>(
      len: nat, get: (nat, Bytes) -> Parsed<T>, put: (T, Bytes) -> Bytes, xs: seq<T>, rest: Bytes)
    requires IsLength(|xs|) && forall x :: x in xs ==> Inverts(len, get, put, x)
    ensures GetList(len, get, PutList(put, xs, rest)) == Got(xs, rest)
  {
    UvarintRoundTrip(|xs|, PutMany(put, xs, rest));
    ManyRoundTrip(len, get, put, xs, rest);
  }

  /** Writing one more element after the ones already written. */
  lemma {:induction false} ManySnoc<T>(put: (T, Bytes) -> Bytes, xs: seq<T>, x: T, rest: Bytes)
    ensures PutMany(put, xs + [x], rest) == PutMany(put, xs, put(x, rest))
  {
    if xs == [] {
      assert (xs + [x])[1..] == [];
    } else {
      assert (xs + [x])[1..] == xs[1..] + [x];
      ManySnoc(put, xs[1..], x, rest);
    }
  }

  // ----- Maps as lists of items -----

  /** What a loop that stores the items one after the other ends up with. */
  function MapOf<K, V>(items: seq<(K, V)>): map<K, V> {
    if items == [] then map[]
    else MapOf(items[..|items| - 1])[items[|items| - 1].0 := items[|items| - 1].1]
  }

  /** Of several items with the same key the last one counts. */
  lemma {:induction false} LastItemCounts<K, V>(items: seq<(K, V)>, i: nat)
    requires i < |items| && forall j :: i < j < |items| ==> items[j].0 != items[i].0
    ensures items[i].0 in MapOf(items) && MapOf(items)[items[i].0] == items[i].1
  {
    if i < |items| - 1 {
      LastItemCounts(items[..|items| - 1], i);
    }
  }

  /** No key twice: the items of some map, in some order. */
  ghost predicate Tidy<K, V>(items: seq<(K, V)>) {
    forall i, j :: 0 <= i < j < |items| ==> items[i].0 != items[j].0
  }

  lemma {:induction false} MapOfComesFrom<K, V>(items: seq<(K, V)>, k: K) returns (i: nat)
    requires k in MapOf(items)
    ensures i < |items| && items[i] == (k, MapOf(items)[k])
  {
    var n := |items| - 1;
    if k == items[n].0 {
      i := n;
    } else {
      i := MapOfComesFrom(items[..n], k);
    }
  }

  lemma {:induction false} MapOfHolds<K, V>(items: seq<(K, V)>, i: nat)
    requires Tidy(items) && i < |items|
    ensures items[i].0 in MapOf(items) && MapOf(items)[items[i].0] == items[i].1
  {
    if i < |items| - 1 {
      MapOfHolds(items[..|items| - 1], i);
    }
  }

  lemma {:induction false} MapOfSize<K, V>(items: seq<(K, V)>)
    requires Tidy(items)
    ensures |MapOf(items)| == |items|
  {
    if items != [] {
      var n := |items| - 1;
      MapOfSize(items[..n]);
      if items[n].0 in MapOf(items[..n]) {
        var i := MapOfComesFrom(items[..n], items[n].0);
        assert false;
      }
    }
  }

  // ----- Gray rules -----

  datatype WireGray = WireGray(percent: int, allowIDs: seq<Bytes>, tags: seq<(Bytes, Bytes)>)

  function PutPair(p: (Bytes, Bytes), rest: Bytes): Bytes {
    PutBytes(p.0, PutBytes(p.1, rest))
  }

  function GetPair(len: nat, s: Bytes): Parsed<(Bytes, Bytes)> {
    var (k, s1) :- GetBytes(len, s);
    var (v, s2) :- GetBytes(len, s1);
    Got((k, v), s2)
  }

  function PutGray(g: Option<WireGray>, rest: Bytes): Bytes {
    match g
    case None => PutUvarint(0, rest)
    case Some(r) =>
      PutUvarint(1, PutI64(r.percent, PutList(PutBytes, r.allowIDs, PutList(PutPair, r.tags, rest))))
  }

  /** The largest slice of strings Go can allocate on a 64-bit platform: 2^48 bytes, 16 per string. */
  const MAX_STRINGS: nat := 0x1000_0000_0000

  /** The source allocates room for all the strings as soon as it has read their number. */
  function GetStrings(len: nat, s: Bytes): Parsed<seq<Bytes>> {
    var (n, s1) :- GetUvarint(s);
    if n > MAX_STRINGS then Fails(PANIC) else GetMany(len, GetBytes, n, s1)
  }

  function GetGray(len: nat, s: Bytes): Parsed<Option<WireGray>> {
    var (flag, s1) :- GetUvarint(s);
    if flag == 0 then Got(None, s1)
    else
      var (percent, s2) :- GetI64(s1);
      var (allowIDs, s3) :- GetStrings(len, s2);
      var (tags, s4) :- GetList(len, GetPair, s3);
      Got(Some(WireGray(percent, allowIDs, tags)), s4)
  }

  predicate FitsPairs(ps: seq<(Bytes, Bytes)>) {
    IsLength(|ps|) && forall p :: p in ps ==> IsLength(|p.0|) && IsLength(|p.1|)
  }

  predicate FitsGray(g: Option<WireGray>) {
    g.Some? ==>
      && IsInt64(g.value.percent)
      && |g.value.allowIDs| <= MAX_STRINGS && (forall id :: id in g.value.allowIDs ==> IsLength(|id|))
      && FitsPairs(g.value.tags)
  }

  lemma {:induction false} PairsRoundTrip(len: nat, ps: seq<(Bytes, Bytes)>, rest: Bytes)
    requires IsLength(len) && FitsPairs(ps)
    ensures GetList(len, GetPair, PutList(PutPair, ps, rest)) == Got(ps, rest)
  {
    forall p, r | p in ps
      ensures GetPair(len, PutPair(p, r)) == Got(p, r)
    {
      BytesRoundTrip(len, p.0, PutBytes(p.1, r));
      BytesRoundTrip(len, p.1, r);
    }
    ListRoundTrip(len, GetPair, PutPair, ps, rest);
  }

  lemma {:induction false} GrayRoundTrip(len: nat, g: Option<WireGray>, rest: Bytes)
    requires IsLength(len) && FitsGray(g)
    ensures GetGray(len, PutGray(g, rest)) == Got(g, rest)
  {
    match g {
      case None =>
        UvarintRoundTrip(0, rest);
      case Some(r) =>
        var s3 := PutList(PutPair, r.tags, rest);
        var s2 := PutList(PutBytes, r.allowIDs, s3);
        UvarintRoundTrip(1, PutI64(r.percent, s2));
        I64RoundTrip(r.percent, s2);
        forall id, t | id in r.allowIDs
          ensures GetBytes(len, PutBytes(id, t)) == Got(id, t)
        {
          BytesRoundTrip(len, id, t);
        }
        UvarintRoundTrip(|r.allowIDs|, PutMany(PutBytes, r.allowIDs, s3));
        ManyRoundTrip(len, GetBytes, PutBytes, r.allowIDs, s3);
        PairsRoundTrip(len, r.tags, rest);
    }
  }

  // ----- Namespaces, entries with their versions -----

  datatype WireVersion = WireVersion(
    rev: int, payload: Bytes, sig: Bytes, algo: Bytes, author: Bytes, ts: int, gray: Option<WireGray>)

  datatype WireEntry = WireEntry(ns: Bytes, key: Bytes, head: int, stable: int, versions: seq<WireVersion>)

  function PutNamespace(n: Namespace, rest: Bytes): Bytes {
    PutBytes(n.id, PutBytes(n.owner, PutI64(n.createdAt, PutI64(n.maxKeys, PutI64(n.maxBytes, rest)))))
  }

  function GetNamespace(len: nat, s: Bytes): Parsed<Namespace> {
    var (id, s1) :- GetBytes(len, s);
    var (owner, s2) :- GetBytes(len, s1);
    var (createdAt, s3) :- GetI64(s2);
    var (maxKeys, s4) :- GetI64(s3);
    var (maxBytes, s5) :- GetI64(s4);
    Got(Namespace(id, owner, createdAt, maxKeys, maxBytes), s5)
  }

  predicate FitsNamespace(n: Namespace) {
    && IsLength(|n.id|) && IsLength(|n.owner|)
    && IsInt64(n.createdAt) && IsInt64(n.maxKeys) && IsInt64(n.maxBytes)
  }

  lemma {:induction false} NamespaceRoundTrip(len: nat, n: Namespace, rest: Bytes)
    requires IsLength(len) && FitsNamespace(n)
    ensures GetNamespace(len, PutNamespace(n, rest)) == Got(n, rest)
  {
    var s5 := rest;
    var s4 := PutI64(n.maxBytes, s5);
    var s3 := PutI64(n.maxKeys, s4);
    var s2 := PutI64(n.createdAt, s3);
    var s1 := PutBytes(n.owner, s2);
    BytesRoundTrip(len, n.id, s1);
    BytesRoundTrip(len, n.owner, s2);
    I64RoundTrip(n.createdAt, s3);
    I64RoundTrip(n.maxKeys, s4);
    I64RoundTrip(n.maxBytes, s5);
  }

  function PutVersion(v: WireVersion, rest: Bytes): Bytes {
    PutI64(v.rev, PutBytes(v.payload, PutBytes(v.sig, PutBytes(v.algo, PutBytes(v.author,
      PutI64(v.ts, PutGray(v.gray, rest)))))))
  }

  function GetVersion(len: nat, s: Bytes): Parsed<WireVersion> {
    var (rev, s1) :- GetI64(s);
    var (payload, s2) :- GetBytes(len, s1);
    var (sig, s3) :- GetBytes(len, s2);
    var (algo, s4) :- GetBytes(len, s3);
    var (author, s5) :- GetBytes(len, s4);
    var (ts, s6) :- GetI64(s5);
    var (gray, s7) :- GetGray(len, s6);
    Got(WireVersion(rev, payload, sig, algo, author, ts, gray), s7)
  }

  predicate FitsVersion(v: WireVersion) {
    && IsInt64(v.rev) && IsInt64(v.ts)
    && IsLength(|v.payload|) && IsLength(|v.sig|) && IsLength(|v.algo|) && IsLength(|v.author|)
    && FitsGray(v.gray)
  }

  lemma {:induction false} VersionRoundTrip(len: nat, v: WireVersion, rest: Bytes)
    requires IsLength(len) && FitsVersion(v)
    ensures GetVersion(len, PutVersion(v, rest)) == Got(v, rest)
  {
    var s6 := PutGray(v.gray, rest);
    var s5 := PutI64(v.ts, s6);
    var s4 := PutBytes(v.author, s5);
    var s3 := PutBytes(v.algo, s4);
    var s2 := PutBytes(v.sig, s3);
    var s1 := PutBytes(v.payload, s2);
    I64RoundTrip(v.rev, s1);
    BytesRoundTrip(len, v.payload, s2);
    BytesRoundTrip(len, v.sig, s3);
    BytesRoundTrip(len, v.algo, s4);
    BytesRoundTrip(len, v.author, s5);
    I64RoundTrip(v.ts, s6);
    GrayRoundTrip(len, v.gray, rest);
  }

  function PutEntry(e: WireEntry, rest: Bytes): Bytes {
    PutBytes(e.ns, PutBytes(e.key, PutI64(e.head, PutI64(e.stable, PutList(PutVersion, e.versions, rest)))))
  }

  function GetEntry(len: nat, s: Bytes): Parsed<WireEntry> {
    var (ns, s1) :- GetBytes(len, s);
    var (key, s2) :- GetBytes(len, s1);
    var (head, s3) :- GetI64(s2);
    var (stable, s4) :- GetI64(s3);
    var (versions, s5) :- GetList(len, GetVersion, s4);
    Got(WireEntry(ns, key, head, stable, versions), s5)
  }

  predicate FitsEntry(e: WireEntry) {
    && IsLength(|e.ns|) && IsLength(|e.key|) && IsInt64(e.head) && IsInt64(e.stable)
    && IsLength(|e.versions|) && forall v :: v in e.versions ==> FitsVersion(v)
  }

  lemma {:induction false} EntryRoundTrip(len: nat, e: WireEntry, rest: Bytes)
    requires IsLength(len) && FitsEntry(e)
    ensures GetEntry(len, PutEntry(e, rest)) == Got(e, rest)
  {
    var s4 := PutList(PutVersion, e.versions, rest);
    var s3 := PutI64(e.stable, s4);
    var s2 := PutI64(e.head, s3);
    var s1 := PutBytes(e.key, s2);
    BytesRoundTrip(len, e.ns, s1);
    BytesRoundTrip(len, e.key, s2);
    I64RoundTrip(e.head, s3);
    I64RoundTrip(e.stable, s4);
    forall v, t | v in e.versions
      ensures GetVersion(len, PutVersion(v, t)) == Got(v, t)
    {
      VersionRoundTrip(len, v, t);
    }
    ListRoundTrip(len, GetVersion, PutVersion, e.versions, rest);
  }

  // ----- Audit records, grants, usage -----

  function PutAudit(a: AuditRecord, rest: Bytes): Bytes {
    PutI64(a.seqNo, PutI64(a.ts, PutBytes(a.ns, PutBytes(a.key, PutI64(a.rev, PutBytes(a.kind,
      PutBytes(a.actor, PutBytes(a.detail, PutI64(a.bytes, PutUvarint(if a.ok then 1 else 0,
      PutBytes(a.err, rest)))))))))))
  }

  function GetAudit(len: nat, s: Bytes): Parsed<AuditRecord> {
    var (seqNo, s1) :- GetI64(s);
    var (ts, s2) :- GetI64(s1);
    var (ns, s3) :- GetBytes(len, s2);
    var (key, s4) :- GetBytes(len, s3);
    var (rev, s5) :- GetI64(s4);
    var (kind, s6) :- GetBytes(len, s5);
    var (actor, s7) :- GetBytes(len, s6);
    var (detail, s8) :- GetBytes(len, s7);
    var (bytes, s9) :- GetI64(s8);
    var (ok, s10) :- GetUvarint(s9);
    var (err, s11) :- GetBytes(len, s10);
    Got(AuditRecord(seqNo, ts, ns, key, rev, kind, actor, detail, bytes, ok == 1, err), s11)
  }

  predicate FitsAudit(a: AuditRecord) {
    && IsInt64(a.seqNo) && IsInt64(a.ts) && IsInt64(a.rev) && IsInt64(a.bytes)
    && IsLength(|a.ns|) && IsLength(|a.key|) && IsLength(|a.kind|) && IsLength(|a.actor|)
    && IsLength(|a.detail|) && IsLength(|a.err|)
  }

  lemma {:induction false} AuditRoundTrip(len: nat, a: AuditRecord, rest: Bytes)
    requires IsLength(len) && FitsAudit(a)
    ensures GetAudit(len, PutAudit(a, rest)) == Got(a, rest)
  {
    var s10 := PutBytes(a.err, rest);
    var s9 := PutUvarint(if a.ok then 1 else 0, s10);
    var s8 := PutI64(a.bytes, s9);
    var s7 := PutBytes(a.detail, s8);
    var s6 := PutBytes(a.actor, s7);
    var s5 := PutBytes(a.kind, s6);
    var s4 := PutI64(a.rev, s5);
    var s3 := PutBytes(a.key, s4);
    var s2 := PutBytes(a.ns, s3);
    var s1 := PutI64(a.ts, s2);
    I64RoundTrip(a.seqNo, s1);
    I64RoundTrip(a.ts, s2);
    BytesRoundTrip(len, a.ns, s3);
    BytesRoundTrip(len, a.key, s4);
    I64RoundTrip(a.rev, s5);
    BytesRoundTrip(len, a.kind, s6);
    BytesRoundTrip(len, a.actor, s7);
    BytesRoundTrip(len, a.detail, s8);
    I64RoundTrip(a.bytes, s9);
    UvarintRoundTrip(if a.ok then 1 else 0, s10);
    BytesRoundTrip(len, a.err, rest);
  }

  function PutGrant(g: (Bytes, seq<(Bytes, Bytes)>), rest: Bytes): Bytes {
    PutBytes(g.0, PutList(PutPair, g.1, rest))
  }

  function GetGrant(len: nat, s: Bytes): Parsed<(Bytes, seq<(Bytes, Bytes)>)> {
    var (ns, s1) :- GetBytes(len, s);
    var (subs, s2) :- GetList(len, GetPair, s1);
    Got((ns, subs), s2)
  }

  function PutUsage(u: (Bytes, Usage), rest: Bytes): Bytes {
    PutBytes(u.0, PutI64(u.1.keys, PutI64(u.1.bytes, rest)))
  }

  function GetUsage(len: nat, s: Bytes): Parsed<(Bytes, Usage)> {
    var (ns, s1) :- GetBytes(len, s);
    var (keys, s2) :- GetI64(s1);
    var (bytes, s3) :- GetI64(s2);
    Got((ns, Usage(keys, bytes)), s3)
  }

  lemma {:induction false} GrantRoundTrip(len: nat, g: (Bytes, seq<(Bytes, Bytes)>), rest: Bytes)
    requires IsLength(len) && IsLength(|g.0|) && FitsPairs(g.1)
    ensures GetGrant(len, PutGrant(g, rest)) == Got(g, rest)
  {
    BytesRoundTrip(len, g.0, PutList(PutPair, g.1, rest));
    PairsRoundTrip(len, g.1, rest);
  }

  lemma {:induction false} UsageRoundTrip(len: nat, u: (Bytes, Usage), rest: Bytes)
    requires IsLength(len) && IsLength(|u.0|) && IsInt64(u.1.keys) && IsInt64(u.1.bytes)
    ensures GetUsage(len, PutUsage(u, rest)) == Got(u, rest)
  {
    var s2 := PutI64(u.1.bytes, rest);
    var s1 := PutI64(u.1.keys, s2);
    BytesRoundTrip(len, u.0, s1);
    I64RoundTrip(u.1.keys, s2);
    I64RoundTrip(u.1.bytes, rest);
  }

  // ----- The whole body -----

  datatype WireBlob = WireBlob(
    magic: Bytes, format: int, createdAt: int,
    namespaces: seq<Namespace>,
    entries: seq<WireEntry>,
    audit: seq<AuditRecord>,
    grants: seq<(Bytes, seq<(Bytes, Bytes)>)>,
    usage: seq<(Bytes, Usage)>)

  function PutBlob(w: WireBlob, rest: Bytes): Bytes {
    PutBytes(w.magic, PutI64(w.format, PutI64(w.createdAt,
      PutList(PutNamespace, w.namespaces, PutList(PutEntry, w.entries, PutList(PutAudit, w.audit,
      PutList(PutGrant, w.grants, PutList(PutUsage, w.usage, rest))))))))
  }

  function GetBlob(len: nat, s: Bytes): Parsed<WireBlob> {
    var (magic, s1) :- GetBytes(len, s);
    var (format, s2) :- GetI64(s1);
    var (createdAt, s3) :- GetI64(s2);
    var (namespaces, s4) :- GetList(len, GetNamespace, s3);
    var (entries, s5) :- GetList(len, GetEntry, s4);
    var (audit, s6) :- GetList(len, GetAudit, s5);
    var (grants, s7) :- GetList(len, GetGrant, s6);
    var (usage, s8) :- GetList(len, GetUsage, s7);
    Got(WireBlob(magic, format, createdAt, namespaces, entries, audit, grants, usage), s8)
  }

  /** Every number and length is one that Go's 64-bit types can hold. */
  predicate FitsWire(w: WireBlob) {
    && IsLength(|w.magic|) && IsInt64(w.format) && IsInt64(w.createdAt)
    && IsLength(|w.namespaces|) && (forall n :: n in w.namespaces ==> FitsNamespace(n))
    && IsLength(|w.entries|) && (forall e :: e in w.entries ==> FitsEntry(e))
    && IsLength(|w.audit|) && (forall a :: a in w.audit ==> FitsAudit(a))
    && IsLength(|w.grants|) && (forall g :: g in w.grants ==> IsLength(|g.0|) && FitsPairs(g.1))
    && IsLength(|w.usage|)
    && (forall u :: u in w.usage ==> IsLength(|u.0|) && IsInt64(u.1.keys) && IsInt64(u.1.bytes))
  }

  /** The parser inverts the printer on everything the program can hold, and stops exactly where
      the printer stopped. */
  lemma {:induction false} BlobRoundTrip(len: nat, w: WireBlob, rest: Bytes)
    requires IsLength(len) && FitsWire(w)
    ensures GetBlob(len, PutBlob(w, rest)) == Got(w, rest)
  {
    var s7 := PutList(PutUsage, w.usage, rest);
    var s6 := PutList(PutGrant, w.grants, s7);
    var s5 := PutList(PutAudit, w.audit, s6);
    var s4 := PutList(PutEntry, w.entries, s5);
    var s3 := PutList(PutNamespace, w.namespaces, s4);
    var s2 := PutI64(w.createdAt, s3);
    var s1 := PutI64(w.format, s2);
    BytesRoundTrip(len, w.magic, s1);
    I64RoundTrip(w.format, s2);
    I64RoundTrip(w.createdAt, s3);
    forall x, t | x in w.namespaces ensures GetNamespace(len, PutNamespace(x, t)) == Got(x, t) {
      NamespaceRoundTrip(len, x, t);
    }
    ListRoundTrip(len, GetNamespace, PutNamespace, w.namespaces, s4);
    forall x, t | x in w.entries ensures GetEntry(len, PutEntry(x, t)) == Got(x, t) {
      EntryRoundTrip(len, x, t);
    }
    ListRoundTrip(len, GetEntry, PutEntry, w.entries, s5);
    forall x, t | x in w.audit ensures GetAudit(len, PutAudit(x, t)) == Got(x, t) {
      AuditRoundTrip(len, x, t);
    }
    ListRoundTrip(len, GetAudit, PutAudit, w.audit, s6);
    forall x, t | x in w.grants ensures GetGrant(len, PutGrant(x, t)) == Got(x, t) {
      GrantRoundTrip(len, x, t);
    }
    ListRoundTrip(len, GetGrant, PutGrant, w.grants, s7);
    forall x, t | x in w.usage ensures GetUsage(len, PutUsage(x, t)) == Got(x, t) {
      UsageRoundTrip(len, x, t);
    }
    ListRoundTrip(len, GetUsage, PutUsage, w.usage, rest);
  }

  /** The code is prefix-free: two encodings that start the same stream are the same. */
  lemma {:induction false} BlobCodeIsPrefixFree(w: WireBlob, w': WireBlob, rest: Bytes, rest': Bytes)
    requires FitsWire(w) && FitsWire(w') && PutBlob(w, rest) == PutBlob(w', rest')
    ensures w == w' && rest == rest'
  {
    BlobRoundTrip(0, w, rest);
    BlobRoundTrip(0, w', rest');
  }
}
