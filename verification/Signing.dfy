/** internal/sign: the bytes a signature covers, and signing and verifying with a key ring. The
    primitives are parameters; what is assumed of them is said where it is needed. */
module Signing {
  import opened Base
  import opened Text

  const LF: byte := 10
  const ALGO_HMAC: Bytes := Lit("hmac-sha256")
  const ALGO_ED25519: Bytes := Lit("ed25519")
  const ED_PUBLIC_SIZE := 32
  const ED_PRIVATE_SIZE := 64
  const ED_SIGNATURE_SIZE := 64

  datatype Crypto = Crypto(
    sha256: Bytes -> Bytes,
    hmac: (Bytes, Bytes) -> Bytes,
    edSign: (Bytes, Bytes) -> Bytes,
    edVerify: (Bytes, Bytes, Bytes) -> bool)

  // ----- canonical.go -----

  /** The lines of the message; the last line break leaves an empty line. */
  function CanonicalLines(sha256: Bytes -> Bytes, ns: Bytes, key: Bytes, rev: int, payload: Bytes): seq<Bytes> {
    [Lit("confhub-sign-v1"), Lit("ns=") + ns, Lit("key=") + key] +
    (if rev > 0 then [Lit("rev=") + FormatInt(rev)] else []) +
    [Lit("payload-len=") + FormatInt(|payload|), Lit("payload-sha256=") + Hex(sha256(payload)), []]
  }

  function Canonical(sha256: Bytes -> Bytes, ns: Bytes, key: Bytes, rev: int, payload: Bytes): Bytes {
    Join(CanonicalLines(sha256, ns, key, rev, payload), LF)
  }

  /** The whole text. */
  lemma {:induction false} CanonicalText(sha256: Bytes -> Bytes, ns: Bytes, key: Bytes, rev: int, payload: Bytes)
    ensures var named := Lit("confhub-sign-v1") + [10] + Lit("ns=") + ns + [10] + Lit("key=") + key + [10];
            var bound := if rev > 0 then named + Lit("rev=") + FormatInt(rev) + [10] else named;
            Canonical(sha256, ns, key, rev, payload) ==
            bound + Lit("payload-len=") + FormatInt(|payload|) + [10]
                  + Lit("payload-sha256=") + Hex(sha256(payload)) + [10]
  {
    hide Lit, FormatInt, Hex, Join;
    var lines := CanonicalLines(sha256, ns, key, rev, payload);
    var k := if rev > 0 then 4 else 3;
    var start: Bytes := [];
    var b := LineText(start, lines[0], start, lines);
    b := LineText(b, Lit("ns="), ns, lines[1..]);
    b := LineText(b, Lit("key="), key, lines[2..]);
    if rev > 0 {
      b := LineText(b, Lit("rev="), FormatInt(rev), lines[3..]);
    }
    b := LineText(b, Lit("payload-len="), FormatInt(|payload|), lines[k..]);
    b := LineText(b, Lit("payload-sha256="), Hex(sha256(payload)), lines[k + 1..]);
    EmptyLineIsNothing(b, lines[k + 2..]);
    assert start + lines[0] + start + [LF] == lines[0] + [LF];
    assert start + Join(lines, LF) == Join(lines, LF);
  }

  lemma {:induction false} LineText(b: Bytes, tag: Bytes, value: Bytes, lines: seq<Bytes>) returns (b': Bytes)
    requires |lines| >= 2 && lines[0] == tag + value
    ensures b' == b + tag + value + [LF] && b' + Join(lines[1..], LF) == b + Join(lines, LF)
  {
    b' := b + tag + value + [LF];
    assert b + lines[0] + [LF] == b';
    WriteLine(b, lines[0], lines, lines[1..]);
  }

  /** Writing one line keeps written-plus-remaining the same. */
  lemma {:induction false} WriteLine(b: Bytes, line: Bytes, lines: seq<Bytes>, rest: seq<Bytes>)
    requires lines == [line] + rest && rest != []
    ensures b + line + [LF] + Join(rest, LF) == b + Join(lines, LF)
  {
    assert lines[1..] == rest;
    assert b + line + [LF] + Join(rest, LF) == b + (line + [LF] + Join(rest, LF));
  }

  /** The message written line by line. */
  method WriteCanonical(sha256: Bytes -> Bytes, ns: Bytes, key: Bytes, rev: int, payload: Bytes) returns (b: Bytes)
    ensures b == Canonical(sha256, ns, key, rev, payload)
  {
    hide Join, Lit, FormatInt, Hex;
    ghost var lines := CanonicalLines(sha256, ns, key, rev, payload);
    b := [];
    var line := Lit("confhub-sign-v1");
    WriteLine(b, line, lines, lines[1..]);
    b := b + line + [LF];
    lines := lines[1..];
    line := Lit("ns=") + ns;
    WriteLine(b, line, lines, lines[1..]);
    b := b + line + [LF];
    lines := lines[1..];
    line := Lit("key=") + key;
    WriteLine(b, line, lines, lines[1..]);
    b := b + line + [LF];
    lines := lines[1..];
    if rev > 0 {
      line := Lit("rev=") + FormatInt(rev);
      WriteLine(b, line, lines, lines[1..]);
      b := b + line + [LF];
      lines := lines[1..];
    }
    line := Lit("payload-len=") + FormatInt(|payload|);
    WriteLine(b, line, lines, lines[1..]);
    b := b + line + [LF];
    lines := lines[1..];
    line := Lit("payload-sha256=") + Hex(sha256(payload));
    WriteLine(b, line, lines, lines[1..]);
    b := b + line + [LF];
    lines := lines[1..];
    EmptyLineIsNothing(b, lines);
  }

  lemma {:induction false} EmptyLineIsNothing(b: Bytes, lines: seq<Bytes>)
    requires lines == [[]]
    ensures b + Join(lines, LF) == b
  {}

  /** The revision a message is bound to; a revision of 0 or less binds to none. */
  function BoundRev(rev: int): int {
    if rev > 0 then rev else 0
  }

  lemma {:induction false} CanonicalLinesAreLines(sha256: Bytes -> Bytes, ns: Bytes, key: Bytes, rev: int, payload: Bytes)
    requires LF !in ns && LF !in key
    ensures forall line :: line in CanonicalLines(sha256, ns, key, rev, payload) ==> LF !in line
  {
    assert LF !in Lit("confhub-sign-v1") && LF !in Lit("ns=") && LF !in Lit("key=") && LF !in Lit("rev=");
    assert LF !in Lit("payload-len=") && LF !in Lit("payload-sha256=");
    assert LF !in FormatInt(|payload|) && (rev > 0 ==> LF !in FormatInt(rev));
  }

  lemma {:induction false} AfterLabel(tag: Bytes, x: Bytes, y: Bytes)
    requires tag + x == tag + y
    ensures x == y
  {
    assert (tag + x)[|tag|..] == x && (tag + y)[|tag|..] == y;
  }

  /** No two different messages are signed as one: namespace, key, bound revision, payload length
      and payload digest can all be read back off the signed bytes. */
  lemma {:induction false} CanonicalIsInjective(
      sha256: Bytes -> Bytes,
      ns: Bytes, key: Bytes, rev: int, payload: Bytes,
      ns': Bytes, key': Bytes, rev': int, payload': Bytes)
    requires LF !in ns && LF !in key && LF !in ns' && LF !in key'
    requires Canonical(sha256, ns, key, rev, payload) == Canonical(sha256, ns', key', rev', payload')
    ensures ns == ns' && key == key' && BoundRev(rev) == BoundRev(rev')
    ensures |payload| == |payload'| && sha256(payload) == sha256(payload')
  {
    var lines := CanonicalLines(sha256, ns, key, rev, payload);
    var lines' := CanonicalLines(sha256, ns', key', rev', payload');
    CanonicalLinesAreLines(sha256, ns, key, rev, payload);
    CanonicalLinesAreLines(sha256, ns', key', rev', payload');
    SplitOfJoin(lines, LF);
    SplitOfJoin(lines', LF);
    LinesIdentify(sha256, ns, key, rev, payload, ns', key', rev', payload');
  }

  lemma {:induction false} LinesIdentify(
      sha256: Bytes -> Bytes,
      ns: Bytes, key: Bytes, rev: int, payload: Bytes,
      ns': Bytes, key': Bytes, rev': int, payload': Bytes)
    requires CanonicalLines(sha256, ns, key, rev, payload) == CanonicalLines(sha256, ns', key', rev', payload')
    ensures ns == ns' && key == key' && BoundRev(rev) == BoundRev(rev')
    ensures |payload| == |payload'| && sha256(payload) == sha256(payload')
  {
    var lines := CanonicalLines(sha256, ns, key, rev, payload);
    var lines' := CanonicalLines(sha256, ns', key', rev', payload');
    var n := |lines|;
    assert n == if rev > 0 then 7 else 6;
    assert |lines'| == if rev' > 0 then 7 else 6;
    assert lines[1] == lines'[1] && lines[2] == lines'[2];
    AfterLabel(Lit("ns="), ns, ns');
    AfterLabel(Lit("key="), key, key');
    if rev > 0 {
      assert lines[3] == lines'[3];
      AfterLabel(Lit("rev="), FormatInt(rev), FormatInt(rev'));
      DecimalIsInjective(rev, rev');
    }
    assert lines[n - 3] == lines'[n - 3] && lines[n - 2] == lines'[n - 2];
    AfterLabel(Lit("payload-len="), FormatInt(|payload|), FormatInt(|payload'|));
    DecimalIsInjective(|payload|, |payload'|);
    AfterLabel(Lit("payload-sha256="), Hex(sha256(payload)), Hex(sha256(payload')));
    HexIsInjective(sha256(payload), sha256(payload'));
  }

  function NormalizeAlgo(algo: Bytes): Bytes {
    if algo == [] then []
    else if algo == ALGO_HMAC || algo == Lit("hmac") || algo == Lit("sha256") then ALGO_HMAC
    else if algo == ALGO_ED25519 || algo == Lit("ed") then ALGO_ED25519
    else algo
  }

  lemma {:induction false} AlgosDiffer()
    ensures ALGO_HMAC != ALGO_ED25519 && |ALGO_HMAC| == 11 && |ALGO_ED25519| == 7
    ensures ALGO_ED25519 != Lit("hmac") && ALGO_ED25519 != Lit("sha256")
  {
    assert |Lit("hmac")| == 4 && |Lit("sha256")| == 6;
  }

  lemma {:induction false} NormalizeAlgoIsIdempotent(algo: Bytes)
    ensures NormalizeAlgo(NormalizeAlgo(algo)) == NormalizeAlgo(algo)
  {
    AlgosDiffer();
  }

  // ----- keyring.go -----

  datatype KeyName = KeyName(ns: Bytes, id: Bytes, alg: Bytes)
  datatype EdKey = EdKey(pub: Bytes, priv: Bytes)

  /** The contents of a key ring. */
  datatype Keys = Keys(hmac: map<KeyName, Bytes>, ed: map<KeyName, EdKey>, deflt: Bytes) {
    function IDOrDefault(keyID: Bytes): Bytes {
      if keyID == [] then deflt else keyID
    }

    /** A key of the namespace itself wins over one for all namespaces. */
    function LookupHMAC(ns: Bytes, keyID: Bytes): Option<Bytes> {
      var id := IDOrDefault(keyID);
      if KeyName(ns, id, ALGO_HMAC) in hmac then Some(hmac[KeyName(ns, id, ALGO_HMAC)])
      else if KeyName([], id, ALGO_HMAC) in hmac then Some(hmac[KeyName([], id, ALGO_HMAC)])
      else None
    }

    function LookupEd(ns: Bytes, keyID: Bytes): Option<EdKey> {
      var id := IDOrDefault(keyID);
      if KeyName(ns, id, ALGO_ED25519) in ed then Some(ed[KeyName(ns, id, ALGO_ED25519)])
      else if KeyName([], id, ALGO_ED25519) in ed then Some(ed[KeyName([], id, ALGO_ED25519)])
      else None
    }

    function Sign(
        crypto: Crypto, ns: Bytes, key: Bytes, keyID: Bytes, algo: Bytes, rev: int, payload: Bytes): Result<Bytes>
    {
      var msg := Canonical(crypto.sha256, ns, key, rev, payload);
      var alg := NormalizeAlgo(algo);
      if alg == ALGO_HMAC || alg == [] then
        var secret := LookupHMAC(ns, keyID);
        if secret.None? then Err(Error(UnknownKey, keyID)) else Ok(crypto.hmac(secret.value, msg))
      else if alg == ALGO_ED25519 then
        var k := LookupEd(ns, keyID);
        if k.None? || |k.value.priv| != ED_PRIVATE_SIZE then Err(Error(UnknownKey, keyID))
        else Ok(crypto.edSign(k.value.priv, msg))
      else Err(Error(UnknownAlgo, alg))
    }

    /** None when the signature is good. */
    function Verify(crypto: Crypto, ns: Bytes, key: Bytes, keyID: Bytes, algo: Bytes, rev: int,
                    payload: Bytes, sig: Bytes): Option<Error>
    {
      var alg := if NormalizeAlgo(algo) == [] then ALGO_HMAC else NormalizeAlgo(algo);
      var msg := Canonical(crypto.sha256, ns, key, rev, payload);
      if sig == [] then Some(Sentinel0(SignFailed))
      else if alg == ALGO_HMAC then
        var secret := LookupHMAC(ns, keyID);
        if secret.None? then Some(Error(UnknownKey, keyID))
        else if secret.value == [] || crypto.hmac(secret.value, msg) != sig then Some(Sentinel0(SignFailed))
        else None
      else if alg == ALGO_ED25519 then
        var k := LookupEd(ns, keyID);
        if k.None? then Some(Error(UnknownKey, keyID))
        else if |k.value.pub| != ED_PUBLIC_SIZE || |sig| != ED_SIGNATURE_SIZE || !crypto.edVerify(k.value.pub, msg, sig) then
          Some(Sentinel0(SignFailed))
        else None
      else Some(Error(UnknownAlgo, alg))
    }

    /** No stored secret is empty, and every stored pair belongs together. */
    ghost predicate Consistent(crypto: Crypto) {
      && (forall k :: k in hmac ==> hmac[k] != [])
      && (forall k :: k in ed && |ed[k].priv| == ED_PRIVATE_SIZE ==>
        |ed[k].pub| == ED_PUBLIC_SIZE &&
        forall msg {:trigger crypto.edSign(ed[k].priv, msg)} ::
          |crypto.edSign(ed[k].priv, msg)| == ED_SIGNATURE_SIZE &&
          crypto.edVerify(ed[k].pub, msg, crypto.edSign(ed[k].priv, msg)))
    }
  }

  // ----- What a good signature is, by the key maps and the primitives -----

  /** The key of the namespace itself if there is one, otherwise the one for all namespaces. */
  function KeyUsed<K>(m: map<KeyName, K>, ns: Bytes, id: Bytes, alg: Bytes): KeyName {
    if KeyName(ns, id, alg) in m then KeyName(ns, id, alg) else KeyName([], id, alg)
  }

  ghost predicate GoodMAC(
      keys: Keys, crypto: Crypto, ns: Bytes, key: Bytes, keyID: Bytes, rev: int, payload: Bytes, sig: Bytes)
  {
    var id := if keyID == [] then keys.deflt else keyID;
    var name := KeyUsed(keys.hmac, ns, id, ALGO_HMAC);
    && name in keys.hmac && keys.hmac[name] != []
    && sig == crypto.hmac(keys.hmac[name], Canonical(crypto.sha256, ns, key, rev, payload))
  }

  ghost predicate GoodEd(
      keys: Keys, crypto: Crypto, ns: Bytes, key: Bytes, keyID: Bytes, rev: int, payload: Bytes, sig: Bytes)
  {
    var id := if keyID == [] then keys.deflt else keyID;
    var name := KeyUsed(keys.ed, ns, id, ALGO_ED25519);
    && name in keys.ed && |keys.ed[name].pub| == 32 && |sig| == 64
    && crypto.edVerify(keys.ed[name].pub, Canonical(crypto.sha256, ns, key, rev, payload), sig)
  }

  predicate MeansHMAC(algo: Bytes) {
    algo == [] || algo == Lit("hmac-sha256") || algo == Lit("hmac") || algo == Lit("sha256")
  }

  predicate MeansEd(algo: Bytes) {
    algo == Lit("ed25519") || algo == Lit("ed")
  }

  /** The signature is there and good for the algorithm named; no other algorithm has good ones. */
  ghost predicate GoodSignature(
      keys: Keys, crypto: Crypto, ns: Bytes, key: Bytes, keyID: Bytes, algo: Bytes, rev: int, payload: Bytes, sig: Bytes)
  {
    && sig != []
    && (|| (MeansHMAC(algo) && GoodMAC(keys, crypto, ns, key, keyID, rev, payload, sig))
        || (MeansEd(algo) && GoodEd(keys, crypto, ns, key, keyID, rev, payload, sig)))
  }

  /** A stored name means what was asked for, and is one of two. */
  lemma {:induction false} StoredNameMeansAlike(algo: Bytes)
    ensures var checked := if NormalizeAlgo(algo) == [] then ALGO_HMAC else NormalizeAlgo(algo);
            (MeansHMAC(checked) <==> MeansHMAC(algo)) && (MeansEd(checked) <==> MeansEd(algo))
    ensures !(MeansHMAC(algo) && MeansEd(algo))
    ensures MeansHMAC(algo) && algo != [] ==> NormalizeAlgo(algo) == Lit("hmac-sha256")
    ensures MeansEd(algo) ==> NormalizeAlgo(algo) == Lit("ed25519")
  {
    AlgosDiffer();
    assert |Lit("hmac")| == 4 && |Lit("sha256")| == 6 && |Lit("ed")| == 2;
  }

  /** A signature is accepted exactly when it is the MAC of the message under the key used, or verifies
      under the public key used, as the algorithm says. */
  lemma {:induction false} VerifyIff(
      keys: Keys, crypto: Crypto, ns: Bytes, key: Bytes, keyID: Bytes, algo: Bytes, rev: int, payload: Bytes, sig: Bytes)
    ensures keys.Verify(crypto, ns, key, keyID, algo, rev, payload, sig) == None <==>
            GoodSignature(keys, crypto, ns, key, keyID, algo, rev, payload, sig)
  {
    hide Canonical;
    AlgosDiffer();
  }

  /** Why a signature is refused. */
  lemma {:induction false} VerifyRefuses(
      keys: Keys, crypto: Crypto, ns: Bytes, key: Bytes, keyID: Bytes, algo: Bytes, rev: int, payload: Bytes, sig: Bytes)
    requires keys.Verify(crypto, ns, key, keyID, algo, rev, payload, sig).Some?
    ensures var id := if keyID == [] then keys.deflt else keyID;
            var kind := keys.Verify(crypto, ns, key, keyID, algo, rev, payload, sig).value.kind;
            && (kind == UnknownAlgo <==> sig != [] && !MeansHMAC(algo) && !MeansEd(algo))
            && (kind == UnknownKey <==>
                sig != [] &&
                ((MeansHMAC(algo) && KeyUsed(keys.hmac, ns, id, ALGO_HMAC) !in keys.hmac) ||
                 (MeansEd(algo) && KeyUsed(keys.ed, ns, id, ALGO_ED25519) !in keys.ed)))
            && kind in {SignFailed, UnknownAlgo, UnknownKey}
  {
    hide Canonical;
    AlgosDiffer();
  }

  /** Signing succeeds exactly when there is a key for the algorithm named, and yields what its primitive
      makes of the message. */
  lemma {:induction false} SignIff(
      keys: Keys, crypto: Crypto, ns: Bytes, key: Bytes, keyID: Bytes, algo: Bytes, rev: int, payload: Bytes)
    ensures var id := if keyID == [] then keys.deflt else keyID;
            var msg := Canonical(crypto.sha256, ns, key, rev, payload);
            var mac, ed := KeyUsed(keys.hmac, ns, id, ALGO_HMAC), KeyUsed(keys.ed, ns, id, ALGO_ED25519);
            var r := keys.Sign(crypto, ns, key, keyID, algo, rev, payload);
            if MeansHMAC(algo) then
              r == if mac in keys.hmac then Ok(crypto.hmac(keys.hmac[mac], msg)) else Err(Error(UnknownKey, keyID))
            else if MeansEd(algo) then
              r == if ed in keys.ed && |keys.ed[ed].priv| == 64 then Ok(crypto.edSign(keys.ed[ed].priv, msg))
                   else Err(Error(UnknownKey, keyID))
            else r == Err(Error(UnknownAlgo, algo))
  {
    hide Canonical;
    AlgosDiffer();
  }

  /** If no two messages have the same MAC, under whatever keys, a MAC is good for one namespace, key,
      bound revision, payload length and payload digest only. */
  lemma {:induction false} MACIsForOneMessage(
      crypto: Crypto, sig: Bytes,
      keys: Keys, ns: Bytes, key: Bytes, keyID: Bytes, rev: int, payload: Bytes,
      keys': Keys, ns': Bytes, key': Bytes, keyID': Bytes, rev': int, payload': Bytes)
    requires forall k, k', m, m' :: crypto.hmac(k, m) == crypto.hmac(k', m') ==> m == m'
    requires LF !in ns && LF !in key && LF !in ns' && LF !in key'
    requires GoodMAC(keys, crypto, ns, key, keyID, rev, payload, sig)
    requires GoodMAC(keys', crypto, ns', key', keyID', rev', payload', sig)
    ensures ns == ns' && key == key' && BoundRev(rev) == BoundRev(rev')
    ensures |payload| == |payload'| && crypto.sha256(payload) == crypto.sha256(payload')
  {
    hide Canonical;
    CanonicalIsInjective(crypto.sha256, ns, key, rev, payload, ns', key', rev', payload');
  }

  /** Whatever the ring signs, it verifies, under any spelling of the algorithm. */
  lemma {:induction false} VerifyAcceptsSign(
      keys: Keys, crypto: Crypto, ns: Bytes, key: Bytes, keyID: Bytes, algo: Bytes, rev: int, payload: Bytes)
    requires keys.Consistent(crypto)
    requires forall secret, msg :: crypto.hmac(secret, msg) != []
    requires keys.Sign(crypto, ns, key, keyID, algo, rev, payload).Ok?
    ensures keys.Verify(crypto, ns, key, keyID, algo, rev, payload,
                        keys.Sign(crypto, ns, key, keyID, algo, rev, payload).value) == None
  {
    AlgosDiffer();
  }

  class Keyring {
    var hmac: map<KeyName, Bytes>
    var ed: map<KeyName, EdKey>
    var deflt: Bytes

    function Contents(): Keys
      reads this
    {
      Keys(hmac, ed, deflt)
    }

    constructor ()
      ensures Contents() == Keys(map[], map[], Lit("default"))
    {
      hmac, ed, deflt := map[], map[], Lit("default");
    }

    method SetDefaultID(id: Bytes)
      modifies this
      ensures Contents() == if id == [] then old(Contents()) else old(Contents()).(deflt := id)
    {
      if id != [] {
        deflt := id;
      }
    }

    method PutHMAC(ns: Bytes, keyID: Bytes, secret: Bytes) returns (err: Option<Error>)
      modifies this
      ensures secret == [] ==> err == Some(Error(InvalidArg, Lit("empty hmac secret"))) && Contents() == old(Contents())
      ensures secret != [] ==>
                && err == None
                && Contents() == old(Contents()).(
                     hmac := old(hmac)[KeyName(ns, old(Contents()).IDOrDefault(keyID), ALGO_HMAC) := secret])
                && Contents().LookupHMAC(ns, keyID) == Some(secret)
    {
      if secret == [] {
        return Some(Error(InvalidArg, Lit("empty hmac secret")));
      }
      var id := if keyID == [] then deflt else keyID;
      hmac := hmac[KeyName(ns, id, ALGO_HMAC) := secret];
      err := None;
    }

    method PutEd(ns: Bytes, keyID: Bytes, pub: Bytes, priv: Bytes) returns (err: Option<Error>)
      modifies this
      ensures |pub| != ED_PUBLIC_SIZE ==> err == Some(Error(InvalidArg, Lit("ed public"))) && Contents() == old(Contents())
      ensures |pub| == ED_PUBLIC_SIZE ==>
                && err == None
                && Contents() == old(Contents()).(
                     ed := old(ed)[KeyName(ns, old(Contents()).IDOrDefault(keyID), ALGO_ED25519) := EdKey(pub, priv)])
                && Contents().LookupEd(ns, keyID) == Some(EdKey(pub, priv))
    {
      if |pub| != ED_PUBLIC_SIZE {
        return Some(Error(InvalidArg, Lit("ed public")));
      }
      var id := if keyID == [] then deflt else keyID;
      ed := ed[KeyName(ns, id, ALGO_ED25519) := EdKey(pub, priv)];
      err := None;
    }
  }
}
