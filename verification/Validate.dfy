/** internal/ns/validate.go: which ids and keys are accepted. */
module Validate {
  import opened Base
  import opened Text

  const MAX_NS_LEN := 64
  const MAX_KEY_LEN := 192
  const MAX_OWNER := 64
  const SLASH: byte := 47
  const DOT: byte := 46

  predicate IsLower(c: byte) {
    97 <= c <= 122
  }

  predicate IsDigit(c: byte) {
    48 <= c <= 57
  }

  predicate IsAlphanumeric(c: byte) {
    IsLower(c) || 65 <= c <= 90 || IsDigit(c)
  }

  /** Letters, digits, dot, underscore, hyphen and slash. */
  predicate IsKeyChar(c: byte) {
    IsAlphanumeric(c) || c == DOT || c == 95 || c == 45 || c == SLASH
  }

  predicate GoodSegment(seg: Bytes) {
    seg != [] && seg != [DOT] && seg != [DOT, DOT]
  }

  /** The keys the documentation describes: a slash-separated path of proper segments. */
  predicate IsKey(key: Bytes) {
    && 1 <= |key| <= MAX_KEY_LEN
    && (forall c :: c in key ==> IsKeyChar(c))
    && IsAlphanumeric(key[0])
    && forall seg :: seg in Split(key, SLASH) ==> GoodSegment(seg)
  }

  predicate IsNSChar(c: byte) {
    IsLower(c) || IsDigit(c) || c == 95 || c == 45
  }

  predicate IsNSID(id: Bytes) {
    && 1 <= |id| <= MAX_NS_LEN
    && IsLower(id[0])
    && forall i :: 0 < i < |id| ==> IsNSChar(id[i])
  }

  /** Validated ids and keys contain no NUL byte. */
  lemma {:induction false} ValidNamesHaveNoNul(id: Bytes, key: Bytes)
    ensures IsNSID(id) ==> 0 !in id
    ensures IsKey(key) ==> 0 !in key
  {}

  predicate IsOwner(owner: Bytes) {
    1 <= |owner| <= MAX_OWNER && 0 !in owner && Utf8Valid(owner)
  }

  predicate IsActor(actor: Bytes) {
    actor == [] || (|actor| <= MAX_OWNER && 0 !in actor)
  }

  /** The first characters of key up to i: its segments so far are done, the current one begins
      at start. */
  ghost predicate Scanned(key: Bytes, i: nat, start: nat, done: seq<Bytes>) {
    && start <= |key| && start <= i <= |key|
    && SLASH !in key[start..i]
    && Split(key, SLASH) == done + Split(key[start..], SLASH)
    && forall seg :: seg in done ==> GoodSegment(seg)
  }

  /** At the slash at position i the current segment ends. */
  lemma {:induction false} SegmentEnds(key: Bytes, i: nat, start: nat, done: seq<Bytes>)
    requires Scanned(key, i, start, done) && i < |key| && key[i] == SLASH
    ensures key[start..i] in Split(key, SLASH)
    ensures GoodSegment(key[start..i]) ==> Scanned(key, i + 1, i + 1, done + [key[start..i]])
  {
    var seg := key[start..i];
    var after := Split(key[i + 1..], SLASH);
    FirstSegment(key, start, i);
    assert done + ([seg] + after) == done + [seg] + after;
    assert Split(key, SLASH)[|done|] == seg;
  }

  lemma {:induction false} FirstSegment(key: Bytes, start: nat, i: nat)
    requires start <= i < |key| && key[i] == SLASH && SLASH !in key[start..i]
    ensures Split(key[start..], SLASH) == [key[start..i]] + Split(key[i + 1..], SLASH)
  {
    assert key[start..] == key[start..i] + [SLASH] + key[i + 1..];
    SplitAtSeparator(key[start..i], key[i + 1..], SLASH);
    SplitFree(key[start..i], SLASH);
  }

  lemma {:induction false} LastSegmentEnds(key: Bytes, start: nat, done: seq<Bytes>)
    requires Scanned(key, |key|, start, done)
    ensures Split(key, SLASH) == done + [key[start..|key|]]
    ensures key[start..|key|] in Split(key, SLASH)
  {
    assert key[start..|key|] == key[start..];
    SplitFree(key[start..], SLASH);
    assert Split(key, SLASH)[|done|] == key[start..|key|];
  }

  /** The scan over the key's characters and segments. */
  method ScanSegments(key: Bytes) returns (ok: bool)
    requires key != [] && key[0] != SLASH
    ensures ok <==> (forall k :: 0 <= k < |key| ==> IsKeyChar(key[k])) &&
                    forall seg :: seg in Split(key, SLASH) ==> GoodSegment(seg)
  {
    var segStart := 0;
    ghost var done: seq<Bytes> := [];
    assert key[0..] == key;
    assert [] + Split(key, SLASH) == Split(key, SLASH);
    var i := 0;
    while i <= |key|
      invariant 0 <= i <= |key| + 1
      invariant forall k :: 0 <= k < i && k < |key| ==> IsKeyChar(key[k])
      invariant i <= |key| ==> Scanned(key, i, segStart, done)
      invariant i == |key| + 1 ==> forall seg :: seg in Split(key, SLASH) ==> GoodSegment(seg)
    {
      if i < |key| {
        if !IsKeyChar(key[i]) {
          return false;
        }
        if key[i] != SLASH {
          Advance(key, i, segStart, done);
          i := i + 1;
          continue;
        }
        SegmentEnds(key, i, segStart, done);
      } else {
        LastSegmentEnds(key, segStart, done);
      }
      var seg := key[segStart..i];
      if !GoodSegment(seg) {
        return false;
      }
      if i == 0 {
        // The source tests the first character here as well; no segment ends this early.
        assert false;
      }
      done := done + [seg];
      segStart := i + 1;
      i := i + 1;
    }
    ok := true;
  }

  lemma {:induction false} Advance(key: Bytes, i: nat, start: nat, done: seq<Bytes>)
    requires Scanned(key, i, start, done) && i < |key| && key[i] != SLASH
    ensures Scanned(key, i + 1, start, done)
  {
    assert key[start..i + 1] == key[start..i] + [key[i]];
  }

  /** The scanner accepts exactly the keys. */
  method ValidKey(key: Bytes) returns (err: Option<Error>)
    ensures err == if IsKey(key) then None else Some(Error(InvalidKey, key))
  {
    var refuse := Some(Error(InvalidKey, key));
    if key == [] || |key| > MAX_KEY_LEN {
      return refuse;
    }
    if !Utf8Valid(key) || 0 in key {
      NotText(key);
      return refuse;
    }
    if key[0] == SLASH || key[|key| - 1] == SLASH {
      SlashAtAnEnd(key);
      return refuse;
    }
    var ok := ScanSegments(key);
    if !ok || !IsAlphanumeric(key[0]) {
      assert forall k :: 0 <= k < |key| ==> key[k] in key;
      return refuse;
    }
    err := None;
  }

  lemma {:induction false} NotText(key: Bytes)
    requires !Utf8Valid(key) || 0 in key
    ensures !IsKey(key)
  {
    if forall c :: c in key ==> IsKeyChar(c) {
      forall k | 0 <= k < |key|
        ensures key[k] < 0x80
      {
        assert key[k] in key;
      }
      AsciiIsUtf8(key);
    }
  }

  lemma {:induction false} SlashAtAnEnd(key: Bytes)
    requires key != [] && (key[0] == SLASH || key[|key| - 1] == SLASH)
    ensures [] in Split(key, SLASH)
  {
    var none: Bytes := [];
    if key[0] == SLASH {
      assert Split(key, SLASH)[0] == none;
    } else {
      var n := |key| - 1;
      assert key == key[..n] + [SLASH] + none;
      SplitAtSeparator(key[..n], none, SLASH);
      assert Split(key, SLASH)[|Split(key[..n], SLASH)|] == none;
    }
  }

  method ValidNSID(id: Bytes) returns (err: Option<Error>)
    ensures err == if IsNSID(id) then None else Some(Error(InvalidID, id))
  {
    var refuse := Some(Error(InvalidID, id));
    if id == [] || |id| > MAX_NS_LEN {
      return refuse;
    }
    if !Utf8Valid(id) {
      if IsNSID(id) {
        AsciiIsUtf8(id);
      }
      return refuse;
    }
    for i := 0 to |id|
      invariant i > 0 ==> IsLower(id[0]) && forall k :: 0 < k < i ==> IsNSChar(id[k])
    {
      if i == 0 {
        if !IsLower(id[0]) {
          return refuse;
        }
      } else if !IsNSChar(id[i]) {
        return refuse;
      }
    }
    err := None;
  }

  /** The limits: 192 bytes for a key, 64 for a namespace, an owner or an actor. */
  lemma {:induction false} LengthLimits(n: nat)
    ensures var name := seq(n, _ => 97);
            && (IsKey(name) <==> 1 <= n <= 192)
            && (IsNSID(name) <==> 1 <= n <= 64)
            && (IsOwner(name) <==> 1 <= n <= 64)
            && (IsActor(name) <==> n <= 64)
  {
    hide Utf8Valid, Split;
    var name: Bytes := seq(n, _ => 97);
    SplitFree(name, SLASH);
    AsciiIsUtf8(name);
  }

  /** The characters of keys and of namespace ids. */
  lemma {:induction false} CharactersAre(c: byte)
    ensures var ch := c as int as char;
            && (IsKeyChar(c) <==> 'a' <= ch <= 'z' || 'A' <= ch <= 'Z' || '0' <= ch <= '9' || ch in ['.', '_', '-', '/'])
            && (IsNSChar(c) <==> 'a' <= ch <= 'z' || '0' <= ch <= '9' || ch in ['_', '-'])
            && (IsAlphanumeric(c) <==> 'a' <= ch <= 'z' || 'A' <= ch <= 'Z' || '0' <= ch <= '9')
  {}

  /** Slash-free segments make a key exactly if none of them is empty, "." or "..", and their join is neither
      too long nor of other characters nor begins with punctuation. */
  lemma {:induction false} SegmentsMakeKeyIff(segs: seq<Bytes>)
    requires segs != [] && forall seg :: seg in segs ==> SLASH !in seg
    ensures var key := Join(segs, SLASH);
            IsKey(key) <==>
            && (forall seg :: seg in segs ==> seg != [] && seg != Lit(".") && seg != Lit(".."))
            && 1 <= |key| <= 192 && (forall c :: c in key ==> IsKeyChar(c)) && IsAlphanumeric(key[0])
  {
    SplitOfJoin(segs, SLASH);
    assert Lit(".") == [DOT] && Lit("..") == [DOT, DOT];
  }
}
