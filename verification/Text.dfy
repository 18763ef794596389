/** The parts of Go's strings, strconv, encoding/hex and unicode/utf8 packages that the
    modelled code relies on. */
module Text {
  import opened Base

  // ----- strings.Split, strings.Join, strings.Cut with a one-byte separator -----

  function Split(s: Bytes, sep: byte): (parts: seq<Bytes>)
    ensures |parts| >= 1
  {
    if s == [] then [[]]
    else
      var rest := Split(s[1..], sep);
      if s[0] == sep then [[]] + rest else [[s[0]] + rest[0]] + rest[1..]
  }

  function Join(parts: seq<Bytes>, sep: byte): Bytes {
    if parts == [] then []
    else if |parts| == 1 then parts[0]
    else parts[0] + [sep] + Join(parts[1..], sep)
  }

  /** The text before and after the first separator, if there is one. */
  function Cut(s: Bytes, sep: byte): Option<(Bytes, Bytes)> {
    if s == [] then None
    else if s[0] == sep then Some(([], s[1..]))
    else match Cut(s[1..], sep)
      case None => None
      case Some((before, after)) => Some(([s[0]] + before, after))
  }

  lemma {:induction false} SplitFree(s: Bytes, sep: byte)
    requires sep !in s
    ensures Split(s, sep) == [s]
  {
    if s != [] {
      assert s[0] in s;
      SplitFree(s[1..], sep);
      assert [s[0]] + s[1..] == s;
    }
  }

  lemma {:induction false} SplitAtSeparator(a: Bytes, b: Bytes, sep: byte)
    ensures Split(a + [sep] + b, sep) == Split(a, sep) + Split(b, sep)
  {
    var whole := a + [sep] + b;
    if a == [] {
      assert whole[1..] == b;
    } else {
      assert whole[1..] == a[1..] + [sep] + b;
      SplitAtSeparator(a[1..], b, sep);
    }
  }

  /** The parts hold no separator and joining them gives the text back. */
  lemma {:induction false} JoinOfSplit(s: Bytes, sep: byte)
    ensures Join(Split(s, sep), sep) == s
    ensures forall part :: part in Split(s, sep) ==> sep !in part
  {
    if s != [] {
      JoinOfSplit(s[1..], sep);
      var rest := Split(s[1..], sep);
      if s[0] != sep {
        assert Split(s, sep)[1..] == rest[1..];
      } else {
        assert Split(s, sep)[1..] == rest;
      }
    }
  }

  lemma {:induction false} SplitOfJoin(parts: seq<Bytes>, sep: byte)
    requires parts != [] && forall part :: part in parts ==> sep !in part
    ensures Split(Join(parts, sep), sep) == parts
  {
    SplitFree(parts[0], sep);
    if |parts| > 1 {
      SplitOfJoin(parts[1..], sep);
      SplitAtSeparator(parts[0], Join(parts[1..], sep), sep);
    }
  }

  lemma {:induction false} CutAtSeparator(before: Bytes, after: Bytes, sep: byte)
    requires sep !in before
    ensures Cut(before + [sep] + after, sep) == Some((before, after))
  {
    var s := before + [sep] + after;
    if before != [] {
      assert before[0] in before;
      assert s[1..] == before[1..] + [sep] + after;
      CutAtSeparator(before[1..], after, sep);
      assert [before[0]] + before[1..] == before;
    } else {
      assert s[1..] == after;
    }
  }

  // ----- strings.TrimSpace -----

  /** Length of the white-space rune that s starts with, 0 if it starts with none. The runes are
      those of unicode.IsSpace, in UTF-8. */
  function LeadingSpace(s: Bytes): (n: nat)
    ensures n <= |s|
  {
    if |s| >= 1 && IsSpace1(s[0]) then 1
    else if |s| >= 2 && IsSpace2(s[0], s[1]) then 2
    else if |s| >= 3 && IsSpace3(s[0], s[1], s[2]) then 3
    else 0
  }

  function TrailingSpace(s: Bytes): (n: nat)
    ensures n <= |s|
  {
    if |s| >= 1 && IsSpace1(s[|s| - 1]) then 1
    else if |s| >= 2 && IsSpace2(s[|s| - 2], s[|s| - 1]) then 2
    else if |s| >= 3 && IsSpace3(s[|s| - 3], s[|s| - 2], s[|s| - 1]) then 3
    else 0
  }

  predicate IsSpace1(a: byte) {
    9 <= a <= 13 || a == 32
  }

  /** U+0085 and U+00A0. */
  predicate IsSpace2(a: byte, b: byte) {
    a == 0xC2 && (b == 0x85 || b == 0xA0)
  }

  /** U+1680, U+2000 to U+200A, U+2028, U+2029, U+202F, U+205F and U+3000. */
  predicate IsSpace3(a: byte, b: byte, c: byte) {
    || (a == 0xE1 && b == 0x9A && c == 0x80)
    || (a == 0xE2 && b == 0x80 && (0x80 <= c <= 0x8A || c == 0xA8 || c == 0xA9 || c == 0xAF))
    || (a == 0xE2 && b == 0x81 && c == 0x9F)
    || (a == 0xE3 && b == 0x80 && c == 0x80)
  }

  function TrimLeft(s: Bytes): Bytes {
    if LeadingSpace(s) == 0 then s else TrimLeft(s[LeadingSpace(s)..])
  }

  function TrimRight(s: Bytes): Bytes {
    if TrailingSpace(s) == 0 then s else TrimRight(s[..|s| - TrailingSpace(s)])
  }

  function TrimSpace(s: Bytes): Bytes {
    TrimRight(TrimLeft(s))
  }

  /** No white space at either end. */
  predicate Trimmed(s: Bytes) {
    LeadingSpace(s) == 0 && TrailingSpace(s) == 0
  }

  lemma {:induction false} TrimLeftStops(s: Bytes)
    ensures LeadingSpace(TrimLeft(s)) == 0
  {
    if LeadingSpace(s) != 0 {
      TrimLeftStops(s[LeadingSpace(s)..]);
    }
  }

  lemma {:induction false} TrimRightStops(s: Bytes)
    ensures TrailingSpace(TrimRight(s)) == 0
    ensures TrimRight(s) <= s
  {
    if TrailingSpace(s) != 0 {
      TrimRightStops(s[..|s| - TrailingSpace(s)]);
    }
  }

  /** Trimming leaves a trimmed text, and leaves trimmed texts alone. */
  lemma {:induction false} TrimSpaceStops(s: Bytes)
    ensures Trimmed(TrimSpace(s))
    ensures Trimmed(s) <==> TrimSpace(s) == s
  {
    TrimLeftStops(s);
    TrimRightStops(TrimLeft(s));
  }

  /** White space from front to back, and from back to front. */
  predicate AllSpace(s: Bytes) {
    s == [] || (LeadingSpace(s) > 0 && AllSpace(s[LeadingSpace(s)..]))
  }

  predicate AllSpaceBack(s: Bytes) {
    s == [] || (TrailingSpace(s) > 0 && AllSpaceBack(s[..|s| - TrailingSpace(s)]))
  }

  /** Trimming takes nothing but white space away. */
  lemma {:induction false} TrimSpaceTakesSpace(s: Bytes) returns (i: nat, j: nat)
    ensures i <= j <= |s| && TrimSpace(s) == s[i..j] && AllSpace(s[..i]) && AllSpaceBack(s[j..])
  {
    hide TrimLeft, TrimRight, AllSpace, AllSpaceBack;
    i := TrimLeftTakesSpace(s);
    j := i + |TrimSpace(s)|;
    TrimRightTakesSpace(s[i..]);
    assert s[i..][|TrimSpace(s)|..] == s[j..];
  }

  lemma {:induction false} TrimLeftTakesSpace(s: Bytes) returns (i: nat)
    ensures i <= |s| && TrimLeft(s) == s[i..] && AllSpace(s[..i])
  {
    hide LeadingSpace, TrailingSpace;
    var n := LeadingSpace(s);
    if n == 0 {
      i := 0;
    } else {
      var k := TrimLeftTakesSpace(s[n..]);
      i := n + k;
      LeadingSpaceStays(s, s[..i]);
      assert s[..i][n..] == s[n..][..k];
      assert s[n..][k..] == s[i..];
    }
  }

  lemma {:induction false} LeadingSpaceStays(s: Bytes, a: Bytes)
    requires 0 < LeadingSpace(s) <= |a| <= |s| && a == s[..|a|]
    ensures LeadingSpace(a) == LeadingSpace(s)
  {}

  lemma {:induction false} TrimRightTakesSpace(s: Bytes)
    ensures TrimRight(s) <= s && AllSpaceBack(s[|TrimRight(s)|..])
  {
    hide LeadingSpace, TrailingSpace;
    var n, k := TrailingSpace(s), |TrimRight(s)|;
    TrimRightStops(s);
    if n > 0 {
      var m := |s| - n;
      TrimRightStops(s[..m]);
      TrimRightTakesSpace(s[..m]);
      TrailingSpaceStays(s, s[k..]);
      assert s[k..][..m - k] == s[..m][k..];
    }
  }

  lemma {:induction false} TrailingSpaceStays(s: Bytes, b: Bytes)
    requires 0 < TrailingSpace(s) <= |b| <= |s| && b == s[|s| - |b|..]
    ensures TrailingSpace(b) == TrailingSpace(s)
  {}

  /** Text with an ASCII mark inside is trimmed when what surrounds the mark is. */
  lemma {:induction false} TrimmedAroundMark(a: Bytes, mark: byte, b: Bytes)
    requires mark < 0x80 && !IsSpace1(mark)
    ensures LeadingSpace(a) == 0 ==> LeadingSpace(a + [mark] + b) == 0
    ensures TrailingSpace(b) == 0 ==> TrailingSpace(a + [mark] + b) == 0
  {}

  // ----- strconv.FormatInt in base 10, hex.EncodeToString -----

  function DecimalNat(n: nat): (s: Bytes)
    ensures |s| >= 1
    ensures forall c :: c in s ==> 48 <= c <= 57
  {
    if n < 10 then [(48 + n) as byte] else DecimalNat(n / 10) + [(48 + n % 10) as byte]
  }

  function FormatInt(n: int): Bytes {
    if n < 0 then Lit("-") + DecimalNat(-n) else DecimalNat(n)
  }

  function DecimalValue(s: Bytes): int {
    if s == [] then 0 else 10 * DecimalValue(s[..|s| - 1]) + s[|s| - 1] as int - 48
  }

  /** The digits are those of the number, without leading zeros. */
  lemma {:induction false} DecimalReads(n: nat)
    ensures DecimalValue(DecimalNat(n)) == n && (DecimalNat(n)[0] == 48 ==> n == 0)
  {
    if n < 10 {
      assert DecimalNat(n)[..0] == [];
    } else {
      var s := DecimalNat(n);
      DecimalReads(n / 10);
      assert s[..|s| - 1] == DecimalNat(n / 10);
    }
  }

  lemma {:induction false} DecimalIsInjective(m: nat, n: nat)
    requires DecimalNat(m) == DecimalNat(n)
    ensures m == n
  {
    var s := DecimalNat(m);
    assert s[|s| - 1] == (48 + m % 10) as byte == (48 + n % 10) as byte;
    if m < 10 || n < 10 {
    } else {
      assert s[..|s| - 1] == DecimalNat(m / 10) == DecimalNat(n / 10);
      DecimalIsInjective(m / 10, n / 10);
    }
  }

  function HexDigit(d: int): byte
    requires 0 <= d < 16
  {
    if d < 10 then (48 + d) as byte else (87 + d) as byte
  }

  function Hex(s: Bytes): (r: Bytes)
    ensures |r| == 2 * |s|
    ensures 10 !in r
  {
    if s == [] then []
    else [HexDigit(s[0] as int / 16), HexDigit(s[0] as int % 16)] + Hex(s[1..])
  }

  /** Two digits a byte, the high one first, in lower case. */
  lemma {:induction false} HexDigits(s: Bytes, i: nat)
    requires i < |s|
    ensures Hex(s)[2 * i..2 * i + 2] == [HexDigit(s[i] as int / 16), HexDigit(s[i] as int % 16)]
  {
    hide HexDigit;
    if i > 0 {
      HexDigits(s[1..], i - 1);
      assert Hex(s)[2..] == Hex(s[1..]);
      assert Hex(s)[2 * i..2 * i + 2] == Hex(s)[2..][2 * i - 2..2 * i];
    }
  }

  lemma {:induction false} HexDigitIs(d: int)
    requires 0 <= d < 16
    ensures [HexDigit(d)] == Lit("0123456789abcdef"[d..d + 1])
  {}

  lemma {:induction false} HexIsInjective(s: Bytes, t: Bytes)
    requires Hex(s) == Hex(t)
    ensures s == t
  {
    assert |s| == |t|;
    if s != [] {
      assert Hex(s)[0] == Hex(t)[0] && Hex(s)[1] == Hex(t)[1];
      assert s[0] as int / 16 == t[0] as int / 16 && s[0] as int % 16 == t[0] as int % 16;
      assert Hex(s)[2..] == Hex(s[1..]) && Hex(t)[2..] == Hex(t[1..]);
      HexIsInjective(s[1..], t[1..]);
      assert s == [s[0]] + s[1..] && t == [t[0]] + t[1..];
    }
  }

  // ----- utf8.Valid -----

  predicate Continuation(b: byte) {
    0x80 <= b <= 0xBF
  }

  /** The bounds of the second byte after a leading byte of a longer rune. */
  predicate SecondByte(a: byte, b: byte) {
    (if a == 0xE0 then 0xA0 else if a == 0xF0 then 0x90 else 0x80) <= b <=
    (if a == 0xED then 0x9F else if a == 0xF4 then 0x8F else 0xBF)
  }

  predicate Utf8Valid(s: Bytes) {
    if s == [] then true
    else if s[0] < 0x80 then Utf8Valid(s[1..])
    else if 0xC2 <= s[0] <= 0xDF then |s| >= 2 && Continuation(s[1]) && Utf8Valid(s[2..])
    else if 0xE0 <= s[0] <= 0xEF then
      |s| >= 3 && SecondByte(s[0], s[1]) && Continuation(s[2]) && Utf8Valid(s[3..])
    else if 0xF0 <= s[0] <= 0xF4 then
      && |s| >= 4 && SecondByte(s[0], s[1]) && Continuation(s[2]) && Continuation(s[3])
      && Utf8Valid(s[4..])
    else false
  }

  lemma {:induction false} AsciiIsUtf8(s: Bytes)
    requires forall i :: 0 <= i < |s| ==> s[i] < 0x80
    ensures Utf8Valid(s)
  {
    if s != [] {
      assert s[0] in s;
      AsciiIsUtf8(s[1..]);
    }
  }

  /** A Unicode scalar value: no surrogate. */
  predicate IsScalar(c: int) {
    0 <= c < 0xD800 || 0xE000 <= c <= 0x10FFFF
  }

  /** Section 3 of RFC 3629. */
  function Utf8(c: int): Bytes
    requires IsScalar(c)
  {
    if c < 0x80 then [c as byte]
    else if c < 0x800 then [(0xC0 + c / 64) as byte, (0x80 + c % 64) as byte]
    else if c < 0x1_0000 then
      [(0xE0 + c / 4096) as byte, (0x80 + c / 64 % 64) as byte, (0x80 + c % 64) as byte]
    else
      [(0xF0 + c / 262144) as byte, (0x80 + c / 4096 % 64) as byte, (0x80 + c / 64 % 64) as byte,
       (0x80 + c % 64) as byte]
  }

  function Utf8Text(cs: seq<int>): Bytes
    requires forall c :: c in cs ==> IsScalar(c)
  {
    if cs == [] then [] else Utf8(cs[0]) + Utf8Text(cs[1..])
  }

  lemma {:induction false} Utf8Starts(c: int, rest: Bytes)
    requires IsScalar(c)
    ensures Utf8Valid(Utf8(c) + rest) <==> Utf8Valid(rest)
  {
    var u := Utf8(c);
    var s := u + rest;
    assert s[|u|..] == rest;
    assert c >= 0x800 ==> SecondByte(u[0], u[1]);
  }

  lemma {:induction false} SixBits(high: int, low: int)
    requires 0 <= high && 0 <= low < 64
    ensures (high * 64 + low) / 64 == high && (high * 64 + low) % 64 == low
  {}

  lemma {:induction false} TwoByteRune(a: byte, b: byte) returns (c: int)
    requires 0xC2 <= a <= 0xDF && Continuation(b)
    ensures IsScalar(c) && Utf8(c) == [a, b]
  {
    c := (a as int - 0xC0) * 64 + (b as int - 0x80);
    SixBits(a as int - 0xC0, b as int - 0x80);
  }

  lemma {:induction false} ThreeByteRune(a: byte, b: byte, d: byte) returns (c: int)
    requires 0xE0 <= a <= 0xEF && SecondByte(a, b) && Continuation(d)
    ensures IsScalar(c) && Utf8(c) == [a, b, d]
  {
    var high := (a as int - 0xE0) * 64 + (b as int - 0x80);
    c := high * 64 + (d as int - 0x80);
    SixBits(a as int - 0xE0, b as int - 0x80);
    SixBits(high, d as int - 0x80);
    assert c / 4096 == c / 64 / 64;
  }

  lemma {:induction false} FourByteRune(a: byte, b: byte, d: byte, e: byte) returns (c: int)
    requires 0xF0 <= a <= 0xF4 && SecondByte(a, b) && Continuation(d) && Continuation(e)
    ensures IsScalar(c) && Utf8(c) == [a, b, d, e]
  {
    var high := (a as int - 0xF0) * 64 + (b as int - 0x80);
    var mid := high * 64 + (d as int - 0x80);
    c := mid * 64 + (e as int - 0x80);
    SixBits(a as int - 0xF0, b as int - 0x80);
    SixBits(high, d as int - 0x80);
    SixBits(mid, e as int - 0x80);
    assert c / 4096 == c / 64 / 64 && c / 262144 == c / 4096 / 64;
  }

  /** The first rune, and its length in bytes. */
  lemma {:induction false} Utf8FirstRune(s: Bytes) returns (c: int, n: nat)
    requires s != [] && Utf8Valid(s)
    ensures IsScalar(c) && 0 < n <= |s| && s[..n] == Utf8(c) && Utf8Valid(s[n..])
  {
    hide SecondByte, Continuation;
    if s[0] < 0x80 {
      c, n := s[0] as int, 1;
    } else {
      hide Utf8;
      if s[0] <= 0xDF {
        n := 2;
        c := TwoByteRune(s[0], s[1]);
      } else if s[0] <= 0xEF {
        n := 3;
        c := ThreeByteRune(s[0], s[1], s[2]);
      } else {
        n := 4;
        c := FourByteRune(s[0], s[1], s[2], s[3]);
      }
    }
  }

  /** A text is valid exactly when it is the encoding of scalar values. */
  lemma {:induction false} Utf8ValidIff(s: Bytes)
    ensures Utf8Valid(s) <==> exists cs: seq<int> :: (forall c :: c in cs ==> IsScalar(c)) && s == Utf8Text(cs)
  {
    if Utf8Valid(s) {
      var cs := Utf8Runes(s);
    }
    if cs: seq<int> :| (forall c :: c in cs ==> IsScalar(c)) && s == Utf8Text(cs) {
      Utf8TextIsValid(cs);
    }
  }

  lemma {:induction false} Utf8TextIsValid(cs: seq<int>)
    requires forall c :: c in cs ==> IsScalar(c)
    ensures Utf8Valid(Utf8Text(cs))
  {
    hide Utf8;
    if cs != [] {
      Utf8TextIsValid(cs[1..]);
      Utf8Starts(cs[0], Utf8Text(cs[1..]));
    }
  }

  lemma {:induction false} Utf8Runes(s: Bytes) returns (cs: seq<int>)
    requires Utf8Valid(s)
    ensures (forall c :: c in cs ==> IsScalar(c)) && s == Utf8Text(cs)
  {
    hide Utf8, Utf8Valid;
    if s == [] {
      cs := [];
    } else {
      var c, n := Utf8FirstRune(s);
      var rest := Utf8Runes(s[n..]);
      cs := [c] + rest;
      assert cs[1..] == rest;
      assert s == s[..n] + s[n..];
    }
  }
}
