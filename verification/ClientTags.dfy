/** internal/clientctx/context.go: the tag header, printed by ApplyTo and read by ParseTags. */
module ClientTags {
  import opened Base
  import opened Text
  import opened Gray

  const COMMA: byte := 44
  const EQUALS: byte := 61
  const COLON: byte := 58

  // ----- Parsing -----

  /** The tag one part of the header stands for, if any. */
  function PartTag(part: Bytes): Option<(Bytes, Bytes)> {
    var p := TrimSpace(part);
    if p == [] then None
    else
      var (k, v) := match Cut(p, EQUALS)
        case Some(kv) => kv
        case None => match Cut(p, COLON)
          case Some(kv) => kv
          case None => (p, []);
      if TrimSpace(k) == [] then None else Some((TrimSpace(k), TrimSpace(v)))
  }

  /** A part is read as key and value around its first "=", or else around its first ":", or else as a key
      alone. */
  lemma {:induction false} PartForms(k: Bytes, v: Bytes)
    requires k != [] && Trimmed(k) && Trimmed(v) && EQUALS !in k
    ensures PartTag(k + [EQUALS] + v) == Some((k, v))
    ensures EQUALS !in v && COLON !in k ==> PartTag(k + [COLON] + v) == Some((k, v))
    ensures COLON !in k ==> PartTag(k) == Some((k, []))
  {
    PrintedPartReadsBack(k, v);
    TrimSpaceStops(k);
    TrimSpaceStops(v);
    if COLON !in k {
      var p := k + [COLON] + v;
      TrimmedAroundMark(k, COLON, v);
      TrimSpaceStops(p);
      CutAtSeparator(k, v, COLON);
      if EQUALS !in v {
        NoCut(p, EQUALS);
      }
      NoCut(k, EQUALS);
      NoCut(k, COLON);
    }
  }

  lemma {:induction false} NoCut(s: Bytes, sep: byte)
    requires sep !in s
    ensures Cut(s, sep) == None
  {
    if s != [] {
      NoCut(s[1..], sep);
    }
  }

  function PartsTags(parts: seq<Bytes>): map<Bytes, Bytes> {
    if parts == [] then map[]
    else
      var before := PartsTags(parts[..|parts| - 1]);
      match PartTag(parts[|parts| - 1])
      case None => before
      case Some((k, v)) => before[k := v]
  }

  function Parsed(s: Bytes): Option<map<Bytes, Bytes>> {
    var t := TrimSpace(s);
    if t == [] || PartsTags(Split(t, COMMA)) == map[] then None else Some(PartsTags(Split(t, COMMA)))
  }

  method ParseTags(s: Bytes) returns (r: Option<map<Bytes, Bytes>>)
    ensures r == Parsed(s)
  {
    var t := TrimSpace(s);
    if t == [] {
      return None;
    }
    var out := map[];
    var parts := Split(t, COMMA);
    for i := 0 to |parts|
      invariant out == PartsTags(parts[..i])
    {
      assert parts[..i + 1][..i] == parts[..i];
      var p := TrimSpace(parts[i]);
      if p == [] {
        continue;
      }
      var cut := Cut(p, EQUALS);
      if cut.None? {
        cut := Cut(p, COLON);
      }
      var k, v := p, [];
      if cut.Some? {
        k, v := cut.value.0, cut.value.1;
      }
      k := TrimSpace(k);
      v := TrimSpace(v);
      if k == [] {
        continue;
      }
      out := out[k := v];
    }
    assert parts[..|parts|] == parts;
    if out == map[] {
      return None;
    }
    r := Some(out);
  }

  // ----- Printing -----

  function PrintedParts(order: seq<Bytes>, tags: map<Bytes, Bytes>): (parts: seq<Bytes>)
    requires forall k :: k in order ==> k in tags
    ensures |parts| == |order|
    ensures forall i :: 0 <= i < |order| ==> parts[i] == order[i] + [EQUALS] + tags[order[i]]
  {
    seq(|order|, i requires 0 <= i < |order| => order[i] + [EQUALS] + tags[order[i]])
  }

  /** The header for tags visited in the given order; without tags there is none, which reads as
      the empty string. */
  function Printed(order: seq<Bytes>, tags: map<Bytes, Bytes>): Bytes
    requires forall k :: k in order ==> k in tags
  {
    Join(PrintedParts(order, tags), COMMA)
  }

  method PrintTags(tags: map<Bytes, Bytes>) returns (header: Bytes, ghost order: seq<Bytes>)
    ensures IsIteration(order, tags)
    ensures header == Printed(order, tags)
    ensures Printable(tags) ==> Parsed(header) == if tags == map[] then None else Some(tags)
  {
    order := [];
    if tags == map[] {
      return [], order;
    }
    var parts: seq<Bytes> := [];
    var left := tags.Keys;
    while left != {}
      invariant left <= tags.Keys && IsIteration(order, tags - left)
      invariant parts == PrintedParts(order, tags)
    {
      var k :| k in left;
      parts := parts + [k + [EQUALS] + tags[k]];
      IterationSnoc(order, tags - left, k, tags[k]);
      assert (tags - left)[k := tags[k]] == tags - (left - {k});
      left := left - {k};
      order := order + [k];
    }
    assert tags - left == tags;
    header := Join(parts, COMMA);
    if Printable(tags) {
      PrintedReadsBack(order, tags);
    }
  }

  // ----- Round trip -----

  /** Tags the header can carry. */
  ghost predicate Printable(tags: map<Bytes, Bytes>) {
    forall k :: k in tags ==>
      && k != [] && Trimmed(k) && COMMA !in k && EQUALS !in k
      && Trimmed(tags[k]) && COMMA !in tags[k]
  }

  lemma {:induction false} PrintedPartReadsBack(k: Bytes, v: Bytes)
    requires k != [] && Trimmed(k) && EQUALS !in k && Trimmed(v)
    ensures PartTag(k + [EQUALS] + v) == Some((k, v))
    ensures Trimmed(k + [EQUALS] + v)
  {
    TrimmedAroundMark(k, EQUALS, v);
    TrimSpaceStops(k + [EQUALS] + v);
    CutAtSeparator(k, v, EQUALS);
    TrimSpaceStops(k);
    TrimSpaceStops(v);
  }

  lemma {:induction false} PrintedPartsReadBack(order: seq<Bytes>, tags: map<Bytes, Bytes>)
    requires Printable(tags) && forall k :: k in order ==> k in tags
    ensures PartsTags(PrintedParts(order, tags)).Keys == set k | k in order
    ensures forall k :: k in order ==> PartsTags(PrintedParts(order, tags))[k] == tags[k]
  {
    if order != [] {
      var init, last := order[..|order| - 1], order[|order| - 1];
      assert order == init + [last];
      assert last in order;
      PrintedPartsReadBack(init, tags);
      PrintedPartReadsBack(last, tags[last]);
      assert PrintedParts(order, tags)[..|init|] == PrintedParts(init, tags);
      forall k | k in order
        ensures PartsTags(PrintedParts(order, tags))[k] == tags[k]
      {
        assert k == last || k in init;
      }
    }
  }

  /** Joining trimmed parts leaves no white space at either end. */
  lemma {:induction false} JoinedIsTrimmed(parts: seq<Bytes>)
    requires parts != [] && forall p :: p in parts ==> Trimmed(p)
    ensures Trimmed(Join(parts, COMMA))
  {
    assert parts[0] in parts;
    if |parts| > 1 {
      assert forall p :: p in parts[1..] ==> p in parts;
      JoinedIsTrimmed(parts[1..]);
      TrimmedAroundMark(parts[0], COMMA, Join(parts[1..], COMMA));
    }
  }

  lemma {:induction false} PrintedReadsBack(order: seq<Bytes>, tags: map<Bytes, Bytes>)
    requires IsIteration(order, tags) && Printable(tags)
    ensures Parsed(Printed(order, tags)) == if tags == map[] then None else Some(tags)
  {
    var parts := PrintedParts(order, tags);
    PrintedPartsReadBack(order, tags);
    assert PartsTags(parts) == tags;
    if tags != map[] {
      var some :| some in tags;
      forall p | p in parts
        ensures Trimmed(p) && COMMA !in p
      {
        var i :| 0 <= i < |parts| && parts[i] == p;
        PrintedPartReadsBack(order[i], tags[order[i]]);
      }
      JoinedIsTrimmed(parts);
      TrimSpaceStops(Printed(order, tags));
      SplitOfJoin(parts, COMMA);
      assert |parts[0]| > 0;
      if Printed(order, tags) == [] {
        assert false;
      }
    }
  }

  // ----- What parsing can yield -----

  lemma {:induction false} TrimLeftKeeps(s: Bytes)
    ensures forall c :: c in TrimLeft(s) ==> c in s
  {
    if LeadingSpace(s) != 0 {
      TrimLeftKeeps(s[LeadingSpace(s)..]);
    }
  }

  lemma {:induction false} TrimSpaceKeeps(s: Bytes)
    ensures forall c :: c in TrimSpace(s) ==> c in s
  {
    TrimLeftKeeps(s);
    TrimRightStops(TrimLeft(s));
  }

  lemma {:induction false} CutKeeps(s: Bytes, sep: byte)
    ensures Cut(s, sep).None? ==> sep !in s
    ensures Cut(s, sep).Some? ==>
              && sep !in Cut(s, sep).value.0
              && (forall c :: c in Cut(s, sep).value.0 ==> c in s)
              && (forall c :: c in Cut(s, sep).value.1 ==> c in s)
  {
    if s != [] && s[0] != sep {
      CutKeeps(s[1..], sep);
    }
  }

  lemma {:induction false} PartTagIsPrintable(part: Bytes)
    requires COMMA !in part && PartTag(part).Some?
    ensures var (k, v) := PartTag(part).value;
            k != [] && Trimmed(k) && COMMA !in k && EQUALS !in k && Trimmed(v) && COMMA !in v
  {
    var p := TrimSpace(part);
    TrimSpaceKeeps(part);
    CutKeeps(p, EQUALS);
    CutKeeps(p, COLON);
    var (k, v) := match Cut(p, EQUALS)
      case Some(kv) => kv
      case None => match Cut(p, COLON)
        case Some(kv) => kv
        case None => (p, []);
    TrimSpaceKeeps(k);
    TrimSpaceKeeps(v);
    TrimSpaceStops(k);
    TrimSpaceStops(v);
  }

  lemma {:induction false} PartsTagsArePrintable(parts: seq<Bytes>)
    requires forall p :: p in parts ==> COMMA !in p
    ensures Printable(PartsTags(parts))
  {
    if parts != [] {
      var init, last := parts[..|parts| - 1], parts[|parts| - 1];
      assert last in parts;
      assert forall p :: p in init ==> p in parts;
      PartsTagsArePrintable(init);
      if PartTag(last).Some? {
        PartTagIsPrintable(last);
      }
    }
  }

  /** The round trip succeeds exactly for the tags the header can carry, for every iteration
      order. */
  lemma {:induction false} RoundTripIffPrintable(order: seq<Bytes>, tags: map<Bytes, Bytes>)
    requires IsIteration(order, tags)
    ensures Parsed(Printed(order, tags)) == (if tags == map[] then None else Some(tags)) <==> Printable(tags)
  {
    if Printable(tags) {
      PrintedReadsBack(order, tags);
    }
    if tags != map[] && Parsed(Printed(order, tags)) == Some(tags) {
      ParsedIsPrintable(Printed(order, tags));
    }
  }

  /** A tag key with a comma does not come back. */
  lemma {:induction false} TagsCanBeLost()
    ensures var tags := map[Lit("a,b") := Lit("c")];
            IsIteration([Lit("a,b")], tags) && Parsed(Printed([Lit("a,b")], tags)) != Some(tags)
  {
    var k := Lit("a,b");
    var tags := map[k := Lit("c")];
    assert k[1] == COMMA && k in tags;
    assert !Printable(tags);
    RoundTripIffPrintable([k], tags);
  }

  lemma {:induction false} ParsedIsPrintable(s: Bytes)
    requires Parsed(s).Some?
    ensures Printable(Parsed(s).value)
  {
    JoinOfSplit(TrimSpace(s), COMMA);
    PartsTagsArePrintable(Split(TrimSpace(s), COMMA));
  }
}
