/** internal/gray: which clients a rule releases a version to, which version a client is given,
    and the normal form of a rule. */
module Gray {
  import opened Base
  import opened Text
  import opened Order
  import opened Meta

  /** The bucket of a client id; the source hashes the id, nothing below depends on how. */
  type Bucket = Bytes -> Percentile
  type Percentile = x: int | 0 <= x < 100

  // ----- eval.go -----

  predicate InPercent(bucket: Bucket, id: Bytes, percent: int) {
    if percent <= 0 then false else if percent >= 100 then true else bucket(id) < percent
  }

  predicate InAllow(ids: seq<Bytes>, id: Bytes) {
    id != [] && id in ids
  }

  /** A tag the client does not have reads as the empty string. */
  predicate MatchAllTags(need: map<Bytes, Bytes>, have: Option<map<Bytes, Bytes>>) {
    need == map[] ||
    (have.Some? && forall k :: k in need ==> (if k in have.value then have.value[k] else []) == need[k])
  }

  predicate Eval(bucket: Bucket, rule: Option<GrayRule>, c: ClientContext) {
    if Full(rule) then true
    else
      var r := rule.value;
      if InAllow(r.allowIDs, c.id) then true
      else if r.matchTags != map[] && !MatchAllTags(r.matchTags, c.tags) then false
      else if r.percent <= 0 then false
      else InPercent(bucket, c.id, r.percent)
  }

  // ----- What a rule says, by its fields -----

  /** The clients a rule is for: everyone if it names nobody and its percentage is no share; else those it
      lists, and those with the tags it needs whose bucket lies below its percentage. */
  ghost predicate IsFor(bucket: Bucket, rule: Option<GrayRule>, c: ClientContext) {
    rule.Some? ==>
      var r := rule.value;
      || (r.allowIDs == [] && r.matchTags == map[] && !(0 < r.percent < 100))
      || (c.id != [] && c.id in r.allowIDs)
      || (&& bucket(c.id) < r.percent
          && (r.matchTags != map[] ==> c.tags.Some?)
          && forall k :: k in r.matchTags ==>
               r.matchTags[k] == if k in c.tags.value then c.tags.value[k] else [])
  }

  /** Eval computes that, whatever the buckets. */
  lemma {:induction false} EvalIffFor(bucket: Bucket, rule: Option<GrayRule>, c: ClientContext)
    ensures Eval(bucket, rule, c) <==> IsFor(bucket, rule, c)
  {}

  function AllIn(b: Percentile): Bucket {
    _ => b
  }

  function FirstBuckets(n: nat): (s: set<int>)
    ensures |s| == n && forall b :: b in s <==> 0 <= b < n
  {
    if n == 0 then {} else FirstBuckets(n - 1) + {n - 1}
  }

  /** A client that is not listed and has the tags is let in from exactly as many of the 100 buckets as
      the percentage says. */
  lemma {:induction false} PercentIsShare(r: GrayRule, c: ClientContext)
    requires 0 <= r.percent <= 100 && !Full(Some(r)) && (c.id == [] || c.id !in r.allowIDs)
    requires r.matchTags == map[] || c.tags == Some(r.matchTags)
    ensures |set b | 0 <= b < 100 && Eval(AllIn(b), Some(r), c)| == r.percent
  {
    assert (set b | 0 <= b < 100 && Eval(AllIn(b), Some(r), c)) == FirstBuckets(r.percent);
  }

  /** Raising the percentage of a rule that is not for everyone loses no client, and neither does moving
      clients to lower buckets. */
  lemma {:induction false} MorePercentLosesNobody(bucket: Bucket, r: GrayRule, percent: int, c: ClientContext)
    requires Eval(bucket, Some(r), c) && !Full(Some(r)) && r.percent <= percent
    ensures Eval(bucket, Some(r.(percent := percent)), c)
  {}

  lemma {:induction false} LowerBucketsLoseNobody(bucket: Bucket, lower: Bucket, g: Option<GrayRule>, c: ClientContext)
    requires Eval(bucket, g, c) && lower(c.id) <= bucket(c.id)
    ensures Eval(lower, g, c)
  {}

  datatype Choice = Choice(rev: int, hit: bool, ok: bool)

  function Select(bucket: Bucket, e: Entry, c: ClientContext): Choice {
    if e.head == 0 || e.ByRev(e.head).None? then Choice(0, false, false)
    else if Eval(bucket, e.ByRev(e.head).value.gray, c) then Choice(e.head, true, true)
    else if e.stable == 0 || e.stable == e.head then Choice(0, false, false)
    else Choice(e.stable, false, true)
  }

  // ----- rule.go -----

  /** The ids trimmed, without blanks and repetitions, in order of first appearance. */
  function CleanIDs(ids: seq<Bytes>): seq<Bytes> {
    if ids == [] then []
    else
      var clean := CleanIDs(ids[..|ids| - 1]);
      var id := TrimSpace(ids[|ids| - 1]);
      if id == [] || id in clean then clean else clean + [id]
  }

  /** The tags with trimmed keys, visited in the given order. */
  function CleanTags(order: seq<Bytes>, tags: map<Bytes, Bytes>): map<Bytes, Bytes>
    requires forall k :: k in order ==> k in tags
  {
    if order == [] then map[]
    else
      var k := order[|order| - 1];
      CleanTags(order[..|order| - 1], tags)[TrimSpace(k) := tags[k]]
  }

  predicate HasBlankKey(tags: map<Bytes, Bytes>) {
    exists k :: k in tags && TrimSpace(k) == []
  }

  /** order visits each key of m once: one way Go may iterate over m. */
  predicate IsIteration<V>(order: seq<Bytes>, m: map<Bytes, V>) {
    && (forall k :: k in order ==> k in m)
    && (forall k :: k in m ==> k in order)
    && (forall i, j :: 0 <= i < j < |order| ==> order[i] != order[j])
  }

  /** order is one way Go may iterate over the tags of the rule, if there is one. */
  predicate Visits(order: seq<Bytes>, g: Option<GrayRule>) {
    g.Some? ==> IsIteration(order, g.value.matchTags)
  }

  /** The normal form of a rule; order is how the tag map happens to be iterated. */
  function NormalForm(g: Option<GrayRule>, order: seq<Bytes>): Result<Option<GrayRule>>
    requires Visits(order, g)
  {
    if g.None? then Ok(None)
    else if g.value.percent < 0 || g.value.percent > 100 then Err(Error(GrayInvalid, Lit("percent")))
    else if HasBlankKey(g.value.matchTags) then Err(Error(GrayInvalid, Lit("empty tag key")))
    else
      var ids := Sort(AtMost, CleanIDs(g.value.allowIDs));
      var out := GrayRule(g.value.percent, ids, CleanTags(order, g.value.matchTags));
      if out.IsZero() then Ok(None) else Ok(Some(out))
  }

  method CleanAllowIDs(ids: seq<Bytes>) returns (clean: seq<Bytes>)
    ensures clean == CleanIDs(ids)
  {
    var seen: set<Bytes> := {};
    clean := [];
    for i := 0 to |ids|
      invariant clean == CleanIDs(ids[..i]) && forall x :: x in seen <==> x in clean
    {
      assert ids[..i + 1][..i] == ids[..i];
      var id := TrimSpace(ids[i]);
      if id != [] && id !in seen {
        seen := seen + {id};
        clean := clean + [id];
      }
    }
    assert ids[..|ids|] == ids;
  }

  lemma {:induction false} IterationSnoc<V>(order: seq<Bytes>, m: map<Bytes, V>, k: Bytes, v: V)
    requires IsIteration(order, m) && k !in m
    ensures IsIteration(order + [k], m[k := v])
  {}

  /** Every map can be iterated. */
  lemma {:induction false} SomeIteration<V>(m: map<Bytes, V>) returns (order: seq<Bytes>)
    ensures IsIteration(order, m)
  {
    if m == map[] {
      order := [];
    } else {
      var k :| k in m;
      var less := m - {k};
      order := SomeIteration(less);
      IterationSnoc(order, less, k, m[k]);
      assert less[k := m[k]] == m;
      order := order + [k];
    }
  }

  /** order is the order in which the tags were visited. */
  method CleanMatchTags(tags: map<Bytes, Bytes>)
    returns (clean: Option<map<Bytes, Bytes>>, ghost order: seq<Bytes>)
    ensures clean.None? <==> HasBlankKey(tags)
    ensures clean.Some? ==> IsIteration(order, tags) && clean.value == CleanTags(order, tags)
  {
    order := [];
    var out := map[];
    var left := tags.Keys;
    while left != {}
      invariant left <= tags.Keys
      invariant IsIteration(order, tags - left) && !HasBlankKey(tags - left)
      invariant out == CleanTags(order, tags)
    {
      var k :| k in left;
      if TrimSpace(k) == [] {
        return None, order;
      }
      out := out[TrimSpace(k) := tags[k]];
      IterationSnoc(order, tags - left, k, tags[k]);
      assert (tags - left)[k := tags[k]] == tags - (left - {k});
      assert (order + [k])[..|order|] == order;
      left := left - {k};
      order := order + [k];
    }
    assert tags - left == tags;
    clean := Some(out);
  }

  method Normalize(g: Option<GrayRule>) returns (r: Result<Option<GrayRule>>, ghost order: seq<Bytes>)
    ensures Visits(order, g) && r == NormalForm(g, order)
    ensures r.Err? <==> g.Some? && (g.value.percent < 0 || g.value.percent > 100 || HasBlankKey(g.value.matchTags))
  {
    order := [];
    if g.None? {
      return Ok(None), order;
    }
    order := SomeIteration(g.value.matchTags);
    if g.value.percent < 0 || g.value.percent > 100 {
      return Err(Error(GrayInvalid, Lit("percent"))), order;
    }
    var ids := CleanAllowIDs(g.value.allowIDs);
    var tags, visited := CleanMatchTags(g.value.matchTags);
    if tags.None? {
      return Err(Error(GrayInvalid, Lit("empty tag key"))), order;
    }
    var out := GrayRule(g.value.percent, Sort(AtMost, ids), tags.value);
    order := visited;
    r := if out.IsZero() then Ok(None) else Ok(Some(out));
  }

  // ----- Properties of the normal form -----

  /** The ids a list stands for: trimmed, and not blank. */
  ghost function IDSet(ids: seq<Bytes>): set<Bytes> {
    set y | y in ids && TrimSpace(y) != [] :: TrimSpace(y)
  }

  lemma {:induction false} CleanIDsAre(ids: seq<Bytes>)
    ensures NoDuplicates(CleanIDs(ids))
    ensures forall x :: x in CleanIDs(ids) <==> x in IDSet(ids)
  {
    if ids != [] {
      var init, last := ids[..|ids| - 1], ids[|ids| - 1];
      assert ids == init + [last];
      CleanIDsAre(init);
      assert IDSet(ids) == IDSet(init) + if TrimSpace(last) == [] then {} else {TrimSpace(last)} by {
        assert last in ids;
      }
    }
  }

  /** The ids of a normal form are strictly sorted and are exactly the trimmed, non-blank ids
      given. */
  lemma {:induction false} NormalIDs(g: GrayRule, order: seq<Bytes>, n: GrayRule)
    requires IsIteration(order, g.matchTags) && NormalForm(Some(g), order) == Ok(Some(n))
    ensures StrictlySorted(n.allowIDs)
    ensures forall x :: x in n.allowIDs <==> x in IDSet(g.allowIDs)
  {
    SortedIDs(g.allowIDs);
  }

  lemma {:induction false} SortedIDs(ids: seq<Bytes>)
    ensures StrictlySorted(Sort(AtMost, CleanIDs(ids)))
    ensures forall x :: x in Sort(AtMost, CleanIDs(ids)) <==> x in IDSet(ids)
  {
    CleanIDsAre(ids);
    SortIsStrict(CleanIDs(ids));
    forall x {
      SortKeepsElements(AtMost, CleanIDs(ids), x);
    }
  }

  lemma {:induction false} CleanIDsOfClean(ids: seq<Bytes>)
    requires NoDuplicates(ids) && forall x :: x in ids ==> x != [] && Trimmed(x)
    ensures CleanIDs(ids) == ids
  {
    if ids != [] {
      var init, last := ids[..|ids| - 1], ids[|ids| - 1];
      assert ids == init + [last];
      assert last in ids;
      assert forall x :: x in init ==> x in ids;
      CleanIDsOfClean(init);
      TrimSpaceStops(last);
    }
  }

  lemma {:induction false} CleanTagsOfClean(order: seq<Bytes>, tags: map<Bytes, Bytes>)
    requires forall k :: k in order ==> k in tags && Trimmed(k)
    requires forall i, j :: 0 <= i < j < |order| ==> order[i] != order[j]
    ensures CleanTags(order, tags).Keys == set k | k in order
    ensures forall k :: k in order ==> CleanTags(order, tags)[k] == tags[k]
  {
    if order != [] {
      var init, last := order[..|order| - 1], order[|order| - 1];
      assert order == init + [last];
      assert last in order;
      CleanTagsOfClean(init, tags);
      TrimSpaceStops(last);
      forall k | k in order
        ensures CleanTags(order, tags)[k] == tags[k]
      {
        assert k == last || k in init;
      }
    }
  }

  lemma {:induction false} CleanTagKeys(order: seq<Bytes>, tags: map<Bytes, Bytes>, k: Bytes)
    requires forall x :: x in order ==> x in tags
    requires k in CleanTags(order, tags)
    ensures Trimmed(k) && exists y :: y in order && TrimSpace(y) == k
  {
    var init, last := order[..|order| - 1], order[|order| - 1];
    assert order == init + [last];
    if k == TrimSpace(last) {
      TrimSpaceStops(last);
      assert last in order;
    } else {
      CleanTagKeys(init, tags, k);
    }
  }

  predicate TidyRule(g: GrayRule) {
    && (forall id :: id in g.allowIDs ==> id != [] && Trimmed(id))
    && (forall k :: k in g.matchTags ==> k != [] && Trimmed(k))
  }

  lemma {:induction false} NormalFormIsTidy(g: GrayRule, order: seq<Bytes>, n: GrayRule)
    requires IsIteration(order, g.matchTags) && NormalForm(Some(g), order) == Ok(Some(n))
    ensures TidyRule(n) && StrictlySorted(n.allowIDs)
  {
    SortedIDs(g.allowIDs);
    forall x | x in n.allowIDs
      ensures x != [] && Trimmed(x)
    {
      var y :| y in g.allowIDs && TrimSpace(y) == x;
      TrimSpaceStops(y);
    }
    forall k | k in n.matchTags
      ensures k != [] && Trimmed(k)
    {
      CleanTagKeys(order, g.matchTags, k);
    }
  }

  lemma {:induction false} TidyRuleIsNormal(n: GrayRule, order: seq<Bytes>)
    requires TidyRule(n) && StrictlySorted(n.allowIDs) && IsIteration(order, n.matchTags)
    requires 0 <= n.percent <= 100 && !n.IsZero()
    ensures NormalForm(Some(n), order) == Ok(Some(n))
  {
    TidyIDsAreNormal(n.allowIDs);
    TidyTagsAreNormal(n.matchTags, order);
  }

  lemma {:induction false} TidyIDsAreNormal(ids: seq<Bytes>)
    requires StrictlySorted(ids) && forall id :: id in ids ==> id != [] && Trimmed(id)
    ensures Sort(AtMost, CleanIDs(ids)) == ids
  {
    StrictIsSortedAndDistinct(ids);
    CleanIDsOfClean(ids);
    SortOfSorted(AtMost, ids);
  }

  lemma {:induction false} TidyTagsAreNormal(tags: map<Bytes, Bytes>, order: seq<Bytes>)
    requires IsIteration(order, tags) && forall k :: k in tags ==> k != [] && Trimmed(k)
    ensures CleanTags(order, tags) == tags && !HasBlankKey(tags)
  {
    CleanTagsOfClean(order, tags);
    forall k | k in tags
      ensures TrimSpace(k) != []
    {
      TrimSpaceStops(k);
    }
  }

  /** Normalising a normal form changes nothing, however its tags are iterated. */
  lemma {:induction false} NormalFormIsIdempotent(
      g: Option<GrayRule>, order: seq<Bytes>, n: Option<GrayRule>, order': seq<Bytes>)
    requires Visits(order, g) && NormalForm(g, order) == Ok(n)
    requires Visits(order', n)
    ensures NormalForm(n, order') == Ok(n)
  {
    if n.Some? {
      NormalFormIsTidy(g.value, order, n.value);
      TidyRuleIsNormal(n.value, order');
    }
  }

  /** The allow list matters only as a set. */
  lemma {:induction false} SameIDsSameAnswer(bucket: Bucket, g: GrayRule, g': GrayRule, c: ClientContext)
    requires g.percent == g'.percent && g.matchTags == g'.matchTags && Full(Some(g)) == Full(Some(g'))
    requires forall x :: x != [] ==> (x in g.allowIDs <==> x in g'.allowIDs)
    ensures Eval(bucket, Some(g), c) == Eval(bucket, Some(g'), c)
  {}

  // ----- When normalising keeps every answer -----

  /** What can be checked on the rule: everyone is let in anyway; or the ids are trimmed, the tag keys
      are trimmed unless the percentage is 0, and a rule of ids alone names somebody. */
  predicate KeepsAnswers(g: GrayRule) {
    || Full(Some(g))
    || (g.percent == 100 && g.matchTags == map[])
    || (&& (forall id :: id in g.allowIDs ==> Trimmed(id))
        && (g.percent == 0 || forall k :: k in g.matchTags ==> Trimmed(k))
        && (g.percent == 0 && g.matchTags == map[] ==> exists id :: id in g.allowIDs && id != []))
  }

  /** The rule that NormalForm builds before it looks whether anything is left. */
  function Cleaned(g: GrayRule, order: seq<Bytes>): GrayRule
    requires IsIteration(order, g.matchTags)
  {
    GrayRule(g.percent, Sort(AtMost, CleanIDs(g.allowIDs)), CleanTags(order, g.matchTags))
  }

  lemma {:induction false} NormalFormIsCleaned(g: GrayRule, order: seq<Bytes>, n: Option<GrayRule>)
    requires IsIteration(order, g.matchTags) && NormalForm(Some(g), order) == Ok(n)
    ensures 0 <= g.percent <= 100 && !HasBlankKey(g.matchTags)
    ensures n == if Cleaned(g, order).IsZero() then None else Some(Cleaned(g, order))
  {}

  lemma {:induction false} CleanedParts(g: GrayRule, order: seq<Bytes>)
    requires IsIteration(order, g.matchTags)
    ensures forall x :: x in Cleaned(g, order).allowIDs <==> x in IDSet(g.allowIDs)
    ensures forall x :: x in Cleaned(g, order).allowIDs ==> Trimmed(x) && x != []
    ensures Cleaned(g, order).matchTags == map[] <==> g.matchTags == map[]
    ensures forall k :: k in Cleaned(g, order).matchTags ==> Trimmed(k)
  {
    hide Sort, Trimmed, TrimSpace;
    SortedIDs(g.allowIDs);
    forall x | x in Cleaned(g, order).allowIDs
      ensures Trimmed(x) && x != []
    {
      var y :| y in g.allowIDs && TrimSpace(y) == x && x != [];
      TrimSpaceStops(y);
    }
    CleanTagsComeFrom(order, g.matchTags);
    forall k | k in Cleaned(g, order).matchTags
      ensures Trimmed(k)
    {
      CleanTagKeys(order, g.matchTags, k);
    }
  }

  /** Trimmed ids survive cleaning, up to blank ones. */
  lemma {:induction false} TrimmedIDsStay(ids: seq<Bytes>)
    requires forall id :: id in ids ==> Trimmed(id)
    ensures forall x :: x in IDSet(ids) <==> x in ids && x != []
  {
    hide Trimmed, TrimSpace;
    forall id | id in ids
      ensures TrimSpace(id) == id
    {
      TrimSpaceStops(id);
    }
  }

  /** Normalising a rule that passes the test changes nobody's answer, also when the result collapses
      to no rule at all. */
  lemma {:induction false} NormalFormKeepsAnswers(
      bucket: Bucket, g: GrayRule, order: seq<Bytes>, n: Option<GrayRule>, c: ClientContext)
    requires IsIteration(order, g.matchTags) && NormalForm(Some(g), order) == Ok(n)
    requires KeepsAnswers(g)
    ensures Eval(bucket, n, c) == Eval(bucket, Some(g), c)
  {
    hide NormalForm, Cleaned, IDSet, Trimmed, TrimSpace, HasBlankKey, IsIteration, MatchAllTags;
    NormalFormIsCleaned(g, order, n);
    CleanedParts(g, order);
    var out := Cleaned(g, order);
    assert out.percent == g.percent by {
      CleanedPercent(g, order);
    }
    if Full(Some(g)) {
      if out.allowIDs != [] {
        NoIDs(g.allowIDs, out.allowIDs[0]);
      }
    } else if !(g.percent == 100 && g.matchTags == map[]) {
      TrimmedIDsStay(g.allowIDs);
      if g.percent == 0 {
        SilentRules(bucket, g, out, c);
      } else {
        TrimmedTagsStay(g, order);
        SameIDsSameAnswer(bucket, g, out, c);
      }
    }
  }

  lemma {:induction false} CleanedPercent(g: GrayRule, order: seq<Bytes>)
    requires IsIteration(order, g.matchTags)
    ensures Cleaned(g, order).percent == g.percent
  {}

  lemma {:induction false} NoIDs(ids: seq<Bytes>, x: Bytes)
    ensures x in IDSet(ids) ==> ids != []
  {}

  lemma {:induction false} TrimmedTagsStay(g: GrayRule, order: seq<Bytes>)
    requires IsIteration(order, g.matchTags) && !HasBlankKey(g.matchTags)
    requires forall k :: k in g.matchTags ==> Trimmed(k)
    ensures Cleaned(g, order).matchTags == g.matchTags
  {
    hide Sort, CleanIDs;
    forall k | k in g.matchTags
      ensures k != []
    {
      TrimSpaceStops(k);
    }
    TidyTagsAreNormal(g.matchTags, order);
  }

  /** With percent 0 only the allow list counts, as long as there is a rule at all. */
  lemma {:induction false} SilentRules(bucket: Bucket, g: GrayRule, g': GrayRule, c: ClientContext)
    requires g.percent == 0 == g'.percent && !Full(Some(g)) && !Full(Some(g'))
    requires forall x :: x != [] ==> (x in g.allowIDs <==> x in g'.allowIDs)
    ensures Eval(bucket, Some(g), c) == Eval(bucket, Some(g'), c)
  {}

  /** A client without tags, in the last bucket, is missed by every rule that is not for everyone and
      does not name it. */
  lemma {:induction false} ColdClientIsMissed(r: GrayRule, id: Bytes)
    requires !Full(Some(r)) && r.percent <= 100 && !(r.percent == 100 && r.matchTags == map[])
    requires id == [] || id !in r.allowIDs
    ensures !Eval(_ => 99, Some(r), ClientContext(id, None))
  {}

  /** A client in the first bucket with the tags of a rule is hit by it; one of its tags changed, it is
      missed, unless it is named. */
  lemma {:induction false} TagsDecide(r: GrayRule, have: map<Bytes, Bytes>)
    requires r.percent > 0
    requires forall k :: k in r.matchTags ==> k in have && have[k] == r.matchTags[k]
    ensures Eval(_ => 0, Some(r), ClientContext([], Some(have)))
  {}

  lemma {:induction false} OneTagMisses(r: GrayRule, have: map<Bytes, Bytes>, k: Bytes)
    requires k in r.matchTags && k in have && have[k] != r.matchTags[k]
    ensures !Eval(_ => 0, Some(r), ClientContext([], Some(have)))
  {}

  /** Normalising keeps every client's answer, whatever the buckets, exactly for the rules that pass
      the test. */
  lemma {:induction false} NormalFormKeepsAnswersIff(g: GrayRule, order: seq<Bytes>, n: Option<GrayRule>)
    requires IsIteration(order, g.matchTags) && NormalForm(Some(g), order) == Ok(n)
    ensures (forall bucket: Bucket, c :: Eval(bucket, n, c) == Eval(bucket, Some(g), c)) <==> KeepsAnswers(g)
  {
    if KeepsAnswers(g) {
      forall bucket: Bucket, c
        ensures Eval(bucket, n, c) == Eval(bucket, Some(g), c)
      {
        NormalFormKeepsAnswers(bucket, g, order, n, c);
      }
    }
    if forall bucket: Bucket, c :: Eval(bucket, n, c) == Eval(bucket, Some(g), c) {
      SameAnswersKeep(g, order, n);
    }
  }

  lemma {:induction false} SameAnswersKeep(g: GrayRule, order: seq<Bytes>, n: Option<GrayRule>)
    requires IsIteration(order, g.matchTags) && NormalForm(Some(g), order) == Ok(n)
    requires forall bucket: Bucket, c :: Eval(bucket, n, c) == Eval(bucket, Some(g), c)
    ensures KeepsAnswers(g)
  {
    hide NormalForm, Cleaned, IDSet, Trimmed, TrimSpace, HasBlankKey, IsIteration, MatchAllTags, Eval;
    NormalFormIsCleaned(g, order, n);
    CleanedParts(g, order);
    CleanedPercent(g, order);
    var out := Cleaned(g, order);
    if !Full(Some(g)) && !(g.percent == 100 && g.matchTags == map[]) {
      ColdClientIsMissed(g, []);
      if Full(Some(out)) {
        EveryoneIsHit(n, _ => 99, ClientContext([], None));
      }
      forall x | x in g.allowIDs
        ensures Trimmed(x)
      {
        if !Trimmed(x) {
          BlankIsTrimmed();
          ColdClientIsMissed(out, x);
          NamedIsHit(g, x);
        }
      }
      if g.percent == 0 && g.matchTags == map[] && out.allowIDs != [] {
        var y := out.allowIDs[0];
        TrimmedIDsStay(g.allowIDs);
        assert y in g.allowIDs && y != [];
      }
      forall k | k in g.matchTags && g.percent > 0
        ensures Trimmed(k)
      {
        if !Trimmed(k) {
          var have := out.matchTags[k := g.matchTags[k] + [0]];
          TagsDecide(out, have);
          OneTagMisses(g, have, k);
        }
      }
    }
  }

  lemma {:induction false} EveryoneIsHit(n: Option<GrayRule>, bucket: Bucket, c: ClientContext)
    requires Full(n)
    ensures Eval(bucket, n, c)
  {}

  lemma {:induction false} NamedIsHit(g: GrayRule, id: Bytes)
    requires id in g.allowIDs && id != []
    ensures Eval(_ => 99, Some(g), ClientContext(id, None))
  {}

  lemma {:induction false} BlankIsTrimmed()
    ensures Trimmed([])
  {}

  /** The rule that names nobody but the id " " with percent 0 normalises to no rule at all: meant for
      next to nobody, it is released to everyone. */
  lemma {:induction false} NormalFormCanReleaseToAll(bucket: Bucket, c: ClientContext)
    requires c.id != Lit(" ")
    ensures var g := GrayRule(0, [Lit(" ")], map[]);
            && !Eval(bucket, Some(g), c)
            && NormalForm(Some(g), []) == Ok(None) && Eval(bucket, None, c)
  {
    var blank := Lit(" ");
    assert blank == [32];
    assert TrimLeft(blank) == [] && TrimSpace(blank) == [];
    assert [blank][..0] == [];
    assert CleanIDs([blank]) == [];
  }

  /** Rules that differ only in how their allow list is written have the same normal form, for each
      iteration of their tags. */
  lemma {:induction false} NormalFormIsCanonical(g: GrayRule, g': GrayRule, order: seq<Bytes>)
    requires IsIteration(order, g.matchTags) && g.percent == g'.percent && g.matchTags == g'.matchTags
    requires IDSet(g.allowIDs) == IDSet(g'.allowIDs)
    ensures NormalForm(Some(g), order) == NormalForm(Some(g'), order)
  {
    SortedIDs(g.allowIDs);
    SortedIDs(g'.allowIDs);
    StrictListsAgree(Sort(AtMost, CleanIDs(g.allowIDs)), Sort(AtMost, CleanIDs(g'.allowIDs)));
  }

  // ----- Whether the iteration order shows -----

  /** Two tag keys that trim to the same key, with different values. */
  predicate Clash(tags: map<Bytes, Bytes>, k: Bytes, k': Bytes) {
    k in tags && k' in tags && TrimSpace(k) == TrimSpace(k') && tags[k] != tags[k']
  }

  lemma {:induction false} CleanTagsComeFrom(order: seq<Bytes>, tags: map<Bytes, Bytes>)
    requires forall k :: k in order ==> k in tags
    ensures forall k :: k in order ==> TrimSpace(k) in CleanTags(order, tags)
    ensures forall k' :: k' in CleanTags(order, tags) ==>
              exists k :: k in order && TrimSpace(k) == k' && tags[k] == CleanTags(order, tags)[k']
  {
    hide TrimSpace;
    if order != [] {
      var init, last := order[..|order| - 1], order[|order| - 1];
      assert order == init + [last];
      CleanTagsComeFrom(init, tags);
      forall k' | k' in CleanTags(order, tags)
        ensures exists k :: k in order && TrimSpace(k) == k' && tags[k] == CleanTags(order, tags)[k']
      {
        if k' == TrimSpace(last) {
          assert last in order;
        } else {
          var k :| k in init && TrimSpace(k) == k' && tags[k] == CleanTags(init, tags)[k'];
          assert k in order;
        }
      }
    }
  }

  /** Without a clash cleaning keeps the value of every key, under its trimmed form. */
  lemma {:induction false} CleanTagsKeep(order: seq<Bytes>, tags: map<Bytes, Bytes>, k: Bytes)
    requires IsIteration(order, tags) && k in tags
    requires forall k, k' :: !Clash(tags, k, k')
    ensures TrimSpace(k) in CleanTags(order, tags) && CleanTags(order, tags)[TrimSpace(k)] == tags[k]
  {
    hide TrimSpace, CleanTags;
    CleanTagsComeFrom(order, tags);
    var y :| y in order && TrimSpace(y) == TrimSpace(k) && tags[y] == CleanTags(order, tags)[TrimSpace(k)];
    assert !Clash(tags, k, y);
  }

  /** Then every iteration cleans the tags alike. */
  lemma {:induction false} CleanTagsAgree(order: seq<Bytes>, order': seq<Bytes>, tags: map<Bytes, Bytes>)
    requires IsIteration(order, tags) && IsIteration(order', tags)
    requires forall k, k' :: !Clash(tags, k, k')
    ensures CleanTags(order, tags) == CleanTags(order', tags)
  {
    CleanTagsWithin(order, order', tags);
    CleanTagsWithin(order', order, tags);
  }

  lemma {:induction false} CleanTagsWithin(order: seq<Bytes>, order': seq<Bytes>, tags: map<Bytes, Bytes>)
    requires IsIteration(order, tags) && IsIteration(order', tags)
    requires forall k, k' :: !Clash(tags, k, k')
    ensures forall x :: x in CleanTags(order, tags) ==>
              x in CleanTags(order', tags) && CleanTags(order', tags)[x] == CleanTags(order, tags)[x]
  {
    hide TrimSpace, CleanTags, Clash;
    CleanTagsComeFrom(order, tags);
    forall x | x in CleanTags(order, tags)
      ensures x in CleanTags(order', tags) && CleanTags(order', tags)[x] == CleanTags(order, tags)[x]
    {
      var k :| k in order && TrimSpace(k) == x && tags[k] == CleanTags(order, tags)[x];
      CleanTagsKeep(order', tags, k);
    }
  }

  /** An iteration may end with any key it likes. */
  lemma {:induction false} IterationEndingIn(tags: map<Bytes, Bytes>, k: Bytes) returns (order: seq<Bytes>)
    requires k in tags
    ensures IsIteration(order, tags)
    ensures TrimSpace(k) in CleanTags(order, tags) && CleanTags(order, tags)[TrimSpace(k)] == tags[k]
  {
    hide TrimSpace;
    var less := tags - {k};
    var init := SomeIteration(less);
    IterationSnoc(init, less, k, tags[k]);
    assert less[k := tags[k]] == tags;
    order := init + [k];
    assert order[..|init|] == init;
  }

  /** Normalising is a function of the rule exactly when the rule is refused for every order or no
      two tag keys trim to the same key with different values; otherwise the result depends on how
      Go happens to iterate over the tags. */
  lemma {:induction false} NormalFormIgnoresOrderIff(g: GrayRule)
    ensures (forall order, order' :: IsIteration(order, g.matchTags) && IsIteration(order', g.matchTags) ==>
               NormalForm(Some(g), order) == NormalForm(Some(g), order'))
            <==>
            (g.percent < 0 || g.percent > 100 || HasBlankKey(g.matchTags) || forall k, k' :: !Clash(g.matchTags, k, k'))
  {
    hide TrimSpace, HasBlankKey, IsIteration, CleanIDs, Sort;
    if forall k, k' :: !Clash(g.matchTags, k, k') {
      forall order, order' | IsIteration(order, g.matchTags) && IsIteration(order', g.matchTags)
        ensures NormalForm(Some(g), order) == NormalForm(Some(g), order')
      {
        CleanTagsAgree(order, order', g.matchTags);
      }
    } else if 0 <= g.percent <= 100 && !HasBlankKey(g.matchTags) {
      var k, k' :| Clash(g.matchTags, k, k');
      var order := IterationEndingIn(g.matchTags, k);
      var order' := IterationEndingIn(g.matchTags, k');
      OrderShows(g, order, order', k, k');
    }
  }

  lemma {:induction false} OrderShows(g: GrayRule, order: seq<Bytes>, order': seq<Bytes>, k: Bytes, k': Bytes)
    requires IsIteration(order, g.matchTags) && IsIteration(order', g.matchTags) && Clash(g.matchTags, k, k')
    requires 0 <= g.percent <= 100 && !HasBlankKey(g.matchTags)
    requires TrimSpace(k) in CleanTags(order, g.matchTags) && TrimSpace(k') in CleanTags(order', g.matchTags)
    requires CleanTags(order, g.matchTags)[TrimSpace(k)] == g.matchTags[k]
    requires CleanTags(order', g.matchTags)[TrimSpace(k')] == g.matchTags[k']
    ensures NormalForm(Some(g), order) != NormalForm(Some(g), order')
  {
    hide TrimSpace, HasBlankKey, CleanIDs, Sort, CleanTags;
  }

  /** The tags "a" and " a" with different values are such a rule. */
  lemma {:induction false} OrderCanShow(g: GrayRule)
    requires g.percent == 50 && g.matchTags == map[Lit("a") := Lit("x"), Lit(" a") := Lit("y")]
    ensures Clash(g.matchTags, Lit("a"), Lit(" a"))
    ensures exists order, order' :: IsIteration(order, g.matchTags) && IsIteration(order', g.matchTags) &&
              NormalForm(Some(g), order) != NormalForm(Some(g), order')
  {
    var a, b := Lit("a"), Lit(" a");
    assert a == [97] && b == [32, 97] && Lit("x") == [120] && Lit("y") == [121];
    assert b[1..] == a && TrimLeft(b) == TrimLeft(a) == a && TrimRight(a) == a;
    assert Clash(g.matchTags, a, b);
    assert !HasBlankKey(g.matchTags);
    NormalFormIgnoresOrderIff(g);
  }

  // ----- Percent 0 -----

  /** A rule with percent 0 and no allow list misses every client exactly when it has tags; without
      tags it is no rule at all and hits every client. */
  lemma {:induction false} PercentZeroMissesIff(bucket: Bucket, g: GrayRule, c: ClientContext)
    requires g.percent == 0 && g.allowIDs == []
    ensures !Eval(bucket, Some(g), c) <==> g.matchTags != map[]
  {}

  /** The documented miss does not happen for this rule. */
  lemma {:induction false} PercentZeroCanHit(bucket: Bucket, c: ClientContext)
    ensures Eval(bucket, Some(GrayRule(0, [], map[])), c)
  {}
}
