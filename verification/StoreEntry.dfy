/** internal/store/entry.go: one version chain, with its Head and Stable pointers. */
module StoreEntry {
  import opened Base
  import opened Text
  import opened Meta

  const NUL: byte := 0
  const SLASH: Bytes := Lit("/")

  function NsKey(ns: Bytes, key: Bytes): Bytes {
    ns + [NUL] + key
  }

  /** A pair without NUL bytes shares its map key with no other pair whatsoever. */
  lemma {:induction false} NsKeyIsFaithful(ns: Bytes, key: Bytes, ns': Bytes, key': Bytes)
    requires NUL !in ns && NUL !in key && NsKey(ns, key) == NsKey(ns', key')
    ensures ns == ns' && key == key'
  {
    var id := NsKey(ns, key);
    assert id[|ns'|] == NUL;
    assert id[..|ns|] == ns && id[|ns| + 1..] == key;
    assert id[..|ns'|] == ns' && id[|ns'| + 1..] == key';
  }

  /** With two namespaces without NUL bytes, whatever the keys. */
  lemma {:induction false} NsKeyNamesSpace(ns: Bytes, key: Bytes, ns': Bytes, key': Bytes)
    requires NUL !in ns && NUL !in ns' && NsKey(ns, key) == NsKey(ns', key')
    ensures ns == ns' && key == key'
  {
    CutAtSeparator(ns, key, NUL);
    CutAtSeparator(ns', key', NUL);
  }

  /** Without that check different pairs do collide. */
  lemma {:induction false} NsKeyCollides()
    ensures NsKey([97, NUL, 98], [99]) == NsKey([97], [98, NUL, 99])
  {}

  /** A pair shares its map key with some other pair exactly when one of the two names contains a
      NUL byte. */
  lemma {:induction false} NsKeyCollidesIff(ns: Bytes, key: Bytes)
    ensures (exists ns', key' :: (ns', key') != (ns, key) && NsKey(ns', key') == NsKey(ns, key))
            <==> NUL in ns || NUL in key
  {
    if NUL in ns {
      var i :| 0 <= i < |ns| && ns[i] == NUL;
      var a, b := ns[..i], ns[i + 1..] + [NUL] + key;
      assert NsKey(a, b) == NsKey(ns, key);
    } else if NUL in key {
      var i :| 0 <= i < |key| && key[i] == NUL;
      var a, b := ns + [NUL] + key[..i], key[i + 1..];
      assert NsKey(a, b) == NsKey(ns, key);
    } else {
      forall ns', key' | NsKey(ns', key') == NsKey(ns, key)
        ensures (ns', key') == (ns, key)
      {
        NsKeyIsFaithful(ns, key, ns', key');
      }
    }
  }

  /** version.Next of the last revision. */
  function NextRev(e: Option<Entry>): int {
    if e.None? || e.value.versions == [] then 1
    else
      var last := e.value.versions[|e.value.versions| - 1].rev;
      if last < 0 then 1 else last + 1
  }

  function FormatRev(rev: int): Bytes {
    Lit("r") + FormatInt(rev)
  }

  function Ref(ns: Bytes, key: Bytes): Bytes {
    ns + SLASH + key
  }

  // ----- Appending -----

  function Appended(e: Entry, v: VersionMeta): Result<Entry> {
    var want := NextRev(Some(e));
    var v' := if v.rev == 0 then v.(rev := want) else v;
    if v'.rev != want then Err(Error(BadRevision, FormatRev(v'.rev) + Lit(" want=") + FormatRev(want)))
    else Ok(e.(versions := e.versions + [v'], head := v'.rev, stable := if Full(v'.gray) then v'.rev else e.stable))
  }

  method AppendVersion(e: Entry, v: VersionMeta) returns (res: Result<Entry>)
    ensures res == Appended(e, v)
  {
    var want := NextRev(Some(e));
    var v := v;
    if v.rev == 0 {
      v := v.(rev := want);
    }
    if v.rev != want {
      return Err(Error(BadRevision, FormatRev(v.rev) + Lit(" want=") + FormatRev(want)));
    }
    var out := e.(versions := e.versions + [v], head := v.rev);
    if Full(v.gray) {
      out := out.(stable := v.rev);
    } else if out.stable == 0 {
      out := out.(stable := 0);
    }
    res := Ok(out);
  }

  function Created(ns: Bytes, key: Bytes, v: VersionMeta): Result<Entry> {
    var v' := if v.rev == 0 then v.(rev := 1) else v;
    if v'.rev != 1 then Err(Error(BadRevision, FormatRev(v'.rev)))
    else Ok(Entry(ns, key, [v'], 1, if Full(v'.gray) then 1 else 0))
  }

  // ----- Rolling back -----

  /** The version of that revision exists and is released to everyone. */
  predicate Released(e: Entry, rev: int) {
    e.ByRev(rev).Some? && Full(e.ByRev(rev).value.gray)
  }

  /** The largest released revision up to rev, 0 if there is none. */
  function LastReleased(e: Entry, rev: int): (st: int)
    ensures st == 0 || (1 <= st <= rev && Released(e, st))
    ensures forall q :: st < q <= rev && 1 <= q ==> !Released(e, q)
    decreases if rev < 0 then 0 else rev
  {
    if rev < 1 then 0 else if Released(e, rev) then rev else LastReleased(e, rev - 1)
  }

  method LastStableAtOrBefore(e: Entry, rev: int) returns (st: int)
    ensures st == LastReleased(e, rev)
  {
    var i := rev;
    while i >= 1
      invariant LastReleased(e, rev) == LastReleased(e, i)
      decreases i
    {
      var v := e.ByRev(i);
      if v.Some? && Full(v.value.gray) {
        return v.value.rev;
      }
      i := i - 1;
    }
    st := 0;
  }

  function RolledBack(e: Entry, rev: int): Result<Entry> {
    if e.ByRev(rev).None? then Err(Error(BadRevision, FormatRev(rev)))
    else Ok(e.(head := rev, stable := LastReleased(e, rev)))
  }

  method RollbackHead(e: Entry, rev: int) returns (res: Result<Entry>)
    ensures res == RolledBack(e, rev)
  {
    var v := e.ByRev(rev);
    if v.None? {
      return Err(Error(BadRevision, FormatRev(rev)));
    }
    var out := e.(head := rev);
    if Full(v.value.gray) {
      return Ok(out.(stable := rev));
    }
    var st := LastStableAtOrBefore(out, rev);
    SamePointersSameReleases(e, out, rev);
    res := Ok(out.(stable := st));
  }

  lemma {:induction false} SamePointersSameReleases(e: Entry, e': Entry, rev: int)
    requires e.versions == e'.versions
    ensures LastReleased(e, rev) == LastReleased(e', rev)
    decreases if rev < 0 then 0 else rev
  {
    if rev >= 1 {
      SamePointersSameReleases(e, e', rev - 1);
    }
  }

  // ----- Sizes and validation -----

  function PayloadBytes(versions: seq<VersionMeta>): nat {
    if versions == [] then 0
    else PayloadBytes(versions[..|versions| - 1]) + |versions[|versions| - 1].payload|
  }

  method BytesOf(e: Entry) returns (n: nat)
    ensures n == PayloadBytes(e.versions)
  {
    n := 0;
    for i := 0 to |e.versions|
      invariant n == PayloadBytes(e.versions[..i])
    {
      assert e.versions[..i + 1][..i] == e.versions[..i];
      n := n + |e.versions[i].payload|;
    }
    assert e.versions[..|e.versions|] == e.versions;
  }

  /** What a stored or imported chain has to look like. */
  predicate ValidChain(e: Entry) {
    && e.versions != []
    && (forall i :: 0 <= i < |e.versions| ==> e.versions[i].rev == i + 1)
    && 1 <= e.head <= |e.versions|
    && 0 <= e.stable <= |e.versions|
  }

  method ValidateChain(e: Entry) returns (err: Option<Error>)
    ensures err == ChainError(e)
    ensures err.None? <==>
              && |e.versions| >= 1 && (forall i :: 0 <= i < |e.versions| ==> e.versions[i].rev == i + 1)
              && 1 <= e.head <= |e.versions| && 0 <= e.stable <= |e.versions|
    ensures err.Some? ==> err.value.kind == BadRevision
  {
    if |e.versions| == 0 {
      return Some(Error(BadRevision, Ref(e.ns, e.key) + Lit(" empty")));
    }
    for i := 0 to |e.versions|
      invariant forall k :: 0 <= k < i ==> e.versions[k].rev == k + 1
    {
      if e.versions[i].rev != i + 1 {
        return Some(Error(BadRevision, Ref(e.ns, e.key) + Lit(" gap")));
      }
    }
    if e.head < 1 || e.head > |e.versions| {
      return Some(Error(BadRevision, Lit("head")));
    }
    if e.stable < 0 || e.stable > |e.versions| {
      return Some(Error(BadRevision, Lit("stable")));
    }
    err := None;
  }

  function ChainError(e: Entry): (err: Option<Error>)
    ensures err.None? <==> ValidChain(e)
  {
    if e.versions == [] then Some(Error(BadRevision, Ref(e.ns, e.key) + Lit(" empty")))
    else if exists i :: 0 <= i < |e.versions| && e.versions[i].rev != i + 1 then
      Some(Error(BadRevision, Ref(e.ns, e.key) + Lit(" gap")))
    else if e.head < 1 || e.head > |e.versions| then Some(Error(BadRevision, Lit("head")))
    else if e.stable < 0 || e.stable > |e.versions| then Some(Error(BadRevision, Lit("stable")))
    else None
  }

  // ----- The pointers in closed form -----

  /** The latest rollback: to revision target, when the chain had length len; (0, 0) if none. */
  datatype Mark = Mark(target: int, len: int)

  /** The revisions that can be stable: those up to the rollback's target, and those written
      since. */
  predicate InWindow(m: Mark, n: int, q: int) {
    1 <= q <= m.target || m.len < q <= n
  }

  /** The chain is gap-free, and both pointers are determined by its versions and the latest
      rollback: Stable is the largest released revision in the window, Head the rollback's target
      until something is written after it. */
  ghost predicate Tracks(e: Entry, m: Mark) {
    var n := |e.versions|;
    && ValidChain(e)
    && 0 <= m.target <= m.len <= n && (m.target == 0 <==> m.len == 0)
    && e.head == (if m.len == n then m.target else n)
    && (e.stable == 0 || (InWindow(m, n, e.stable) && Released(e, e.stable)))
    && (forall q :: InWindow(m, n, q) && Released(e, q) ==> q <= e.stable)
  }

  lemma {:induction false} CreatedTracks(ns: Bytes, key: Bytes, v: VersionMeta)
    requires v.rev == 1
    ensures Created(ns, key, v).Ok? && Tracks(Created(ns, key, v).value, Mark(0, 0))
  {}

  lemma {:induction false} AppendedTracks(e: Entry, m: Mark, v: VersionMeta)
    requires Tracks(e, m) && v.rev == NextRev(Some(e))
    ensures Appended(e, v).Ok? && Tracks(Appended(e, v).value, m)
    ensures v.rev == |e.versions| + 1 == Appended(e, v).value.head
  {
    var e' := Appended(e, v).value;
    forall q | 1 <= q <= |e.versions|
      ensures Released(e', q) == Released(e, q)
    {
      assert e'.versions[q - 1] == e.versions[q - 1];
    }
  }

  lemma {:induction false} RolledBackTracks(e: Entry, m: Mark, rev: int)
    requires Tracks(e, m)
    ensures RolledBack(e, rev).Ok? <==> 1 <= rev <= |e.versions|
    ensures RolledBack(e, rev).Ok? ==> Tracks(RolledBack(e, rev).value, Mark(rev, |e.versions|))
  {
    if RolledBack(e, rev).Ok? {
      var e' := RolledBack(e, rev).value;
      forall q
        ensures Released(e', q) == Released(e, q)
      {
        assert e'.versions == e.versions;
      }
    }
  }

  /** What the closed form means for readers: Stable never passes Head, names only released
      versions, and coincides with Head exactly when the head is released. */
  lemma {:induction false} TrackedPointers(e: Entry, m: Mark)
    requires Tracks(e, m)
    ensures 0 <= e.stable <= e.head <= |e.versions|
    ensures e.stable == 0 || Released(e, e.stable)
    ensures e.stable == e.head <==> Released(e, e.head)
  {
    assert InWindow(m, |e.versions|, e.head);
  }

  /** Rolling back any chain to the revision that is already its head is a no-op exactly when
      Stable names a released version up to the head, or none, and no later one is released. */
  lemma {:induction false} RollbackToHeadIsNoOpIff(e: Entry)
    requires e.ByRev(e.head).Some?
    ensures RolledBack(e, e.head) == Ok(e) <==>
            && (e.stable == 0 || (1 <= e.stable <= e.head && Released(e, e.stable)))
            && forall q :: e.stable < q <= e.head ==> !Released(e, q)
  {
    var st := LastReleased(e, e.head);
    if st != e.stable && st > 0 {
      assert Released(e, st);
    }
  }

  /** In a hub's life: it moves Stable exactly when one of the versions the latest rollback skipped
      was released, and the head has passed it. */
  lemma {:induction false} RollbackToHeadMovesStableIff(e: Entry, m: Mark)
    requires Tracks(e, m)
    ensures RolledBack(e, e.head) != Ok(e) <==>
            exists q :: m.target < q <= m.len && e.stable < q <= e.head && Released(e, q)
  {
    if RolledBack(e, e.head) != Ok(e) {
      TrackedPointers(e, m);
      var q := LastReleased(e, e.head);
      assert Released(e, q) && !InWindow(m, |e.versions|, q);
    }
  }

  /** After publishing 1 and 2 to everyone, rolling back to 1 and publishing 3 to some, Stable is
      1; rolling back to the head, 3, moves it to 2. */
  lemma {:induction false} RollbackToHeadCanMoveStable(v: VersionMeta, rule: GrayRule)
    requires !Full(Some(rule))
    ensures var all := v.(gray := None);
            var two := Appended(Created([97], [98], all.(rev := 1)).value, all.(rev := 2)).value;
            var three := Appended(RolledBack(two, 1).value, v.(rev := 3, gray := Some(rule))).value;
            three.head == 3 && three.stable == 1 &&
            RolledBack(three, 3).Ok? && RolledBack(three, 3).value.stable == 2
  {
    var all := v.(gray := None);
    var one := Created([97], [98], all.(rev := 1)).value;
    CreatedTracks([97], [98], all.(rev := 1));
    AppendedTracks(one, Mark(0, 0), all.(rev := 2));
    var two := Appended(one, all.(rev := 2)).value;
    RolledBackTracks(two, Mark(0, 0), 1);
    var back := RolledBack(two, 1).value;
    assert LastReleased(two, 1) == 1;
    var three := Appended(back, v.(rev := 3, gray := Some(rule))).value;
    assert LastReleased(three, 3) == LastReleased(three, 2) == 2;
  }

  // ----- Which chains have a history -----

  datatype ChainOp = AppendOne(v: VersionMeta) | RollTo(rev: int)

  /** What becomes of a chain: created with v, then changed by the calls in order. */
  function Life(ns: Bytes, key: Bytes, v: VersionMeta, ops: seq<ChainOp>): Result<Entry> {
    if ops == [] then Created(ns, key, v)
    else match Life(ns, key, v, ops[..|ops| - 1])
      case Err(err) => Err(err)
      case Ok(e) => match ops[|ops| - 1]
        case AppendOne(next) => Appended(e, next)
        case RollTo(rev) => RolledBack(e, rev)
  }

  lemma {:induction false} LifeSnoc(ns: Bytes, key: Bytes, v: VersionMeta, ops: seq<ChainOp>, op: ChainOp)
    requires Life(ns, key, v, ops).Ok?
    ensures var e := Life(ns, key, v, ops).value;
            Life(ns, key, v, ops + [op]) == match op
              case AppendOne(next) => Appended(e, next)
              case RollTo(rev) => RolledBack(e, rev)
  {
    assert (ops + [op])[..|ops|] == ops;
  }

  /** What can be checked on the chain alone: behind the end of the chain, Stable is the last release
      up to Head; at its end, Stable is Head if that is released, and otherwise any release, or none
      unless the first version is one. */
  predicate Attainable(e: Entry) {
    var n := |e.versions|;
    && ValidChain(e)
    && if e.head < n then e.stable == LastReleased(e, e.head)
       else if Released(e, n) then e.stable == n
       else if e.stable == 0 then !Released(e, 1)
       else Released(e, e.stable)
  }

  /** The latest rollback of an attainable chain can be read off it. */
  function MarkOf(e: Entry): Mark {
    var n := |e.versions|;
    if e.head < n then Mark(e.head, n)
    else if Released(e, n) || (e.stable == 0 && n == 1) then Mark(0, 0)
    else if e.stable == 0 then Mark(1, n - 1)
    else Mark(e.stable, n - 1)
  }

  lemma {:induction false} TracksIffAttainable(e: Entry)
    ensures (exists m :: Tracks(e, m)) <==> Attainable(e)
    ensures Attainable(e) ==> Tracks(e, MarkOf(e))
  {
    if Attainable(e) {
      assert forall q :: InWindow(MarkOf(e), |e.versions|, q) && Released(e, q) ==> q <= e.stable;
      assert Tracks(e, MarkOf(e));
    }
    if m :| Tracks(e, m) {
      TrackedIsAttainable(e, m);
    }
  }

  lemma {:induction false} TrackedIsAttainable(e: Entry, m: Mark)
    requires Tracks(e, m)
    ensures Attainable(e)
  {
    var n := |e.versions|;
    TrackedPointers(e, m);
    assert InWindow(m, n, e.head);
    if e.head < n {
      assert forall q :: 1 <= q <= e.head <==> InWindow(m, n, q);
    } else if e.stable == 0 && Released(e, 1) {
      assert InWindow(m, n, 1);
    }
  }

  lemma {:induction false} LifeTracks(ns: Bytes, key: Bytes, v: VersionMeta, ops: seq<ChainOp>) returns (m: Mark)
    requires Life(ns, key, v, ops).Ok?
    ensures Tracks(Life(ns, key, v, ops).value, m)
  {
    if ops == [] {
      m := Mark(0, 0);
      CreatedTracks(ns, key, v.(rev := 1));
    } else {
      var e := Life(ns, key, v, ops[..|ops| - 1]).value;
      m := LifeTracks(ns, key, v, ops[..|ops| - 1]);
      match ops[|ops| - 1] {
        case AppendOne(next) =>
          AppendedTracks(e, m, next.(rev := NextRev(Some(e))));
        case RollTo(rev) =>
          RolledBackTracks(e, m, rev);
          m := Mark(rev, |e.versions|);
      }
    }
  }

  /** Versions and latest rollback leave no choice for the pointers. */
  lemma {:induction false} TracksDetermines(e: Entry, e': Entry, m: Mark)
    requires Tracks(e, m) && Tracks(e', m)
    requires e.ns == e'.ns && e.key == e'.key && e.versions == e'.versions
    ensures e == e'
  {
    assert forall q :: Released(e, q) == Released(e', q);
    if e.stable > 0 {
      assert Released(e', e.stable);
    }
    if e'.stable > 0 {
      assert Released(e, e'.stable);
    }
  }

  /** Appending the versions of vs one after the other. */
  lemma {:induction false} AppendAll(
      ns: Bytes, key: Bytes, vs: seq<VersionMeta>, ops: seq<ChainOp>, m: Mark, k: nat) returns (ops': seq<ChainOp>)
    requires 1 <= k <= |vs| && forall i :: 0 <= i < |vs| ==> vs[i].rev == i + 1
    requires Life(ns, key, vs[0], ops).Ok?
    requires var e := Life(ns, key, vs[0], ops).value;
             e.ns == ns && e.key == key && e.versions == vs[..k] && Tracks(e, m)
    ensures Life(ns, key, vs[0], ops').Ok?
    ensures var e := Life(ns, key, vs[0], ops').value;
            e.ns == ns && e.key == key && e.versions == vs && Tracks(e, m)
    decreases |vs| - k
  {
    if k == |vs| {
      assert vs[..k] == vs;
      ops' := ops;
    } else {
      var e := Life(ns, key, vs[0], ops).value;
      LifeSnoc(ns, key, vs[0], ops, AppendOne(vs[k]));
      AppendedTracks(e, m, vs[k]);
      assert vs[..k + 1] == vs[..k] + [vs[k]];
      ops' := AppendAll(ns, key, vs, ops + [AppendOne(vs[k])], m, k + 1);
    }
  }

  /** Every chain with pointers in closed form has a history: write the versions up to the rollback,
      roll back, write the rest. */
  lemma {:induction false} TrackedIsLived(e: Entry, m: Mark) returns (ops: seq<ChainOp>)
    requires Tracks(e, m)
    ensures Life(e.ns, e.key, e.versions[0], ops) == Ok(e)
  {
    var vs := e.versions;
    CreatedTracks(e.ns, e.key, vs[0]);
    assert [vs[0]] == vs[..1];
    if m.len == 0 {
      ops := AppendAll(e.ns, e.key, vs, [], m, 1);
    } else {
      var before := vs[..m.len];
      assert before[..1] == vs[..1];
      ops := AppendAll(e.ns, e.key, before, [], Mark(0, 0), 1);
      var mid := Life(e.ns, e.key, vs[0], ops).value;
      LifeSnoc(e.ns, e.key, vs[0], ops, RollTo(m.target));
      RolledBackTracks(mid, Mark(0, 0), m.target);
      ops := AppendAll(e.ns, e.key, vs, ops + [RollTo(m.target)], m, m.len);
    }
    TracksDetermines(Life(e.ns, e.key, vs[0], ops).value, e, m);
  }

  /** A chain can come about by creating, appending and rolling back exactly when its pointers pass
      the test. */
  lemma {:induction false} LivedIffAttainable(e: Entry)
    ensures (exists v, ops :: Life(e.ns, e.key, v, ops) == Ok(e)) <==> Attainable(e)
  {
    TracksIffAttainable(e);
    if Attainable(e) {
      var ops := TrackedIsLived(e, MarkOf(e));
    }
    if v, ops :| Life(e.ns, e.key, v, ops) == Ok(e) {
      var m := LifeTracks(e.ns, e.key, v, ops);
    }
  }
}
