/** internal/store/memory.go: the in-process store, a map from ns + NUL + key to the chain. */
module StoreMemory {
  import opened Base
  import opened Order
  import opened Meta
  import opened StoreEntry

  type Entries = map<Bytes, Entry>

  // ----- Counting what is stored -----

  ghost function IdsOf(m: Entries, ns: Bytes): set<Bytes> {
    set id | id in m && m[id].ns == ns
  }

  ghost function KeyCount(m: Entries, ns: Bytes): nat {
    |IdsOf(m, ns)|
  }

  ghost function SumBytes(m: Entries, ids: set<Bytes>): nat
    requires ids <= m.Keys
  {
    if ids == {} then 0
    else
      var id :| id in ids;
      PayloadBytes(m[id].versions) + SumBytes(m, ids - {id})
  }

  ghost function ByteCount(m: Entries, ns: Bytes): nat {
    SumBytes(m, IdsOf(m, ns))
  }

  /** The order in which a sum is taken does not matter. */
  lemma {:induction false} SumWithout(m: Entries, ids: set<Bytes>, id: Bytes)
    requires ids <= m.Keys && id in ids
    ensures SumBytes(m, ids) == PayloadBytes(m[id].versions) + SumBytes(m, ids - {id})
    decreases ids
  {
    var first :| first in ids && SumBytes(m, ids) == PayloadBytes(m[first].versions) + SumBytes(m, ids - {first});
    if first != id {
      SumWithout(m, ids - {first}, id);
      SumWithout(m, ids - {id}, first);
      assert ids - {first} - {id} == ids - {id} - {first};
    }
  }

  lemma {:induction false} SumSame(m: Entries, m': Entries, ids: set<Bytes>)
    requires ids <= m.Keys && ids <= m'.Keys
    requires forall id :: id in ids ==> m[id] == m'[id]
    ensures SumBytes(m, ids) == SumBytes(m', ids)
    decreases ids
  {
    if ids != {} {
      var id :| id in ids;
      SumWithout(m, ids, id);
      SumWithout(m', ids, id);
      SumSame(m, m', ids - {id});
    }
  }

  /** Storing an entry moves the counts of its namespace by what is new in it, and no others. */
  lemma {:induction false} CountsAfterStore(m: Entries, id: Bytes, e: Entry, ns: Bytes)
    requires id in m ==> m[id].ns == e.ns
    ensures KeyCount(m[id := e], ns) == KeyCount(m, ns) + if id !in m && ns == e.ns then 1 else 0
    ensures ByteCount(m[id := e], ns) == ByteCount(m, ns) +
            if ns == e.ns then PayloadBytes(e.versions) - (if id in m then PayloadBytes(m[id].versions) else 0) else 0
  {
    var m' := m[id := e];
    var before, after := IdsOf(m, ns), IdsOf(m', ns);
    IdsAfterStore(m, id, e, ns);
    hide SumBytes, IdsOf, PayloadBytes;
    if ns == e.ns {
      SumWithout(m', after, id);
      SumSame(m, m', before - {id});
      if id in m {
        SumWithout(m, before, id);
      }
    } else {
      SumSame(m, m', before);
    }
  }

  lemma {:induction false} IdsAfterStore(m: Entries, id: Bytes, e: Entry, ns: Bytes)
    requires id in m ==> m[id].ns == e.ns
    ensures var before, after := IdsOf(m, ns), IdsOf(m[id := e], ns);
            && before <= m.Keys && after <= m[id := e].Keys
            && (id in before <==> id in m && ns == e.ns)
            && (ns == e.ns ==>
              after == before + {id} && after - {id} == before - {id} && |after| == |before| + if id in m then 0 else 1)
            && (ns != e.ns ==> after == before)
            && (id !in before ==> before - {id} == before)
  {
    hide PayloadBytes;
    var before, after := IdsOf(m, ns), IdsOf(m[id := e], ns);
    if ns == e.ns {
      assert after == before + {id};
    } else {
      assert after == before;
    }
  }

  lemma {:induction false} CountsAfterRemove(m: Entries, id: Bytes, ns: Bytes)
    requires id in m
    ensures KeyCount(m - {id}, ns) == KeyCount(m, ns) - if ns == m[id].ns then 1 else 0
    ensures ByteCount(m - {id}, ns) == ByteCount(m, ns) - if ns == m[id].ns then PayloadBytes(m[id].versions) else 0
  {
    var m' := m - {id};
    var before, after := IdsOf(m, ns), IdsOf(m', ns);
    assert after == before - {id};
    SumSame(m, m', after);
    if ns == m[id].ns {
      SumWithout(m, before, id);
    } else {
      assert before - {id} == before;
    }
  }

  function WithoutNS(m: Entries, ns: Bytes): Entries {
    map id | id in m && m[id].ns != ns :: m[id]
  }

  function OfNS(m: Entries, ns: Bytes): Entries {
    map id | id in m && m[id].ns == ns :: m[id]
  }

  lemma {:induction false} EmptySplits(ns: Bytes)
    ensures WithoutNS(map[], ns) == map[] == OfNS(map[], ns)
  {}

  lemma {:induction false} OneMoreSplits(m: Entries, id: Bytes, e: Entry, ns: Bytes)
    requires id !in m
    ensures WithoutNS(m[id := e], ns) == if e.ns == ns then WithoutNS(m, ns) else WithoutNS(m, ns)[id := e]
    ensures OfNS(m[id := e], ns) == if e.ns == ns then OfNS(m, ns)[id := e] else OfNS(m, ns)
    ensures id !in OfNS(m, ns)
  {}

  lemma {:induction false} CountsAfterRemoveNS(m: Entries, gone: Bytes, ns: Bytes)
    ensures KeyCount(WithoutNS(m, gone), ns) == if ns == gone then 0 else KeyCount(m, ns)
    ensures ByteCount(WithoutNS(m, gone), ns) == if ns == gone then 0 else ByteCount(m, ns)
  {
    var m' := WithoutNS(m, gone);
    if ns == gone {
      assert IdsOf(m', ns) == {};
    } else {
      assert IdsOf(m', ns) == IdsOf(m, ns);
      SumSame(m, m', IdsOf(m, ns));
    }
  }

  // ----- Writing -----

  /** The chain PutVersion stores. */
  function PutVersionSpec(m: Entries, ns: Bytes, key: Bytes, v: VersionMeta): Result<Entry> {
    var id := NsKey(ns, key);
    var out := if id in m then Appended(m[id], v) else Created(ns, key, v);
    if out.Ok? && ChainError(out.value).Some? then Err(ChainError(out.value).value) else out
  }

  function NextRevOf(m: Entries, ns: Bytes, key: Bytes): int {
    NextRev(if NsKey(ns, key) in m then Some(m[NsKey(ns, key)]) else None)
  }

  function RollbackSpec(m: Entries, ns: Bytes, key: Bytes, rev: int): Result<Entry> {
    var id := NsKey(ns, key);
    if id !in m then Err(Error(NotFound, Ref(ns, key))) else RolledBack(m[id], rev)
  }

  // ----- Listing and replacing everything -----

  /** By namespace, then by key. */
  predicate EntryAtMost(a: Entry, b: Entry) {
    Less(a.ns, b.ns) || (a.ns == b.ns && AtMost(a.key, b.key))
  }

  lemma {:induction false} EntryAtMostIsTotalOrder()
    ensures TotalOrder(EntryAtMost)
  {
    AtMostIsTotalOrder();
    forall x, y
      ensures EntryAtMost(x, y) || EntryAtMost(y, x)
    {
      LessIsTotal(x.ns, y.ns);
      LessIsTotal(x.key, y.key);
    }
    forall x, y, z | EntryAtMost(x, y) && EntryAtMost(y, z)
      ensures EntryAtMost(x, z)
    {
      if Less(x.ns, y.ns) && Less(y.ns, z.ns) {
        LessIsTransitive(x.ns, y.ns, z.ns);
      }
    }
  }

  /** es holds the entries of m, each once. */
  ghost predicate Collects(es: seq<Entry>, m: Entries) {
    && |es| == |m|
    && (forall id :: id in m ==> m[id] in es)
    && (forall e :: e in es ==> exists id :: id in m && m[id] == e)
  }

  /** ... by namespace and key. */
  ghost predicate Lists(es: seq<Entry>, m: Entries) {
    Collects(es, m) && SortedBy(EntryAtMost, es)
  }

  function FirstChainError(es: seq<Option<Entry>>): Option<Error> {
    if es == [] then None
    else
      var before := FirstChainError(es[..|es| - 1]);
      var last := es[|es| - 1];
      if before.Some? || last.None? then before else ChainError(last.value)
  }

  function Restored(es: seq<Option<Entry>>): Entries {
    if es == [] then map[]
    else
      var before := Restored(es[..|es| - 1]);
      var last := es[|es| - 1];
      if last.None? then before else before[NsKey(last.value.ns, last.value.key) := last.value]
  }

  /** Of several entries with the same name the last one is stored, nil entries are skipped, and nothing
      else is stored. */
  lemma {:induction false} LastEntryCounts(es: seq<Option<Entry>>, i: nat)
    requires i < |es| && es[i].Some?
    requires forall j :: i < j < |es| && es[j].Some? ==>
               NsKey(es[j].value.ns, es[j].value.key) != NsKey(es[i].value.ns, es[i].value.key)
    ensures var id := NsKey(es[i].value.ns, es[i].value.key);
            id in Restored(es) && Restored(es)[id] == es[i].value
  {
    hide NsKey;
    if i < |es| - 1 {
      LastEntryCounts(es[..|es| - 1], i);
    }
  }

  /** Every chain is stored under its own name. */
  predicate WellKeyed(m: Entries) {
    forall id :: id in m ==> id == NsKey(m[id].ns, m[id].key)
  }

  lemma {:induction false} WithoutNSKeyed(m: Entries, ns: Bytes)
    ensures WellKeyed(m) ==> WellKeyed(WithoutNS(m, ns))
  {}

  class Memory {
    var entries: Entries

    constructor ()
      ensures entries == map[]
    {
      entries := map[];
    }

    method Get(ns: Bytes, key: Bytes) returns (r: Result<Entry>)
      ensures r == if NsKey(ns, key) in entries then Ok(entries[NsKey(ns, key)]) else Err(Error(NotFound, Ref(ns, key)))
    {
      var id := NsKey(ns, key);
      if id !in entries {
        return Err(Error(NotFound, Ref(ns, key)));
      }
      r := Ok(entries[id]);
    }

    method NextRevision(ns: Bytes, key: Bytes) returns (rev: int)
      ensures rev == NextRevOf(entries, ns, key)
    {
      var id := NsKey(ns, key);
      rev := NextRev(if id in entries then Some(entries[id]) else None);
    }

    method PutVersion(ns: Bytes, key: Bytes, v: VersionMeta) returns (r: Result<Entry>)
      modifies this
      ensures r == PutVersionSpec(old(entries), ns, key, v)
      ensures entries == if r.Ok? then old(entries)[NsKey(ns, key) := r.value] else old(entries)
      ensures WellKeyed(old(entries)) ==> WellKeyed(entries)
    {
      var id := NsKey(ns, key);
      if id !in entries {
        r := Created(ns, key, v);
      } else {
        r := AppendVersion(entries[id], v);
      }
      if r.Err? {
        return;
      }
      var err := ValidateChain(r.value);
      if err.Some? {
        return Err(err.value);
      }
      entries := entries[id := r.value];
    }

    method Rollback(ns: Bytes, key: Bytes, rev: int) returns (r: Result<Entry>)
      modifies this
      ensures r == RollbackSpec(old(entries), ns, key, rev)
      ensures entries == if r.Ok? then old(entries)[NsKey(ns, key) := r.value] else old(entries)
      ensures WellKeyed(old(entries)) ==> WellKeyed(entries)
    {
      var id := NsKey(ns, key);
      if id !in entries {
        return Err(Error(NotFound, Ref(ns, key)));
      }
      r := RollbackHead(entries[id], rev);
      if r.Ok? {
        entries := entries[id := r.value];
      }
    }

    method DeleteKey(ns: Bytes, key: Bytes) returns (r: Result<Entry>)
      modifies this
      ensures NsKey(ns, key) in old(entries) ==>
                r == Ok(old(entries)[NsKey(ns, key)]) && entries == old(entries) - {NsKey(ns, key)}
      ensures NsKey(ns, key) !in old(entries) ==>
                r == Err(Error(NotFound, Ref(ns, key))) && entries == old(entries)
      ensures WellKeyed(old(entries)) ==> WellKeyed(entries)
    {
      var id := NsKey(ns, key);
      if id !in entries {
        return Err(Error(NotFound, Ref(ns, key)));
      }
      r := Ok(entries[id]);
      entries := entries - {id};
    }

    method DeleteNS(ns: Bytes) returns (removed: seq<Entry>)
      modifies this
      ensures entries == WithoutNS(old(entries), ns)
      ensures WellKeyed(old(entries)) ==> WellKeyed(entries)
      ensures Lists(removed, OfNS(old(entries), ns))
    {
      hide Collects, Lists, Sort, WithoutNS, OfNS, WellKeyed;
      EmptyCollects();
      EmptySplits(ns);
      var kept: Entries := map[];
      ghost var seen: Entries := map[];
      removed := [];
      var left := entries.Keys;
      while left != {}
        invariant left <= entries.Keys && entries == old(entries) && seen == entries - left
        invariant kept == WithoutNS(seen, ns) && Collects(removed, OfNS(seen, ns))
      {
        var id :| id in left;
        OneMoreSplits(seen, id, entries[id], ns);
        if entries[id].ns == ns {
          CollectOne(removed, OfNS(seen, ns), id, entries[id]);
          removed := removed + [entries[id]];
        } else {
          kept := kept[id := entries[id]];
        }
        assert seen[id := entries[id]] == entries - (left - {id});
        left := left - {id};
        seen := seen[id := entries[id]];
      }
      assert seen == entries;
      SortCollected(removed, OfNS(entries, ns));
      WithoutNSKeyed(entries, ns);
      entries := kept;
      removed := Sort(EntryAtMost, removed);
    }

    method AllEntries() returns (out: seq<Entry>)
      ensures Lists(out, entries)
    {
      hide Collects, Lists, Sort;
      EmptyCollects();
      out := [];
      var left := entries.Keys;
      ghost var seen: Entries := map[];
      while left != {}
        invariant left <= entries.Keys && seen == entries - left
        invariant Collects(out, seen)
      {
        var id :| id in left;
        CollectOne(out, seen, id, entries[id]);
        assert seen[id := entries[id]] == entries - (left - {id});
        out := out + [entries[id]];
        left := left - {id};
        seen := seen[id := entries[id]];
      }
      assert seen == entries;
      SortCollected(out, entries);
      out := Sort(EntryAtMost, out);
    }

    method CountKeys(ns: Bytes) returns (n: nat)
      ensures n == KeyCount(entries, ns)
    {
      n := 0;
      var left := entries.Keys;
      ghost var counted: set<Bytes> := {};
      while left != {}
        invariant left <= entries.Keys
        invariant counted == (set id | id in entries && id !in left && entries[id].ns == ns) && n == |counted|
      {
        var id :| id in left;
        left := left - {id};
        if entries[id].ns == ns {
          n := n + 1;
          counted := counted + {id};
        }
      }
      assert counted == IdsOf(entries, ns);
    }

    method CountBytes(ns: Bytes) returns (n: nat)
      ensures n == ByteCount(entries, ns)
    {
      n := 0;
      var left := entries.Keys;
      ghost var counted: set<Bytes> := {};
      while left != {}
        invariant left <= entries.Keys
        invariant counted == (set id | id in entries && id !in left && entries[id].ns == ns)
        invariant n == SumBytes(entries, counted)
      {
        var id :| id in left;
        left := left - {id};
        if entries[id].ns == ns {
          var bytes := BytesOf(entries[id]);
          n := n + bytes;
          SumWithout(entries, counted + {id}, id);
          assert counted + {id} - {id} == counted;
          counted := counted + {id};
        }
      }
      assert counted == IdsOf(entries, ns);
    }

    method ReplaceAll(es: seq<Option<Entry>>) returns (err: Option<Error>)
      modifies this
      ensures err == FirstChainError(es)
      ensures entries == if err.None? then Restored(es) else old(entries)
      ensures err.None? ==> WellKeyed(entries)
    {
      var next: Entries := map[];
      for i := 0 to |es|
        invariant entries == old(entries)
        invariant FirstChainError(es[..i]).None? && next == Restored(es[..i])
      {
        assert es[..i + 1][..i] == es[..i];
        if es[i].None? {
          continue;
        }
        err := ValidateChain(es[i].value);
        if err.Some? {
          ErrorStays(es, i + 1);
          return;
        }
        next := next[NsKey(es[i].value.ns, es[i].value.key) := es[i].value];
      }
      assert es[..|es|] == es;
      RestoredHolds(es);
      entries := next;
      err := None;
    }
  }

  lemma {:induction false} ErrorStays(es: seq<Option<Entry>>, i: nat)
    requires i <= |es| && FirstChainError(es[..i]).Some?
    ensures FirstChainError(es) == FirstChainError(es[..i])
    decreases |es| - i
  {
    if i < |es| {
      assert es[..i + 1][..i] == es[..i];
      ErrorStays(es, i + 1);
    } else {
      assert es[..i] == es;
    }
  }

  lemma {:induction false} EmptyCollects()
    ensures Collects([], map[])
  {}

  lemma {:induction false} CollectOne(es: seq<Entry>, m: Entries, id: Bytes, e: Entry)
    requires Collects(es, m) && id !in m
    ensures Collects(es + [e], m[id := e])
  {
    var m' := m[id := e];
    assert m'[id] == e;
    forall x | x in es + [e]
      ensures exists i :: i in m' && m'[i] == x
    {
      if x in es {
        var i :| i in m && m[i] == x;
        assert i in m' && m'[i] == x;
      }
    }
  }

  lemma {:induction false} SortCollected(es: seq<Entry>, m: Entries)
    requires Collects(es, m)
    ensures Lists(Sort(EntryAtMost, es), m)
  {
    EntryAtMostIsTotalOrder();
    SortIsSorted(EntryAtMost, es);
    forall e {
      SortKeepsElements(EntryAtMost, es, e);
    }
  }

  function Wrap(es: seq<Entry>): (ws: seq<Option<Entry>>)
    ensures |ws| == |es| && forall i :: 0 <= i < |es| ==> ws[i] == Some(es[i])
  {
    seq(|es|, i requires 0 <= i < |es| => Some(es[i]))
  }

  /** Restoring a listing of well-keyed chains gives the same store back. */
  lemma {:induction false} RestoreOfListing(m: Entries, es: seq<Entry>)
    requires WellKeyed(m) && Collects(es, m)
    ensures Restored(Wrap(es)) == m
  {
    hide NsKey, Restored;
    var ws := Wrap(es);
    RestoredHolds(ws);
    forall i | 0 <= i < |ws|
      ensures NsKey(ws[i].value.ns, ws[i].value.key) in m
      ensures m[NsKey(ws[i].value.ns, ws[i].value.key)] == ws[i].value
    {
      assert es[i] in es;
    }
    forall id | id in m
      ensures id in Restored(ws)
    {
      var i :| 0 <= i < |es| && es[i] == m[id];
      assert ws[i] == Some(m[id]);
    }
  }

  lemma {:induction false} ListingHasNoError(m: Entries, es: seq<Entry>)
    requires Collects(es, m) && forall id :: id in m ==> ValidChain(m[id])
    ensures FirstChainError(Wrap(es)).None?
  {
    NoErrorAmongValid(Wrap(es));
    forall i | 0 <= i < |es|
      ensures ValidChain(es[i])
    {
      assert es[i] in es;
    }
  }

  ghost function NamesIn(es: seq<Entry>): set<Bytes> {
    set e | e in es :: NsKey(e.ns, e.key)
  }

  lemma {:induction false} FewNames(es: seq<Entry>)
    ensures |NamesIn(es)| <= |es|
  {
    if es != [] {
      var init, last := es[..|es| - 1], es[|es| - 1];
      FewNames(init);
      assert es == init + [last];
      assert NamesIn(es) == NamesIn(init) + {NsKey(last.ns, last.key)};
    }
  }

  /** A listing of a well-keyed store holds no entry twice. */
  lemma {:induction false} ListedOnce(m: Entries, es: seq<Entry>)
    requires WellKeyed(m) && Collects(es, m)
    ensures NoDuplicates(es)
  {
    assert NamesIn(es) == m.Keys;
    forall i, j | 0 <= i < j < |es|
      ensures es[i] != es[j]
    {
      if es[i] == es[j] {
        var less := es[..j] + es[j + 1..];
        forall e | e in es
          ensures e in less
        {
          var k :| 0 <= k < |es| && es[k] == e;
          var k' := if k == j then i else k;
          assert es[k'] == e;
          assert less[if k' < j then k' else k' - 1] == e;
        }
        assert NamesIn(less) == NamesIn(es);
        FewNames(less);
        assert false;
      }
    }
  }

  /** Dropping the last entry listed. */
  lemma {:induction false} ListingWithoutLast(m: Entries, es: seq<Entry>)
    requires WellKeyed(m) && Collects(es, m) && es != []
    ensures var e := es[|es| - 1];
            var id := NsKey(e.ns, e.key);
            && id in m && m[id] == e && WellKeyed(m - {id}) && Collects(es[..|es| - 1], m - {id})
  {
    hide NsKey;
    var init, e := es[..|es| - 1], es[|es| - 1];
    var id := NsKey(e.ns, e.key);
    assert e in es && es == init + [e];
    ListedOnce(m, es);
    forall x | x in init
      ensures exists i :: i in m - {id} && (m - {id})[i] == x
    {
      assert x in es && x != e;
      var i :| i in m && m[i] == x;
      assert i in m - {id};
    }
  }

  /** A listing runs through the names in their order: by namespace, and by key within one. */
  lemma {:induction false} ListingIsOrdered(m: Entries, es: seq<Entry>, i: nat, j: nat)
    requires WellKeyed(m) && Lists(es, m) && i < j < |es|
    ensures Less(es[i].ns, es[j].ns) || (es[i].ns == es[j].ns && Less(es[i].key, es[j].key))
  {
    hide NsKey, Less;
    ListedOnce(m, es);
    assert es[i] in es && es[j] in es;
    var id :| id in m && m[id] == es[i];
    var id' :| id' in m && m[id'] == es[j];
    LessIsTotal(es[i].key, es[j].key);
    assert EntryAtMost(es[i], es[j]);
  }

  /** Usage per namespace, added up entry by entry. */
  function UsageIn(es: seq<Entry>): map<Bytes, Usage> {
    if es == [] then map[]
    else
      var before, e := UsageIn(es[..|es| - 1]), es[|es| - 1];
      var u := if e.ns in before then before[e.ns] else Usage(0, 0);
      before[e.ns := Usage(u.keys + 1, u.bytes + PayloadBytes(e.versions))]
  }

  ghost function SpacesOf(m: Entries): set<Bytes> {
    set id | id in m :: m[id].ns
  }

  /** Adding up a listing counts what is stored. */
  lemma {:induction false} UsageOfListing(m: Entries, es: seq<Entry>)
    requires WellKeyed(m) && Collects(es, m)
    ensures UsageIn(es).Keys == SpacesOf(m)
    ensures forall ns :: ns in UsageIn(es) ==> UsageIn(es)[ns] == Usage(KeyCount(m, ns), ByteCount(m, ns))
  {
    hide NsKey, Collects, WellKeyed, KeyCount, ByteCount, PayloadBytes;
    if es == [] {
      EmptyListing(m);
    } else {
      var e := es[|es| - 1];
      var id := NsKey(e.ns, e.key);
      var less := m - {id};
      ListingWithoutLast(m, es);
      UsageOfListing(less, es[..|es| - 1]);
      assert m == less[id := e];
      assert SpacesOf(m) == SpacesOf(less) + {e.ns};
      if e.ns !in SpacesOf(less) {
        NothingInSpace(less, e.ns);
      }
      forall ns | ns in UsageIn(es)
        ensures UsageIn(es)[ns] == Usage(KeyCount(m, ns), ByteCount(m, ns))
      {
        CountsAfterStore(less, id, e, ns);
      }
    }
  }

  lemma {:induction false} CollectsAll(es: seq<Entry>, m: Entries)
    requires Collects(es, m)
    ensures |es| == |m|
  {}

  lemma {:induction false} EmptyListing(m: Entries)
    requires Collects([], m)
    ensures m == map[] && SpacesOf(m) == {}
  {}

  lemma {:induction false} NothingInSpace(m: Entries, ns: Bytes)
    requires ns !in SpacesOf(m)
    ensures KeyCount(m, ns) == 0 == ByteCount(m, ns)
  {
    assert forall id :: id in m ==> m[id].ns in SpacesOf(m);
    assert IdsOf(m, ns) == {};
  }

  /** The i-th of ws is e. */
  predicate At(ws: seq<Option<Entry>>, i: int, e: Entry) {
    0 <= i < |ws| && ws[i] == Some(e)
  }

  /** Every chain restored is one of those given, under its own name, and every name given is
      there. */
  lemma {:induction false} RestoredHolds(ws: seq<Option<Entry>>)
    ensures WellKeyed(Restored(ws))
    ensures forall id :: id in Restored(ws) ==> exists i :: At(ws, i, Restored(ws)[id])
    ensures forall i :: 0 <= i < |ws| && ws[i].Some? ==> NsKey(ws[i].value.ns, ws[i].value.key) in Restored(ws)
  {
    hide NsKey;
    if ws != [] {
      var init, last := ws[..|ws| - 1], ws[|ws| - 1];
      RestoredHolds(init);
      forall id | id in Restored(ws)
        ensures exists i :: At(ws, i, Restored(ws)[id])
      {
        if last.Some? && id == NsKey(last.value.ns, last.value.key) {
          assert At(ws, |ws| - 1, Restored(ws)[id]);
        } else {
          var i :| At(init, i, Restored(init)[id]);
          assert At(ws, i, Restored(ws)[id]);
        }
      }
      forall i | 0 <= i < |ws| && ws[i].Some?
        ensures NsKey(ws[i].value.ns, ws[i].value.key) in Restored(ws)
      {
        assert i < |init| ==> init[i] == ws[i];
      }
    }
  }

  lemma {:induction false} NoErrorAmongValid(ws: seq<Option<Entry>>)
    ensures FirstChainError(ws).None? <==> forall i :: 0 <= i < |ws| && ws[i].Some? ==> ValidChain(ws[i].value)
  {
    if ws != [] {
      var init := ws[..|ws| - 1];
      NoErrorAmongValid(init);
      assert forall i :: 0 <= i < |init| ==> init[i] == ws[i];
    }
  }
}
