/** Byte-wise order of strings, and Go's sort on values (sort.Strings, sort.Slice). */
module Order {
  import opened Base

  predicate Less(a: Bytes, b: Bytes) {
    if b == [] then false
    else if a == [] then true
    else a[0] < b[0] || (a[0] == b[0] && Less(a[1..], b[1..]))
  }

  predicate AtMost(a: Bytes, b: Bytes) {
    !Less(b, a)
  }

  /** a and b agree up to k, where a ends or has the smaller byte. */
  predicate LessFrom(a: Bytes, b: Bytes, k: int) {
    0 <= k <= |a| && k < |b| && a[..k] == b[..k] && (k == |a| || a[k] < b[k])
  }

  /** A proper prefix comes first; otherwise the first byte that differs decides. */
  lemma {:induction false} LessIsLexicographic(a: Bytes, b: Bytes)
    ensures Less(a, b) <==> exists k :: LessFrom(a, b, k)
  {
    if a != [] && b != [] && a[0] == b[0] {
      LessIsLexicographic(a[1..], b[1..]);
      forall k
        ensures LessFrom(a, b, k) <==> LessFrom(a[1..], b[1..], k - 1)
      {
        LessFromTail(a, b, k);
      }
      if k :| LessFrom(a[1..], b[1..], k) {
        assert LessFrom(a, b, k + 1);
      }
    } else if Less(a, b) {
      assert LessFrom(a, b, 0);
    } else if k :| LessFrom(a, b, k) {
      LessFromStart(a, b, k);
    }
  }

  lemma {:induction false} LessFromStart(a: Bytes, b: Bytes, k: int)
    requires LessFrom(a, b, k)
    ensures b != [] && (a == [] || a[0] < b[0] || (a[0] == b[0] && k > 0))
  {
    if k > 0 {
      assert a[..k][0] == b[..k][0];
    }
  }

  lemma {:induction false} LessFromTail(a: Bytes, b: Bytes, k: int)
    requires a != [] && b != [] && a[0] == b[0]
    ensures LessFrom(a, b, k) <==> LessFrom(a[1..], b[1..], k - 1)
  {
    if 1 <= k <= |a| && k < |b| {
      assert a[..k] == [a[0]] + a[1..][..k - 1] && b[..k] == [b[0]] + b[1..][..k - 1];
      assert a[1..][..k - 1] == a[..k][1..] && b[1..][..k - 1] == b[..k][1..];
    }
  }

  lemma {:induction false} LessIsTotal(a: Bytes, b: Bytes)
    ensures Less(a, b) || a == b || Less(b, a)
    ensures !(Less(a, b) && Less(b, a))
  {
    if a != [] && b != [] {
      LessIsTotal(a[1..], b[1..]);
      assert a == [a[0]] + a[1..] && b == [b[0]] + b[1..];
    }
  }

  lemma {:induction false} LessIsTransitive(a: Bytes, b: Bytes, c: Bytes)
    requires Less(a, b) && Less(b, c)
    ensures Less(a, c)
  {
    if a != [] && a[0] == b[0] == c[0] {
      LessIsTransitive(a[1..], b[1..], c[1..]);
    }
  }

  ghost predicate TotalOrder<T(!new)>(le: (T, T) -> bool) {
    && (forall x, y :: le(x, y) || le(y, x))
    && (forall x, y, z :: le(x, y) && le(y, z) ==> le(x, z))
  }

  lemma {:induction false} AtMostIsTotalOrder()
    ensures TotalOrder(AtMost)
  {
    forall x, y
      ensures AtMost(x, y) || AtMost(y, x)
    {
      LessIsTotal(x, y);
    }
    forall x, y, z | AtMost(x, y) && AtMost(y, z)
      ensures AtMost(x, z)
    {
      LessIsTotal(x, y);
      LessIsTotal(y, z);
      LessIsTotal(z, x);
      if Less(z, x) && Less(x, y) {
        LessIsTransitive(z, x, y);
        LessIsTotal(y, z);
      }
    }
  }

  ghost predicate SortedBy<T>(le: (T, T) -> bool, s: seq<T>) {
    forall i, j :: 0 <= i < j < |s| ==> le(s[i], s[j])
  }

  function Insert<T>(le: (T, T) -> bool, x: T, s: seq<T>): (r: seq<T>)
    ensures multiset(r) == multiset(s) + multiset{x}
    ensures |r| == |s| + 1
  {
    if s == [] || le(x, s[0]) then
      assert multiset([x] + s) == multiset(s) + multiset{x};
      [x] + s
    else
      var r := [s[0]] + Insert(le, x, s[1..]);
      assert s == [s[0]] + s[1..];
      r
  }

  function Sort<T>(le: (T, T) -> bool, s: seq<T>): (r: seq<T>)
    ensures multiset(r) == multiset(s)
    ensures |r| == |s|
  {
    if s == [] then []
    else
      assert s == [s[0]] + s[1..];
      Insert(le, s[0], Sort(le, s[1..]))
  }

  lemma {:induction false} InsertIsSorted<T(!new)>(le: (T, T) -> bool, x: T, s: seq<T>)
    requires TotalOrder(le) && SortedBy(le, s)
    ensures SortedBy(le, Insert(le, x, s))
  {
    var r := Insert(le, x, s);
    if s == [] || le(x, s[0]) {
      forall j | 0 < j < |r|
        ensures le(x, r[j])
      {
        assert r[j] == s[j - 1];
        assert j == 1 || le(s[0], s[j - 1]);
      }
    } else {
      var tail := Insert(le, x, s[1..]);
      InsertIsSorted(le, x, s[1..]);
      forall j | 0 <= j < |tail|
        ensures le(s[0], tail[j])
      {
        assert tail[j] in multiset(tail);
        assert tail[j] == x || tail[j] in s[1..];
      }
      assert r == [s[0]] + tail;
    }
  }

  lemma {:induction false} SortIsSorted<T(!new)>(le: (T, T) -> bool, s: seq<T>)
    requires TotalOrder(le)
    ensures SortedBy(le, Sort(le, s))
  {
    if s != [] {
      SortIsSorted(le, s[1..]);
      InsertIsSorted(le, s[0], Sort(le, s[1..]));
    }
  }

  lemma {:induction false} SortOfSorted<T>(le: (T, T) -> bool, s: seq<T>)
    requires SortedBy(le, s)
    ensures Sort(le, s) == s
  {
    if s != [] {
      SortOfSorted(le, s[1..]);
      assert |s| > 1 ==> le(s[0], s[1]);
      assert s == [s[0]] + s[1..];
    }
  }

  lemma {:induction false} SortKeepsElements<T>(le: (T, T) -> bool, s: seq<T>, x: T)
    ensures x in Sort(le, s) <==> x in s
  {
    assert x in Sort(le, s) <==> x in multiset(Sort(le, s));
    assert x in s <==> x in multiset(s);
  }

  // ----- Strictly increasing lists of strings -----

  ghost predicate StrictlySorted(s: seq<Bytes>) {
    forall i, j :: 0 <= i < j < |s| ==> Less(s[i], s[j])
  }

  ghost predicate NoDuplicates<T>(s: seq<T>) {
    forall i, j :: 0 <= i < j < |s| ==> s[i] != s[j]
  }

  lemma {:induction false} NoDuplicatesIsMultiplicityOne<T>(s: seq<T>)
    ensures NoDuplicates(s) <==> forall x :: x in s ==> multiset(s)[x] == 1
  {
    if s != [] {
      var init, last := s[..|s| - 1], s[|s| - 1];
      assert s == init + [last];
      NoDuplicatesIsMultiplicityOne(init);
      if NoDuplicates(s) {
        assert last !in init;
        forall x | x in s
          ensures multiset(s)[x] == 1
        {
          assert x == last || x in init;
          assert last !in multiset(init);
        }
      }
      if forall x :: x in s ==> multiset(s)[x] == 1 {
        assert last in s && multiset(s)[last] == multiset(init)[last] + 1;
        assert last !in multiset(init);
        forall x | x in init
          ensures multiset(init)[x] == 1
        {
          assert x in multiset(init) && x in s;
        }
      }
    }
  }

  /** Sorting distinct strings leaves no two that are equal or out of order. */
  lemma {:induction false} SortIsStrict(s: seq<Bytes>)
    requires NoDuplicates(s)
    ensures StrictlySorted(Sort(AtMost, s))
  {
    var r := Sort(AtMost, s);
    AtMostIsTotalOrder();
    SortIsSorted(AtMost, s);
    NoDuplicatesIsMultiplicityOne(s);
    forall x | x in r
      ensures multiset(r)[x] == 1
    {
      SortKeepsElements(AtMost, s, x);
    }
    NoDuplicatesIsMultiplicityOne(r);
    forall i, j | 0 <= i < j < |r|
      ensures Less(r[i], r[j])
    {
      LessIsTotal(r[i], r[j]);
      assert AtMost(r[i], r[j]);
    }
  }

  lemma {:induction false} StrictIsSortedAndDistinct(s: seq<Bytes>)
    requires StrictlySorted(s)
    ensures SortedBy(AtMost, s) && NoDuplicates(s)
  {
    forall i, j | 0 <= i < j < |s|
      ensures AtMost(s[i], s[j]) && s[i] != s[j]
    {
      LessIsTotal(s[i], s[j]);
    }
  }

  /** A strictly sorted list is determined by its elements. */
  lemma {:induction false} StrictListsAgree(s: seq<Bytes>, t: seq<Bytes>)
    requires StrictlySorted(s) && StrictlySorted(t)
    requires forall x :: x in s <==> x in t
    ensures s == t
  {
    if s == [] {
      if t != [] {
        SameElementsNonempty(t, s);
      }
    } else {
      SameElementsNonempty(s, t);
      var i :| 0 <= i < |t| && t[i] == s[0];
      var j :| 0 <= j < |s| && s[j] == t[0];
      LessIsTotal(s[0], t[0]);
      assert s[0] == t[0];
      forall x
        ensures x in s[1..] <==> x in t[1..]
      {
        StrictTail(s, x);
        StrictTail(t, x);
      }
      StrictListsAgree(s[1..], t[1..]);
      assert s == [s[0]] + s[1..] && t == [t[0]] + t[1..];
    }
  }

  lemma {:induction false} SameElementsNonempty(s: seq<Bytes>, t: seq<Bytes>)
    requires s != [] && forall x :: x in s <==> x in t
    ensures t != [] && s[0] in t && t[0] in s
  {
    assert s[0] in s;
    assert t[0] in t;
  }

  lemma {:induction false} StrictTail(s: seq<Bytes>, x: Bytes)
    requires s != [] && StrictlySorted(s)
    ensures x in s[1..] <==> x in s && x != s[0]
  {
    LessIsTotal(s[0], s[0]);
    assert s == [s[0]] + s[1..];
    if x in s[1..] {
      var k :| 0 <= k < |s[1..]| && s[1..][k] == x;
      assert s[k + 1] == x && Less(s[0], s[k + 1]);
    }
  }
}
