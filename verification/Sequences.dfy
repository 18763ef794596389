/** Subsequences. */
module Sequences {

  /** s arises from t by deleting elements. */
  predicate Subsequence<T(==)>(s: seq<T>, t: seq<T>) {
    if s == [] then true
    else if t == [] then false
    else (s[0] == t[0] && Subsequence(s[1..], t[1..])) || Subsequence(s, t[1..])
  }

  lemma {:induction false} SubsequenceTail<T>(s: seq<T>, t: seq<T>)
    requires s != [] && Subsequence(s, t)
    ensures t != [] && Subsequence(s[1..], t[1..])
    decreases t
  {
    if s[0] == t[0] && Subsequence(s[1..], t[1..]) {
    } else {
      SubsequenceTail(s, t[1..]);
      SubsequenceWeaken(s[1..], t[1..]);
    }
  }

  /** A subsequence of a tail is a subsequence of the whole. */
  lemma {:induction false} SubsequenceWeaken<T>(s: seq<T>, t: seq<T>)
    requires t != [] && Subsequence(s, t[1..])
    ensures Subsequence(s, t)
  {}

  lemma {:induction false} SubsequenceReflexive<T>(s: seq<T>)
    ensures Subsequence(s, s)
  {
    if s != [] {
      SubsequenceReflexive(s[1..]);
    }
  }

  /** out is what keep selects of s, in the order of s, each element as often as it is there. */
  ghost predicate Selects<T(!new)>(out: seq<T>, s: seq<T>, keep: T -> bool) {
    Subsequence(out, s) && forall x :: multiset(out)[x] == if keep(x) then multiset(s)[x] else 0
  }

  lemma {:induction false} SelectsNone<T(!new)>(keep: T -> bool)
    ensures Selects([], [], keep)
  {}

  lemma {:induction false} SelectsLast<T(!new)>(out: seq<T>, s: seq<T>, keep: T -> bool, x: T)
    requires Selects(out, s, keep)
    ensures Selects(out + if keep(x) then [x] else [], s + [x], keep)
  {
    SubsequenceExtend(out, s, [x]);
    assert out + [] == out;
  }

  lemma {:induction false} SelectsFirst<T(!new)>(out: seq<T>, s: seq<T>, keep: T -> bool, x: T)
    requires Selects(out, s, keep)
    ensures Selects((if keep(x) then [x] else []) + out, [x] + s, keep)
  {
    assert ([x] + s)[1..] == s && ([x] + out)[1..] == out && [] + out == out;
  }

  /** More may follow in the longer sequence, or the same in both. */
  lemma {:induction false} SubsequenceExtend<T>(s: seq<T>, t: seq<T>, rest: seq<T>)
    requires Subsequence(s, t)
    ensures Subsequence(s, t + rest)
    ensures Subsequence(s + rest, t + rest)
  {
    if t == [] {
      assert s + rest == rest && t + rest == rest;
      SubsequenceReflexive(rest);
    } else {
      assert (t + rest)[1..] == t[1..] + rest;
      if s == [] {
        SubsequenceExtend(s, t[1..], rest);
        SubsequenceWeaken(s + rest, t + rest);
      } else if s[0] == t[0] && Subsequence(s[1..], t[1..]) {
        SubsequenceExtend(s[1..], t[1..], rest);
        assert (s + rest)[1..] == s[1..] + rest;
      } else {
        SubsequenceExtend(s, t[1..], rest);
        SubsequenceWeaken(s + rest, t + rest);
      }
    }
  }
}
