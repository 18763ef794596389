/** internal/version/diff.go: the line-level edit script, as a table filled backwards and a
    greedy walk over it. */
module LineDiff {
  import opened Base
  import opened Text
  import opened Sequences

  datatype Op = Eq | Add | Del

  datatype LineChange = LineChange(op: Op, oldN: int, newN: int, text: Bytes)

  // ----- Common subsequences -----

  ghost predicate Common(c: seq<Bytes>, a: seq<Bytes>, b: seq<Bytes>) {
    Subsequence(c, a) && Subsequence(c, b)
  }

  /** The quantity a table cell holds for the suffixes a and b. */
  function Lcs(a: seq<Bytes>, b: seq<Bytes>): nat {
    if a == [] || b == [] then 0
    else if a[0] == b[0] then Lcs(a[1..], b[1..]) + 1
    else if Lcs(a[1..], b) >= Lcs(a, b[1..]) then Lcs(a[1..], b)
    else Lcs(a, b[1..])
  }

  /** No common subsequence is longer than Lcs. */
  lemma {:induction false} LcsIsUpperBound(c: seq<Bytes>, a: seq<Bytes>, b: seq<Bytes>)
    requires Common(c, a, b)
    ensures |c| <= Lcs(a, b)
    decreases |a| + |b|
  {
    if c == [] {
    } else if a[0] == b[0] {
      SubsequenceTail(c, a);
      SubsequenceTail(c, b);
      LcsIsUpperBound(c[1..], a[1..], b[1..]);
    } else if c[0] != a[0] {
      LcsIsUpperBound(c, a[1..], b);
    } else {
      LcsIsUpperBound(c, a, b[1..]);
    }
  }

  // ----- Edit scripts -----

  /** The operations that speak about old lines, in order. */
  function OldSide(ops: seq<LineChange>): seq<LineChange> {
    if ops == [] then []
    else if ops[0].op != Add then [ops[0]] + OldSide(ops[1..])
    else OldSide(ops[1..])
  }

  /** The operations that speak about new lines, in order. */
  function NewSide(ops: seq<LineChange>): seq<LineChange> {
    if ops == [] then []
    else if ops[0].op != Del then [ops[0]] + NewSide(ops[1..])
    else NewSide(ops[1..])
  }

  function EqSide(ops: seq<LineChange>): seq<LineChange> {
    if ops == [] then []
    else if ops[0].op == Eq then [ops[0]] + EqSide(ops[1..])
    else EqSide(ops[1..])
  }

  function Texts(ops: seq<LineChange>): (r: seq<Bytes>)
    ensures |r| == |ops|
  {
    if ops == [] then [] else [ops[0].text] + Texts(ops[1..])
  }

  /** ops turns a into b. */
  ghost predicate Rewrites(ops: seq<LineChange>, a: seq<Bytes>, b: seq<Bytes>) {
    Texts(OldSide(ops)) == a && Texts(NewSide(ops)) == b
  }

  /** The line numbers count the old lines from i+1 and the new lines from j+1, and are absent
      (zero) on the side an operation does not touch. */
  ghost predicate Numbered(ops: seq<LineChange>, i: nat, j: nat) {
    && (forall k :: 0 <= k < |OldSide(ops)| ==> OldSide(ops)[k].oldN == i + k + 1)
    && (forall k :: 0 <= k < |NewSide(ops)| ==> NewSide(ops)[k].newN == j + k + 1)
    && (forall k :: 0 <= k < |ops| && ops[k].op == Add ==> ops[k].oldN == 0)
    && (forall k :: 0 <= k < |ops| && ops[k].op == Del ==> ops[k].newN == 0)
  }

  /** Whatever rewrites a into b keeps a common subsequence, and its length is fixed by how much
      it keeps. */
  lemma {:induction false} RewriteKeepsCommon(ops: seq<LineChange>, a: seq<Bytes>, b: seq<Bytes>)
    requires Rewrites(ops, a, b)
    ensures Common(Texts(EqSide(ops)), a, b)
    ensures |ops| + |EqSide(ops)| == |a| + |b|
  {
    if ops != [] {
      var rest := ops[1..];
      match ops[0].op {
        case Eq =>
          assert a[1..] == Texts(OldSide(rest)) && b[1..] == Texts(NewSide(rest));
          RewriteKeepsCommon(rest, a[1..], b[1..]);
        case Del =>
          assert a[1..] == Texts(OldSide(rest));
          RewriteKeepsCommon(rest, a[1..], b);
          SubsequenceWeaken(Texts(EqSide(rest)), a);
        case Add =>
          assert b[1..] == Texts(NewSide(rest));
          RewriteKeepsCommon(rest, a, b[1..]);
          SubsequenceWeaken(Texts(EqSide(rest)), b);
      }
    }
  }

  // ----- The script lcsChanges emits -----

  /** The walk from cell (i, j): keep equal lines, otherwise delete unless adding is strictly
      better. */
  function Script(a: seq<Bytes>, b: seq<Bytes>, i: nat, j: nat): seq<LineChange>
    requires i <= |a| && j <= |b|
    decreases |a| - i + |b| - j
  {
    if i == |a| && j == |b| then []
    else if j == |b| then [LineChange(Del, i + 1, 0, a[i])] + Script(a, b, i + 1, j)
    else if i == |a| then [LineChange(Add, 0, j + 1, b[j])] + Script(a, b, i, j + 1)
    else if a[i] == b[j] then [LineChange(Eq, i + 1, j + 1, a[i])] + Script(a, b, i + 1, j + 1)
    else if Lcs(a[i + 1..], b[j..]) >= Lcs(a[i..], b[j + 1..]) then
      [LineChange(Del, i + 1, 0, a[i])] + Script(a, b, i + 1, j)
    else [LineChange(Add, 0, j + 1, b[j])] + Script(a, b, i, j + 1)
  }

  lemma {:induction false} ScriptRewrites(a: seq<Bytes>, b: seq<Bytes>, i: nat, j: nat)
    requires i <= |a| && j <= |b|
    ensures Rewrites(Script(a, b, i, j), a[i..], b[j..])
    ensures |EqSide(Script(a, b, i, j))| == Lcs(a[i..], b[j..])
    decreases |a| - i + |b| - j
  {
    var ops := Script(a, b, i, j);
    if i == |a| && j == |b| {
    } else {
      var i', j' := if ops[0].op == Add then i else i + 1, if ops[0].op == Del then j else j + 1;
      assert ops[1..] == Script(a, b, i', j');
      assert i < |a| ==> a[i..] == [a[i]] + a[i + 1..];
      assert j < |b| ==> b[j..] == [b[j]] + b[j + 1..];
      ScriptRewrites(a, b, i', j');
    }
  }

  lemma {:induction false} ScriptNumbered(a: seq<Bytes>, b: seq<Bytes>, i: nat, j: nat)
    requires i <= |a| && j <= |b|
    ensures Numbered(Script(a, b, i, j), i, j)
    decreases |a| - i + |b| - j
  {
    var ops := Script(a, b, i, j);
    if i == |a| && j == |b| {
    } else {
      var i', j' := if ops[0].op == Add then i else i + 1, if ops[0].op == Del then j else j + 1;
      assert ops[1..] == Script(a, b, i', j');
      ScriptNumbered(a, b, i', j');
    }
  }

  /** What the script keeps is common to a and b, and nothing common to them is longer. */
  lemma {:induction false} ScriptKeepsLongestCommon(a: seq<Bytes>, b: seq<Bytes>, c: seq<Bytes>)
    requires Common(c, a, b)
    ensures Common(Texts(EqSide(Script(a, b, 0, 0))), a, b)
    ensures |c| <= |EqSide(Script(a, b, 0, 0))|
  {
    ScriptRewrites(a, b, 0, 0);
    assert a[0..] == a && b[0..] == b;
    RewriteKeepsCommon(Script(a, b, 0, 0), a, b);
    LcsIsUpperBound(c, a, b);
  }

  /** No other way of rewriting a into b has fewer operations, or fewer deletions and additions. */
  lemma {:induction false} ScriptIsShortest(a: seq<Bytes>, b: seq<Bytes>, ops: seq<LineChange>)
    requires Rewrites(ops, a, b)
    ensures Rewrites(Script(a, b, 0, 0), a, b)
    ensures |Script(a, b, 0, 0)| <= |ops|
    ensures |Script(a, b, 0, 0)| - |EqSide(Script(a, b, 0, 0))| <= |ops| - |EqSide(ops)|
    ensures |Script(a, b, 0, 0)| == |a| + |b| - |EqSide(Script(a, b, 0, 0))|
  {
    ScriptRewrites(a, b, 0, 0);
    assert a[0..] == a && b[0..] == b;
    RewriteKeepsCommon(Script(a, b, 0, 0), a, b);
    RewriteKeepsCommon(ops, a, b);
    ScriptKeepsLongestCommon(a, b, Texts(EqSide(ops)));
  }

  lemma {:induction false} LcsOfSuffixes(a: seq<Bytes>, b: seq<Bytes>, i: nat, j: nat)
    requires i < |a| && j < |b|
    ensures Lcs(a[i..], b[j..]) ==
            if a[i] == b[j] then Lcs(a[i + 1..], b[j + 1..]) + 1
            else if Lcs(a[i + 1..], b[j..]) >= Lcs(a[i..], b[j + 1..]) then Lcs(a[i + 1..], b[j..])
            else Lcs(a[i..], b[j + 1..])
  {
    assert a[i..][1..] == a[i + 1..] && b[j..][1..] == b[j + 1..];
  }

  /** Ties go to the deletion, so every run of changes lists its deletions before its additions:
      an addition is never followed directly by a deletion. */
  lemma {:induction false} DeletionsComeFirst(a: seq<Bytes>, b: seq<Bytes>, i: nat, j: nat)
    requires i <= |a| && j <= |b|
    ensures var ops := Script(a, b, i, j);
            forall k :: 0 < k < |ops| && ops[k - 1].op == Add ==> ops[k].op != Del
    decreases |a| - i + |b| - j
  {
    var ops := Script(a, b, i, j);
    if i == |a| && j == |b| {
    } else {
      var i', j' := if ops[0].op == Add then i else i + 1, if ops[0].op == Del then j else j + 1;
      var rest := Script(a, b, i', j');
      assert ops[1..] == rest;
      DeletionsComeFirst(a, b, i', j');
      if ops[0].op == Add {
        AdditionThenNoDeletion(a, b, i, j);
      }
      forall k | 0 < k < |ops| && ops[k - 1].op == Add
        ensures ops[k].op != Del
      {
        if k == 1 {
          assert rest[0] == ops[1];
        } else {
          assert rest[k - 2] == ops[k - 1] && rest[k - 1] == ops[k];
        }
      }
    }
  }

  lemma {:induction false} AdditionThenNoDeletion(a: seq<Bytes>, b: seq<Bytes>, i: nat, j: nat)
    requires i <= |a| && j < |b| && Script(a, b, i, j)[0].op == Add
    ensures Script(a, b, i, j + 1) == [] || Script(a, b, i, j + 1)[0].op != Del
  {
    if i < |a| {
      // Adding was strictly better, so b has a line left and deleting a[i] next would not pay.
      LcsOfSuffixes(a, b, i, j + 1);
      LcsShrinks(a, b, i + 1, j);
    }
  }

  /** Dropping a new line never lengthens the common part. */
  lemma {:induction false} LcsShrinks(a: seq<Bytes>, b: seq<Bytes>, i: nat, j: nat)
    requires i <= |a| && j < |b|
    ensures Lcs(a[i..], b[j + 1..]) <= Lcs(a[i..], b[j..])
  {
    ScriptRewrites(a, b, i, j + 1);
    var c := Texts(EqSide(Script(a, b, i, j + 1)));
    RewriteKeepsCommon(Script(a, b, i, j + 1), a[i..], b[j + 1..]);
    assert b[j..][1..] == b[j + 1..];
    SubsequenceWeaken(c, b[j..]);
    LcsIsUpperBound(c, a[i..], b[j..]);
  }

  /** dp, filled for every row below i and, in row i, for every column from j on. */
  ghost predicate Filled(dp: array2<int>, a: seq<Bytes>, b: seq<Bytes>, i: int, j: int)
    requires dp.Length0 == |a| + 1 && dp.Length1 == |b| + 1
    reads dp
  {
    forall p, q :: 0 <= p <= |a| && 0 <= q <= |b| && (p > i || (p == i && q >= j)) ==>
      dp[p, q] == Lcs(a[p..], b[q..])
  }

  method FillTable(a: seq<Bytes>, b: seq<Bytes>) returns (dp: array2<int>)
    ensures fresh(dp) && dp.Length0 == |a| + 1 && dp.Length1 == |b| + 1
    ensures Filled(dp, a, b, 0, 0)
  {
    dp := new int[|a| + 1, |b| + 1]((_, _) => 0);
    var i := |a| - 1;
    while i >= 0
      invariant -1 <= i < |a|
      invariant Filled(dp, a, b, i, |b| + 1)
      invariant forall p, q :: 0 <= p <= |a| && 0 <= q <= |b| && (p <= i || q == |b|) ==> dp[p, q] == 0
    {
      var j := |b| - 1;
      while j >= 0
        invariant -1 <= j < |b|
        invariant Filled(dp, a, b, i, j + 1)
        invariant forall p, q :: 0 <= p <= |a| && 0 <= q <= |b| && (p < i || q == |b|) ==> dp[p, q] == 0
      {
        LcsOfSuffixes(a, b, i, j);
        if a[i] == b[j] {
          dp[i, j] := dp[i + 1, j + 1] + 1;
        } else if dp[i + 1, j] >= dp[i, j + 1] {
          dp[i, j] := dp[i + 1, j];
        } else {
          dp[i, j] := dp[i, j + 1];
        }
        j := j - 1;
      }
      i := i - 1;
    }
  }

  /** Emitting the next operation keeps emitted-plus-remaining the same. */
  lemma {:induction false} Emit(out: seq<LineChange>, x: LineChange, rest: seq<LineChange>, rest': seq<LineChange>)
    requires rest == [x] + rest'
    ensures out + [x] + rest' == out + rest
  {}

  /** What the script does at a cell. */
  lemma {:induction false} EmitNext(out: seq<LineChange>, a: seq<Bytes>, b: seq<Bytes>, i: nat, j: nat)
    requires i <= |a| && j <= |b| && (i < |a| || j < |b|)
    ensures var rest := out + Script(a, b, i, j);
            if i < |a| && j < |b| && a[i] == b[j] then
              out + [LineChange(Eq, i + 1, j + 1, a[i])] + Script(a, b, i + 1, j + 1) == rest
            else if i < |a| && (j == |b| || Lcs(a[i + 1..], b[j..]) >= Lcs(a[i..], b[j + 1..])) then
              out + [LineChange(Del, i + 1, 0, a[i])] + Script(a, b, i + 1, j) == rest
            else
              out + [LineChange(Add, 0, j + 1, b[j])] + Script(a, b, i, j + 1) == rest
  {
    hide Lcs;
    var rest := Script(a, b, i, j);
    if i < |a| && j < |b| && a[i] == b[j] {
      Emit(out, LineChange(Eq, i + 1, j + 1, a[i]), rest, Script(a, b, i + 1, j + 1));
    } else if i < |a| && (j == |b| || Lcs(a[i + 1..], b[j..]) >= Lcs(a[i..], b[j + 1..])) {
      Emit(out, LineChange(Del, i + 1, 0, a[i]), rest, Script(a, b, i + 1, j));
    } else {
      Emit(out, LineChange(Add, 0, j + 1, b[j]), rest, Script(a, b, i, j + 1));
    }
  }

  lemma {:induction false} NothingLeft(out: seq<LineChange>, a: seq<Bytes>, b: seq<Bytes>)
    ensures out + Script(a, b, |a|, |b|) == out
  {}

  method LcsChanges(a: seq<Bytes>, b: seq<Bytes>) returns (out: seq<LineChange>)
    ensures out == Script(a, b, 0, 0)
  {
    hide Lcs, Script;
    var n, m := |a|, |b|;
    var dp := FillTable(a, b);
    out := [];
    var i, j := 0, 0;
    while i < n && j < m
      invariant 0 <= i <= n && 0 <= j <= m && Filled(dp, a, b, 0, 0)
      invariant out + Script(a, b, i, j) == Script(a, b, 0, 0)
      decreases n - i + m - j
    {
      EmitNext(out, a, b, i, j);
      if a[i] == b[j] {
        out := out + [LineChange(Eq, i + 1, j + 1, a[i])];
        i, j := i + 1, j + 1;
      } else if dp[i + 1, j] >= dp[i, j + 1] {
        out := out + [LineChange(Del, i + 1, 0, a[i])];
        i := i + 1;
      } else {
        out := out + [LineChange(Add, 0, j + 1, b[j])];
        j := j + 1;
      }
    }
    while i < n
      invariant 0 <= i <= n && 0 <= j <= m && (i == n || j == m)
      invariant out + Script(a, b, i, j) == Script(a, b, 0, 0)
    {
      EmitNext(out, a, b, i, j);
      out := out + [LineChange(Del, i + 1, 0, a[i])];
      i := i + 1;
    }
    while j < m
      invariant i == n && 0 <= j <= m
      invariant out + Script(a, b, i, j) == Script(a, b, 0, 0)
    {
      EmitNext(out, a, b, i, j);
      out := out + [LineChange(Add, 0, j + 1, b[j])];
      j := j + 1;
    }
    NothingLeft(out, a, b);
  }

  // ----- Diff -----

  const MAX_DIFF_LINES := 400
  const LF: byte := 10
  const CR: byte := 13

  datatype DiffResult = DiffResult(
    equal: bool, oldBytes: nat, newBytes: nat, oldLines: nat, newLines: nat,
    binary: bool, truncated: bool, changes: seq<LineChange>)

  predicate LooksBinary(b: Bytes) {
    0 in b || !Utf8Valid(b)
  }

  /** strings.ReplaceAll of CR LF by LF. */
  function ReplaceCrLf(s: Bytes): Bytes {
    if s == [] then []
    else if |s| >= 2 && s[0] == CR && s[1] == LF then [LF] + ReplaceCrLf(s[2..])
    else [s[0]] + ReplaceCrLf(s[1..])
  }

  /** strings.ReplaceAll of CR by LF. */
  function ReplaceCr(s: Bytes): Bytes {
    if s == [] then [] else [if s[0] == CR then LF else s[0]] + ReplaceCr(s[1..])
  }

  function UnixLines(b: Bytes): Bytes {
    ReplaceCr(ReplaceCrLf(b))
  }

  /** CR LF ends a line, and so does a CR that no LF follows; text without CR stays as it is. */
  lemma {:induction false} EndingsBecomeLF(x: Bytes, y: Bytes)
    ensures UnixLines(x + [CR, LF] + y) == UnixLines(x) + [LF] + UnixLines(y)
    ensures (y == [] || y[0] != LF) ==> UnixLines(x + [CR] + y) == UnixLines(x) + [LF] + UnixLines(y)
    ensures CR !in x ==> UnixLines(x) == x
  {
    hide ReplaceCr, ReplaceCrLf;
    var lf, cr := [LF], [CR];
    var x', y' := ReplaceCrLf(x), ReplaceCrLf(y);
    BreaksOf(y);
    assert x + [CR, LF] + y == x + ([CR, LF] + y);
    assert x + cr + y == x + (cr + y);
    CrLfSplits(x, [CR, LF] + y);
    CrLfSplits(x, cr + y);
    CrSplits(x', lf + y');
    CrSplits(x', cr + y');
    CrSplits(lf, y');
    CrSplits(cr, y');
    if CR !in x {
      NoCrStays(x);
    }
  }

  lemma {:induction false} BreaksOf(y: Bytes)
    ensures ReplaceCrLf([CR, LF] + y) == [LF] + ReplaceCrLf(y)
    ensures (y == [] || y[0] != LF) ==> ReplaceCrLf([CR] + y) == [CR] + ReplaceCrLf(y)
    ensures ReplaceCr([LF]) == [LF] == ReplaceCr([CR])
  {
    assert ([CR, LF] + y)[2..] == y && ([CR] + y)[1..] == y;
  }

  lemma {:induction false} CrLfSplits(x: Bytes, z: Bytes)
    requires z == [] || z[0] != LF
    ensures ReplaceCrLf(x + z) == ReplaceCrLf(x) + ReplaceCrLf(z)
  {
    if x == [] {
      assert x + z == z;
    } else {
      var n := FirstBreak(x, z);
      CrLfSplits(x[n..], z);
    }
  }

  /** The first line break or byte is replaced by itself. */
  lemma {:induction false} FirstBreak(x: Bytes, z: Bytes) returns (n: nat)
    requires x != [] && (z == [] || z[0] != LF)
    ensures 1 <= n <= |x|
    ensures ReplaceCrLf(x[n..] + z) == ReplaceCrLf(x[n..]) + ReplaceCrLf(z) ==>
              ReplaceCrLf(x + z) == ReplaceCrLf(x) + ReplaceCrLf(z)
  {
    n := if |x| >= 2 && x[0] == CR && x[1] == LF then 2 else 1;
    DropOfSum(x, z, n);
    var first: Bytes := if n == 2 then [LF] else [x[0]];
    SumInAnyOrder(first, ReplaceCrLf(x[n..]), ReplaceCrLf(z));
  }

  lemma {:induction false} DropOfSum(x: Bytes, z: Bytes, n: nat)
    requires n <= |x|
    ensures (x + z)[n..] == x[n..] + z
  {}

  lemma {:induction false} SumInAnyOrder(x: Bytes, y: Bytes, z: Bytes)
    ensures x + (y + z) == (x + y) + z
  {}

  lemma {:induction false} CrSplits(x: Bytes, z: Bytes)
    ensures ReplaceCr(x + z) == ReplaceCr(x) + ReplaceCr(z)
  {
    if x == [] {
      assert x + z == z;
    } else {
      assert (x + z)[1..] == x[1..] + z;
      CrSplits(x[1..], z);
    }
  }

  lemma {:induction false} NoCrStays(x: Bytes)
    requires CR !in x
    ensures ReplaceCrLf(x) == x && ReplaceCr(x) == x
  {
    if x != [] {
      NoCrStays(x[1..]);
      assert x == [x[0]] + x[1..];
    }
  }

  function SplitLines(b: Bytes): seq<Bytes> {
    if b == [] then [] else Split(UnixLines(b), LF)
  }

  /** Lines joined by line feeds are read back; the empty payload has none. */
  lemma {:induction false} LinesReadBack(lines: seq<Bytes>)
    requires lines != [] && forall line :: line in lines ==> LF !in line && CR !in line
    ensures SplitLines(Join(lines, LF)) == if lines == [[]] then [] else lines
  {
    JoinHasNoCr(lines);
    NoCrStays(Join(lines, LF));
    SplitOfJoin(lines, LF);
  }

  lemma {:induction false} JoinHasNoCr(lines: seq<Bytes>)
    requires forall line :: line in lines ==> CR !in line
    ensures CR !in Join(lines, LF)
    ensures |lines| > 1 ==> Join(lines, LF) != []
  {
    if |lines| > 1 {
      JoinHasNoCr(lines[1..]);
    }
  }

  /** Nothing but line endings is lost by splitting. */
  lemma {:induction false} SplitLinesLosesOnlyEndings(b: Bytes)
    ensures Join(SplitLines(b), LF) == UnixLines(b)
  {
    JoinOfSplit(UnixLines(b), LF);
  }

  lemma {:induction false} EqSideLength(ops: seq<LineChange>)
    ensures |EqSide(ops)| <= |ops|
    ensures |EqSide(ops)| == |ops| <==> forall k :: 0 <= k < |ops| ==> ops[k].op == Eq
  {
    if ops != [] {
      EqSideLength(ops[1..]);
      assert forall k :: 0 < k < |ops| ==> ops[k] == ops[1..][k - 1];
      assert forall k :: 0 <= k < |ops| - 1 ==> ops[1..][k] == ops[k + 1];
    }
  }

  /** A script without deletions and additions is emitted exactly for equal line lists. */
  lemma {:induction false} ScriptIsTrivialIffSame(a: seq<Bytes>, b: seq<Bytes>)
    ensures (forall k :: 0 <= k < |Script(a, b, 0, 0)| ==> Script(a, b, 0, 0)[k].op == Eq) <==> a == b
  {
    var ops := Script(a, b, 0, 0);
    ScriptRewrites(a, b, 0, 0);
    assert a[0..] == a && b[0..] == b;
    RewriteKeepsCommon(ops, a, b);
    EqSideLength(ops);
    if a == b {
      SubsequenceReflexive(a);
      ScriptKeepsLongestCommon(a, b, a);
    }
    if |EqSide(ops)| == |ops| {
      OneSideOnly(ops);
    }
  }

  lemma {:induction false} OneSideOnly(ops: seq<LineChange>)
    requires forall k :: 0 <= k < |ops| ==> ops[k].op == Eq
    ensures OldSide(ops) == ops && NewSide(ops) == ops
  {
    if ops != [] {
      OneSideOnly(ops[1..]);
    }
  }

  /** A difference between texts that shows no changed line is one of line endings only. */
  lemma {:induction false} DiffShowsNothingIffOnlyEndingsDiffer(x: Bytes, y: Bytes)
    ensures var ops := Script(SplitLines(x), SplitLines(y), 0, 0);
            (forall k :: 0 <= k < |ops| ==> ops[k].op == Eq) <==> UnixLines(x) == UnixLines(y)
  {
    ScriptIsTrivialIffSame(SplitLines(x), SplitLines(y));
    SplitLinesLosesOnlyEndings(x);
    SplitLinesLosesOnlyEndings(y);
    assert UnixLines(x) == [] <==> x == [];
    assert UnixLines(y) == [] <==> y == [];
  }

  /** Summarised, rather than compared line by line. */
  predicate Summarised(oldB: Bytes, newB: Bytes) {
    || oldB == newB
    || LooksBinary(oldB) || LooksBinary(newB)
    || |SplitLines(oldB)| > MAX_DIFF_LINES || |SplitLines(newB)| > MAX_DIFF_LINES
  }

  method Diff(oldB: Bytes, newB: Bytes) returns (res: DiffResult)
    ensures res.equal <==> oldB == newB
    ensures res.oldBytes == |oldB| && res.newBytes == |newB|
    ensures res.binary <==> oldB != newB && (0 in oldB || 0 in newB || !Utf8Valid(oldB) || !Utf8Valid(newB))
    ensures res.truncated <==>
              !res.equal && !res.binary && (|SplitLines(oldB)| > 400 || |SplitLines(newB)| > 400)
    ensures Summarised(oldB, newB) <==> res.equal || res.binary || res.truncated
    ensures res.equal || res.binary ==> res.oldLines == res.newLines == 0
    ensures !res.equal && !res.binary ==>
              res.oldLines == |SplitLines(oldB)| && res.newLines == |SplitLines(newB)|
    ensures Summarised(oldB, newB) ==> res.changes == []
    ensures !Summarised(oldB, newB) ==>
              && Join(Texts(OldSide(res.changes)), LF) == UnixLines(oldB)
              && Join(Texts(NewSide(res.changes)), LF) == UnixLines(newB)
              && Numbered(res.changes, 0, 0)
              && res.changes == Script(SplitLines(oldB), SplitLines(newB), 0, 0)
  {
    res := DiffResult(oldB == newB, |oldB|, |newB|, 0, 0, false, false, []);
    if res.equal {
      return;
    }
    if LooksBinary(oldB) || LooksBinary(newB) {
      res := res.(binary := true);
      return;
    }
    var a, b := SplitLines(oldB), SplitLines(newB);
    res := res.(oldLines := |a|, newLines := |b|);
    if |a| > MAX_DIFF_LINES || |b| > MAX_DIFF_LINES {
      res := res.(truncated := true);
      return;
    }
    var changes := LcsChanges(a, b);
    res := res.(changes := changes);
    ScriptRewrites(a, b, 0, 0);
    ScriptNumbered(a, b, 0, 0);
    assert a[0..] == a && b[0..] == b;
    SplitLinesLosesOnlyEndings(oldB);
    SplitLinesLosesOnlyEndings(newB);
  }
}
