/** internal/audit: the audit trail, a circular buffer that keeps the newest records. */
module Audit {
  import opened Base
  import opened Sequences
  import opened Meta

  const DEFAULT_CAP := 4096

  // ----- What the log is for -----

  /** The last n elements. */
  function LastN<T>(s: seq<T>, n: nat): seq<T> {
    if |s| <= n then s else s[|s| - n..]
  }

  /** The log as a list: the records kept, oldest first, and the counter. */
  datatype LogState = LogState(cap: nat, seqNo: int, records: seq<AuditRecord>) {
    ghost predicate Valid() {
      cap > 0 && |records| <= cap
    }

    /** The record as it is stored. */
    function Stamped(r: AuditRecord, now: int): AuditRecord {
      r.(seqNo := seqNo + 1, ts := if r.ts == ZERO_TIME then now else r.ts)
    }

    function Appended(r: AuditRecord, now: int): LogState {
      LogState(cap, seqNo + 1, LastN(records + [Stamped(r, now)], cap))
    }

    function Replaced(rs: seq<AuditRecord>): LogState {
      LogState(cap, MaxSeq(rs), LastN(rs, cap))
    }

    function Failed(ns: Bytes, key: Bytes, kind: Bytes, actor: Bytes, err: Bytes, now: int): LogState {
      Appended(AuditRecord(0, ZERO_TIME, ns, key, 0, kind, actor, [], 0, false, err), now)
    }

    function Succeeded(
        ns: Bytes, key: Bytes, kind: Bytes, actor: Bytes, rev: int, bytes: int, detail: Bytes, now: int): LogState
    {
      Appended(AuditRecord(0, ZERO_TIME, ns, key, rev, kind, actor, detail, bytes, true, []), now)
    }
  }

  /** The largest sequence number, 0 if none is positive. */
  function MaxSeq(rs: seq<AuditRecord>): int {
    if rs == [] then 0
    else
      var before := MaxSeq(rs[..|rs| - 1]);
      if rs[|rs| - 1].seqNo > before then rs[|rs| - 1].seqNo else before
  }

  datatype Filter = Filter(
    ns: Bytes, key: Bytes, kind: Bytes, actor: Bytes, since: int, until: int, ok: Option<bool>, limit: int)
  {
    predicate Match(r: AuditRecord) {
      && (ns == [] || r.ns == ns)
      && (key == [] || r.key == key)
      && (kind == [] || r.kind == kind)
      && (actor == [] || r.actor == actor)
      && (since == ZERO_TIME || r.ts >= since)
      && (until == ZERO_TIME || r.ts <= until)
      && (ok.None? || r.ok == ok.value)
    }

    function Limit(): nat {
      if limit <= 0 then 100 else limit
    }
  }

  /** The matching records, newest first. */
  function Matches(f: Filter, rs: seq<AuditRecord>): seq<AuditRecord> {
    if rs == [] then []
    else
      var last := rs[|rs| - 1];
      (if f.Match(last) then [last] else []) + Matches(f, rs[..|rs| - 1])
  }

  lemma {:induction false} NoMatches(f: Filter)
    ensures Matches(f, []) == []
  {}

  lemma {:induction false} MatchesStep(f: Filter, rs: seq<AuditRecord>, i: nat, out: seq<AuditRecord>)
    requires i < |rs|
    ensures out + Matches(f, rs[..i + 1]) ==
            out + (if f.Match(rs[i]) then [rs[i]] else []) + Matches(f, rs[..i])
  {
    assert rs[..i + 1][..i] == rs[..i];
  }

  function Take<T>(s: seq<T>, n: nat): seq<T> {
    if |s| <= n then s else s[..n]
  }

  lemma {:induction false} TakeFound<T>(out: seq<T>, rest: seq<T>, n: nat)
    requires |out| == n || (|out| < n && rest == [])
    ensures Take(out + rest, n) == out
  {}

  function NewestFirst(rs: seq<AuditRecord>): seq<AuditRecord> {
    if rs == [] then [] else [rs[|rs| - 1]] + NewestFirst(rs[..|rs| - 1])
  }

  /** The records asked for: an empty name asks for all, and so does a missing time or outcome. */
  ghost predicate Wanted(f: Filter, r: AuditRecord) {
    && (f.ns != [] ==> r.ns == f.ns) && (f.key != [] ==> r.key == f.key)
    && (f.kind != [] ==> r.kind == f.kind) && (f.actor != [] ==> r.actor == f.actor)
    && (f.since != ZERO_TIME ==> f.since <= r.ts) && (f.until != ZERO_TIME ==> r.ts <= f.until)
    && (f.ok.Some? ==> r.ok == f.ok.value)
  }

  lemma {:induction false} MatchesSelects(f: Filter, rs: seq<AuditRecord>)
    ensures Selects(Matches(f, rs), NewestFirst(rs), r => Wanted(f, r))
  {
    hide Selects;
    if rs == [] {
      SelectsNone(r => Wanted(f, r));
    } else {
      MatchesSelects(f, rs[..|rs| - 1]);
      SelectsFirst(Matches(f, rs[..|rs| - 1]), NewestFirst(rs[..|rs| - 1]), r => Wanted(f, r), rs[|rs| - 1]);
    }
  }

  /** The first n matches are all matches among the newest records. */
  lemma {:induction false} TakeIsNewest(f: Filter, rs: seq<AuditRecord>, n: nat) returns (k: nat)
    ensures k <= |rs| && Take(Matches(f, rs), n) == Matches(f, rs[k..])
    ensures k > 0 ==> |Matches(f, rs[k..])| == n
  {
    hide Filter.Match;
    if |Matches(f, rs)| <= n {
      k := 0;
      assert rs[0..] == rs;
    } else if n == 0 {
      k := |rs|;
      assert rs[k..] == [];
    } else {
      var init, last := rs[..|rs| - 1], rs[|rs| - 1];
      k := TakeIsNewest(f, init, if f.Match(last) then n - 1 else n);
      assert rs[k..][..|init| - k] == init[k..];
    }
  }

  /** What a query returns for the records rs: at most as many as asked for, 100 if the limit is not
      positive, and all that are wanted among the newest records, newest first; older ones are left out
      only if that many were found. */
  lemma {:induction false} QuerySelects(f: Filter, rs: seq<AuditRecord>)
    ensures var out := Take(Matches(f, rs), f.Limit());
            var limit := if f.limit > 0 then f.limit else 100;
            && |out| <= limit
            && exists k :: 0 <= k <= |rs| && (k > 0 ==> |out| == limit) &&
                 Selects(out, NewestFirst(rs[k..]), r => Wanted(f, r))
  {
    var k := TakeIsNewest(f, rs, f.Limit());
    MatchesSelects(f, rs[k..]);
  }

  // ----- Any sequence of appends and replacements -----

  datatype LogOp = Append(record: AuditRecord, now: int) | Replace(records: seq<AuditRecord>)

  function Apply(s: LogState, op: LogOp): LogState {
    match op
    case Append(r, now) => s.Appended(r, now)
    case Replace(rs) => s.Replaced(rs)
  }

  function RunLog(s: LogState, ops: seq<LogOp>): LogState {
    if ops == [] then s else Apply(RunLog(s, ops[..|ops| - 1]), ops[|ops| - 1])
  }

  /** Every record written since the last replacement, and the records of that replacement. */
  function History(s: LogState, ops: seq<LogOp>): seq<AuditRecord> {
    if ops == [] then s.records
    else
      var before := ops[..|ops| - 1];
      match ops[|ops| - 1]
      case Append(r, now) => History(s, before) + [RunLog(s, before).Stamped(r, now)]
      case Replace(rs) => rs
  }

  lemma {:induction false} LastNOfLastN<T>(s: seq<T>, x: T, n: nat)
    ensures LastN(LastN(s, n) + [x], n) == LastN(s + [x], n)
  {
    if |s| > n {
      assert (s[|s| - n..] + [x])[1..] == (s + [x])[|s| + 1 - n..];
    }
  }

  /** After any sequence of operations the log holds the newest records of everything written,
      in order, as many as it has room for. */
  lemma {:induction false} LogIsLastOfHistory(s: LogState, ops: seq<LogOp>)
    requires s.Valid()
    ensures var t := RunLog(s, ops);
            t.Valid() && t.cap == s.cap && t.records == LastN(History(s, ops), s.cap)
  {
    if ops != [] {
      var before, op := ops[..|ops| - 1], ops[|ops| - 1];
      LogIsLastOfHistory(s, before);
      if op.Append? {
        LastNOfLastN(History(s, before), RunLog(s, before).Stamped(op.record, op.now), s.cap);
      }
    }
  }

  /** No record kept carries a number above the counter. */
  ghost predicate Numbered(s: LogState) {
    forall r :: r in s.records ==> r.seqNo <= s.seqNo
  }

  /** The newest record carries the counter's value. */
  ghost predicate Counted(s: LogState) {
    if s.records == [] then s.seqNo == 0 else s.records[|s.records| - 1].seqNo == s.seqNo
  }

  /** Then replaying the records leaves the counter where it was. */
  lemma {:induction false} ReplayKeepsCounter(s: LogState)
    requires Numbered(s) && Counted(s) && s.seqNo >= 0
    ensures MaxSeq(s.records) == s.seqNo
  {
    if s.records != [] {
      var init := s.records[..|s.records| - 1];
      MaxSeqIsMax(init);
      MaxSeqIsSome(init);
      assert forall r :: r in init ==> r in s.records;
    }
  }

  lemma {:induction false} MaxSeqIsSome(rs: seq<AuditRecord>)
    ensures MaxSeq(rs) >= 0
    ensures MaxSeq(rs) == 0 || exists r :: r in rs && r.seqNo == MaxSeq(rs)
  {
    if rs != [] {
      MaxSeqIsSome(rs[..|rs| - 1]);
      assert rs == rs[..|rs| - 1] + [rs[|rs| - 1]];
      assert rs[|rs| - 1] in rs;
    }
  }

  lemma {:induction false} MaxSeqIsMax(rs: seq<AuditRecord>)
    ensures forall r :: r in rs ==> r.seqNo <= MaxSeq(rs)
  {
    if rs != [] {
      MaxSeqIsMax(rs[..|rs| - 1]);
      assert rs == rs[..|rs| - 1] + [rs[|rs| - 1]];
    }
  }

  /** Every operation keeps that, so each number handed out is one more than the last and larger
      than every number still in the log. */
  lemma {:induction false} NumbersGrow(s: LogState, op: LogOp)
    requires s.Valid() && Numbered(s)
    ensures Numbered(Apply(s, op))
    ensures op.Append? ==> Counted(Apply(s, op))
    ensures op.Append? ==>
              var r := s.Stamped(op.record, op.now);
              && Apply(s, op).records[|Apply(s, op).records| - 1] == r
              && r == op.record.(seqNo := s.seqNo + 1, ts := if op.record.ts != ZERO_TIME then op.record.ts else op.now)
              && Apply(s, op).seqNo == s.seqNo + 1
              && forall q :: q in s.records ==> q.seqNo < r.seqNo
  {
    match op {
      case Append(r, now) =>
        var all := s.records + [s.Stamped(r, now)];
        assert forall q :: q in LastN(all, s.cap) ==> q in all;
      case Replace(rs) =>
        MaxSeqIsMax(rs);
        assert forall q :: q in LastN(rs, s.cap) ==> q in rs;
    }
  }

  // ----- The circular buffer -----

  lemma {:induction false} ModIs(x: int, n: int)
    requires 0 < n && 0 <= x < 2 * n
    ensures x % n == if x < n then x else x - n
  {
    var q := x / n;
    assert x == q * n + x % n;
    if q >= 2 {
      MulAtLeast(q, 2, n);
    } else if q <= -1 {
      MulAtLeast(-1, q, n);
    }
    assert q == 0 || q == 1;
  }

  lemma {:induction false} MulAtLeast(a: int, b: int, n: int)
    requires a >= b && n > 0
    ensures a * n >= b * n
  {}

  lemma {:induction false} LastNOfNone<T>(n: nat)
    ensures LastN<T>([], n) == []
  {}

  /** The slot of the i-th oldest record. */
  function Slot(cap: nat, head: nat, i: nat): (j: nat)
    requires head < cap && i < cap
    ensures j < cap && j == (head + i) % cap
  {
    ModIs(head + i, cap);
    if head + i < cap then head + i else head + i - cap
  }

  /** The buffer's records, oldest first. */
  function Unrolled(buf: seq<AuditRecord>, head: nat, len: nat): (rs: seq<AuditRecord>)
    requires head < |buf| && len <= |buf|
    ensures |rs| == len
  {
    seq(len, i requires 0 <= i < len => buf[Slot(|buf|, head, i)])
  }

  class Log {
    const cap: nat
    var seqNo: int
    const buf: array<AuditRecord>
    var head: nat
    var len: nat

    ghost predicate Valid()
      reads this`head, this`len
    {
      0 < cap == buf.Length && head < cap && len <= cap
    }

    ghost function Records(): (rs: seq<AuditRecord>)
      requires Valid()
      reads this`head, this`len, buf
      ensures |rs| == len
    {
      Unrolled(buf[..], head, len)
    }

    ghost function State(): LogState
      requires Valid()
      reads this, buf
    {
      LogState(cap, seqNo, Records())
    }

    constructor (cap: int)
      ensures Valid() && fresh(buf)
      ensures State() == LogState(if cap <= 0 then DEFAULT_CAP else cap, 0, [])
    {
      var n: nat := if cap <= 0 then DEFAULT_CAP else cap;
      this.cap := n;
      seqNo, head, len := 0, 0, 0;
      buf := new AuditRecord[n](_ => AuditRecord(0, ZERO_TIME, [], [], 0, [], [], [], 0, false, []));
    }

    /** Storing one record: behind the newest while there is room, over the oldest otherwise. */
    method Store(r: AuditRecord)
      requires Valid()
      modifies this`head, this`len, buf
      ensures Valid() && Records() == LastN(old(Records()) + [r], cap)
    {
      ghost var before := Records();
      if len < cap {
        var idx := (head + len) % cap;
        assert idx == Slot(cap, head, len);
        buf[idx] := r;
        len := len + 1;
        assert Records() == before + [r];
      } else {
        ModIs(head + 1, cap);
        buf[head] := r;
        head := (head + 1) % cap;
        assert Records() == (before + [r])[1..];
      }
    }

    method Append(r: AuditRecord, now: int) returns (stored: AuditRecord)
      requires Valid()
      modifies this, buf
      ensures Valid() && stored == old(State()).Stamped(r, now)
      ensures State() == old(State()).Appended(r, now)
    {
      hide LastN;
      seqNo := seqNo + 1;
      stored := r.(seqNo := seqNo);
      if stored.ts == ZERO_TIME {
        stored := stored.(ts := now);
      }
      Store(stored);
    }

    method All() returns (out: seq<AuditRecord>)
      requires Valid()
      ensures out == Records()
    {
      out := [];
      for i := 0 to len
        invariant out == Records()[..i]
      {
        var idx := (head + i) % cap;
        assert idx == Slot(cap, head, i);
        out := out + [buf[idx]];
      }
    }

    /** The newest matches first, at most as many as asked for. */
    method Query(f: Filter) returns (out: seq<AuditRecord>)
      requires Valid()
      ensures out == Take(Matches(f, Records()), f.Limit())
    {
      hide Take, Matches, Filter.Match;
      var limit := if f.limit <= 0 then 100 else f.limit;
      ghost var rs := Records();
      out := [];
      var i := len - 1;
      ghost var ahead := len;
      assert rs[..ahead] == rs;
      while i >= 0 && |out| < limit
        invariant -1 <= i < len && ahead == i + 1 && |out| <= limit
        invariant Matches(f, rs) == out + Matches(f, rs[..ahead])
      {
        var idx := (head + i) % cap;
        assert idx == Slot(cap, head, i);
        var r := buf[idx];
        assert r == rs[i];
        MatchesStep(f, rs, i, out);
        if f.Match(r) {
          out := out + [r];
        }
        ahead := i;
        i := i - 1;
      }
      NoMatches(f);
      TakeFound(out, Matches(f, rs[..ahead]), limit);
    }

    method ReplaceAll(rs: seq<AuditRecord>)
      requires Valid()
      modifies this, buf
      ensures Valid() && State() == old(State()).Replaced(rs)
    {
      hide LastN;
      head, len, seqNo := 0, 0, 0;
      LastNOfNone<AuditRecord>(cap);
      for i := 0 to |rs|
        invariant Valid()
        invariant Records() == LastN(rs[..i], cap) && seqNo == MaxSeq(rs[..i])
      {
        assert rs[..i + 1][..i] == rs[..i];
        assert rs[..i + 1] == rs[..i] + [rs[i]];
        if rs[i].seqNo > seqNo {
          seqNo := rs[i].seqNo;
        }
        LastNOfLastN(rs[..i], rs[i], cap);
        Store(rs[i]);
      }
      assert rs[..|rs|] == rs;
    }

    method Fail(ns: Bytes, key: Bytes, kind: Bytes, actor: Bytes, err: Bytes, now: int)
      requires Valid()
      modifies this, buf
      ensures Valid() && State() == old(State()).Failed(ns, key, kind, actor, err, now)
    {
      var _ := Append(AuditRecord(0, ZERO_TIME, ns, key, 0, kind, actor, [], 0, false, err), now);
    }

    method OK(ns: Bytes, key: Bytes, kind: Bytes, actor: Bytes, rev: int, bytes: int, detail: Bytes, now: int)
      requires Valid()
      modifies this, buf
      ensures Valid() && State() == old(State()).Succeeded(ns, key, kind, actor, rev, bytes, detail, now)
    {
      var _ := Append(AuditRecord(0, ZERO_TIME, ns, key, rev, kind, actor, detail, bytes, true, []), now);
    }
  }
}
