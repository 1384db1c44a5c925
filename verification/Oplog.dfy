/**
 * The operation log as a value: entry i holds sequence number i + 1. Pushing is a find-or-append
 * fold; everything the hub promises about deduplication and acknowledgements is proved of it here.
 */
module Oplog {
  import opened Bytes
  import Decimal
  import opened Wrapper

  /** A timestamp in milliseconds as SQLite stores it; the clock is taken to be past 1970. */
  type Millis = t: int | 0 <= t <= Decimal.MAX_INT64

  /** One row of the `ops` table, its sequence number left to its position. */
  datatype Row = Row(id: bytes, rev: Dec, kind: bytes, origin: bytes, digest: bytes, body: bytes, serverTs: Millis)

  type Log = seq<Row>

  type RevKey = (bytes, Dec)

  function RowKey(r: Row): RevKey { (r.id, r.rev) }

  function OpKey(op: Op): RevKey { (op.id, op.entityRev) }

  function RowOf(op: Op, now: Millis): (r: Row)
    ensures RowKey(r) == OpKey(op)
  {
    Row(op.id, op.entityRev, op.kind, op.originDeviceId, op.digest, op.literal, now)
  }

  /** What the index `ux_ops_entity` enforces. */
  predicate Unique(log: Log) {
    forall i, j :: 0 <= i < j < |log| ==> RowKey(log[i]) != RowKey(log[j])
  }

  /** The sequence number of an entity revision. */
  function Find(log: Log, k: RevKey): (n: Option<nat>)
    ensures n.Some? ==> 1 <= n.value <= |log| && RowKey(log[n.value - 1]) == k
    ensures n.None? ==> forall i :: 0 <= i < |log| ==> RowKey(log[i]) != k
  {
    if log == [] then None
    else if RowKey(log[0]) == k then Some(1)
    else match Find(log[1..], k)
         case Some(n) => Some(n + 1)
         case None =>
           assert forall i :: 0 < i < |log| ==> log[i] == log[1..][i - 1];
           None
  }

  function FindOrAppend(log: Log, op: Op, now: Millis): (next: Log)
    ensures log <= next && Find(next, OpKey(op)).Some?
  {
    if Find(log, OpKey(op)).Some? then log
    else
      var next := log + [RowOf(op, now)];
      assert RowKey(next[|log|]) == OpKey(op);
      next
  }

  /** The log after a push. */
  function PushLog(log: Log, ops: seq<Op>, now: Millis): Log
    decreases |ops|
  {
    if ops == [] then log else PushLog(FindOrAppend(log, ops[0], now), ops[1..], now)
  }

  /** Every entity revision of the push is in the log. */
  predicate Holds(log: Log, ops: seq<Op>) {
    forall op | op in ops :: Find(log, OpKey(op)).Some?
  }

  function SeqOf(log: Log, op: Op): nat
    requires Find(log, OpKey(op)).Some?
  {
    Find(log, OpKey(op)).value
  }

  // ----- Looking up -----

  /** In a log without repeats, the entry with a key is the only one. */
  lemma FindAt(log: Log, n: nat)
    requires Unique(log) && 1 <= n <= |log|
    ensures Find(log, RowKey(log[n - 1])) == Some(n)
  {
    var found := Find(log, RowKey(log[n - 1]));
    assert found.Some?;
    assert RowKey(log[found.value - 1]) == RowKey(log[n - 1]);
  }

  /** Growth never changes where an entry is. */
  lemma FindStable(log: Log, later: Log, k: RevKey)
    requires log <= later && Unique(later) && Find(log, k).Some?
    ensures Find(later, k) == Find(log, k)
  {
    var n := Find(log, k).value;
    assert later[n - 1] == log[n - 1];
    FindAt(later, n);
  }

  lemma UniqueAppend(log: Log, r: Row)
    requires Unique(log) && Find(log, RowKey(r)).None?
    ensures Unique(log + [r])
  {
  }

  // ----- What a push does to the log -----

  /** Nothing is rewritten or moved, no revision is stored twice, and every op of the push is stored. */
  lemma {:induction false} PushKeeps(log: Log, ops: seq<Op>, now: Millis)
    requires Unique(log)
    ensures log <= PushLog(log, ops, now)
    ensures Unique(PushLog(log, ops, now))
    ensures Holds(PushLog(log, ops, now), ops)
    decreases |ops|
  {
    if ops != [] {
      var next := FindOrAppend(log, ops[0], now);
      if Find(log, OpKey(ops[0])).None? { UniqueAppend(log, RowOf(ops[0], now)); }
      PushKeeps(next, ops[1..], now);
      var last := PushLog(log, ops, now);
      assert log <= next <= last;
      FindStable(next, last, OpKey(ops[0]));
      assert forall op | op in ops :: op == ops[0] || op in ops[1..];
    }
  }

  /** Batching is irrelevant: pushing a and then b is pushing them together. */
  lemma {:induction false} PushConcat(log: Log, a: seq<Op>, b: seq<Op>, now: Millis)
    ensures PushLog(log, a + b, now) == PushLog(PushLog(log, a, now), b, now)
    decreases |a|
  {
    if a == [] {
      assert a + b == b;
    } else {
      assert (a + b)[1..] == a[1..] + b && (a + b)[0] == a[0];
      PushConcat(FindOrAppend(log, a[0], now), a[1..], b, now);
    }
  }

  lemma PushOne(log: Log, ops: seq<Op>, op: Op, now: Millis)
    ensures PushLog(log, ops + [op], now) == FindOrAppend(PushLog(log, ops, now), op, now)
  {
    PushConcat(log, ops, [op], now);
    var mid := PushLog(log, ops, now);
    assert PushLog(mid, [op], now) == PushLog(FindOrAppend(mid, op, now), [], now);
  }

  /** Two logs that differ in timestamps at most. */
  predicate SameEntries(a: Log, b: Log) {
    |a| == |b| && forall i :: 0 <= i < |a| ==> a[i].(serverTs := 0) == b[i].(serverTs := 0)
  }

  lemma TailSameEntries(a: Log, b: Log)
    requires SameEntries(a, b) && a != []
    ensures SameEntries(a[1..], b[1..]) && RowKey(a[0]) == RowKey(b[0])
  {
    forall i | 0 <= i < |a| - 1 ensures a[1..][i].(serverTs := 0) == b[1..][i].(serverTs := 0) {
      assert a[i + 1].(serverTs := 0) == b[i + 1].(serverTs := 0);
    }
    assert RowKey(a[0]) == RowKey(a[0].(serverTs := 0)) == RowKey(b[0].(serverTs := 0)) == RowKey(b[0]);
  }

  lemma FindFromTail(a: Log, b: Log, k: RevKey)
    requires a != [] && b != [] && RowKey(a[0]) == RowKey(b[0]) && Find(a[1..], k) == Find(b[1..], k)
    ensures Find(a, k) == Find(b, k)
  {
  }

  lemma {:induction false} FindIgnoresTime(a: Log, b: Log, k: RevKey)
    requires SameEntries(a, b)
    ensures Find(a, k) == Find(b, k)
  {
    if a != [] {
      TailSameEntries(a, b);
      FindIgnoresTime(a[1..], b[1..], k);
      FindFromTail(a, b, k);
    }
  }

  lemma {:induction false} PushIgnoresTime(a: Log, b: Log, ops: seq<Op>, t: Millis, t': Millis)
    requires SameEntries(a, b)
    ensures SameEntries(PushLog(a, ops, t), PushLog(b, ops, t'))
    decreases |ops|
  {
    if ops != [] {
      FindIgnoresTime(a, b, OpKey(ops[0]));
      PushIgnoresTime(FindOrAppend(a, ops[0], t), FindOrAppend(b, ops[0], t'), ops[1..], t, t');
    }
  }

  /**
   * However a list of operations is cut into pushes and whenever they arrive, the same entries end
   * up at the same sequence numbers.
   */
  lemma BatchingIsIrrelevant(log: Log, a: seq<Op>, b: seq<Op>, t: Millis, t1: Millis, t2: Millis)
    ensures SameEntries(PushLog(log, a + b, t), PushLog(PushLog(log, a, t1), b, t2))
    ensures forall k :: Find(PushLog(log, a + b, t), k) == Find(PushLog(PushLog(log, a, t1), b, t2), k)
  {
    PushConcat(log, a, b, t);
    PushIgnoresTime(log, log, a, t, t1);
    var x, y := PushLog(log, a, t), PushLog(log, a, t1);
    PushIgnoresTime(x, y, b, t, t2);
    forall k { FindIgnoresTime(PushLog(x, b, t), PushLog(y, b, t2), k); }
  }

  // ----- How far the head moves -----

  function LogKeys(log: Log): set<RevKey> { set r | r in log :: RowKey(r) }

  function OpKeys(ops: seq<Op>): set<RevKey> { set op | op in ops :: OpKey(op) }

  lemma InLogKeys(log: Log, k: RevKey)
    ensures k in LogKeys(log) <==> Find(log, k).Some?
  {
    if k in LogKeys(log) {
      var r :| r in log && RowKey(r) == k;
      var i :| 0 <= i < |log| && log[i] == r;
    }
    if Find(log, k).Some? { assert log[Find(log, k).value - 1] in log; }
  }

  lemma {:induction false} PushKeys(log: Log, ops: seq<Op>, now: Millis)
    ensures LogKeys(PushLog(log, ops, now)) == LogKeys(log) + OpKeys(ops)
    decreases |ops|
  {
    if ops == [] {
      assert OpKeys(ops) == {};
    } else {
      var next := FindOrAppend(log, ops[0], now);
      PushKeys(next, ops[1..], now);
      KeysOfAppend(log, ops[0], now);
      assert OpKeys(ops) == {OpKey(ops[0])} + OpKeys(ops[1..]) by {
        assert forall op :: op in ops <==> op == ops[0] || op in ops[1..];
      }
    }
  }

  lemma KeysOfAppend(log: Log, op: Op, now: Millis)
    ensures LogKeys(FindOrAppend(log, op, now)) == LogKeys(log) + {OpKey(op)}
  {
    InLogKeys(log, OpKey(op));
    var r := RowOf(op, now);
    assert forall x :: x in log + [r] <==> x in log || x == r;
    assert RowKey(r) == OpKey(op);
  }

  lemma {:induction false} KeyCount(log: Log)
    requires Unique(log)
    ensures |LogKeys(log)| == |log|
  {
    if log == [] {
      assert LogKeys(log) == {};
    } else {
      var rest := log[1..];
      KeyCount(rest);
      assert LogKeys(log) == {RowKey(log[0])} + LogKeys(rest) by {
        assert forall r :: r in log <==> r == log[0] || r in rest;
      }
      assert RowKey(log[0]) !in LogKeys(rest);
    }
  }

  lemma UnionSize<T>(a: set<T>, b: set<T>)
    ensures |a + b| == |a| + |b - a|
  {
    assert a + b == a + (b - a);
  }

  /** The head grows by exactly the number of distinct new revisions; duplicates consume nothing. */
  lemma HeadGrowth(log: Log, ops: seq<Op>, now: Millis)
    requires Unique(log)
    ensures |PushLog(log, ops, now)| == |log| + |OpKeys(ops) - LogKeys(log)|
  {
    PushKeeps(log, ops, now);
    PushKeys(log, ops, now);
    KeyCount(log);
    KeyCount(PushLog(log, ops, now));
    UnionSize(LogKeys(log), OpKeys(ops));
  }

  // ----- At-least-once delivery -----

  /** Pushing revisions the log holds changes nothing. */
  lemma {:induction false} PushHeld(log: Log, ops: seq<Op>, now: Millis)
    requires Holds(log, ops)
    ensures PushLog(log, ops, now) == log
    decreases |ops|
  {
    if ops != [] {
      assert ops[0] in ops;
      assert forall op | op in ops[1..] :: op in ops;
      PushHeld(log, ops[1..], now);
    }
  }

  /**
   * A replay, however late and whatever was pushed in between, changes no entry, consumes no
   * sequence number and finds every revision where it was first put.
   */
  lemma ReplayIsFree(log: Log, ops: seq<Op>, t: Millis, later: Log, t': Millis)
    requires Unique(log) && PushLog(log, ops, t) <= later && Unique(later)
    ensures PushLog(later, ops, t') == later
    ensures forall op | op in ops :: Find(later, OpKey(op)) == Find(PushLog(log, ops, t), OpKey(op))
  {
    PushKeeps(log, ops, t);
    forall op | op in ops ensures Find(later, OpKey(op)) == Find(PushLog(log, ops, t), OpKey(op)) {
      FindStable(PushLog(log, ops, t), later, OpKey(op));
    }
    PushHeld(later, ops, t');
  }

  lemma UniqueNext(log: Log, op: Op, now: Millis)
    requires Unique(log)
    ensures Unique(FindOrAppend(log, op, now))
  {
    if Find(log, OpKey(op)).None? { UniqueAppend(log, RowOf(op, now)); }
  }

  /** A row just appended is found after everything that is pushed later. */
  lemma AppendedStays(log: Log, r: Row, ops: seq<Op>, now: Millis)
    requires Unique(log + [r])
    ensures |log| < |PushLog(log + [r], ops, now)| && PushLog(log + [r], ops, now)[|log|] == r
    ensures Find(PushLog(log + [r], ops, now), RowKey(r)) == Some(|log| + 1)
  {
    var last := PushLog(log + [r], ops, now);
    PushKeeps(log + [r], ops, now);
    assert last[|log|] == (log + [r])[|log|];
    FindAt(last, |log| + 1);
  }

  lemma StaysAbsent(log: Log, op: Op, k: RevKey, now: Millis)
    requires Find(log, k).None? && OpKey(op) != k
    ensures Find(FindOrAppend(log, op, now), k).None?
  {
  }

  /** No op before the j-th carries the same revision. */
  predicate FirstOf(ops: seq<Op>, j: nat)
    requires j < |ops|
  {
    forall i :: 0 <= i < j ==> OpKey(ops[i]) != OpKey(ops[j])
  }

  /** The row has everything of the op, and the time it was pushed. */
  predicate Records(r: Row, op: Op, now: Millis) {
    && r.id == op.id && r.rev == op.entityRev && r.kind == op.kind && r.origin == op.originDeviceId
    && r.digest == op.digest && r.body == op.literal && r.serverTs == now
  }

  /** The revision's entry is this row. */
  predicate StoredAs(log: Log, k: RevKey, r: Row) {
    Find(log, k).Some? && log[Find(log, k).value - 1] == r
  }

  lemma FirstOfRest(ops: seq<Op>, j: nat)
    requires 0 < j < |ops| && FirstOf(ops, j)
    ensures ops[1..][j - 1] == ops[j] && OpKey(ops[0]) != OpKey(ops[j]) && FirstOf(ops[1..], j - 1)
  {
    var rest := ops[1..];
    forall i | 0 <= i < j - 1 ensures OpKey(rest[i]) != OpKey(rest[j - 1]) { assert rest[i] == ops[i + 1]; }
  }

  /** First write wins: a new revision is stored as the first of the push's ops that carries it. */
  lemma {:induction false} FirstWriteWins(log: Log, ops: seq<Op>, now: Millis, j: nat)
    requires Unique(log) && j < |ops| && FirstOf(ops, j) && Find(log, OpKey(ops[j])).None?
    ensures StoredAs(PushLog(log, ops, now), (ops[j].id, ops[j].entityRev), RowOf(ops[j], now))
    ensures Records(RowOf(ops[j], now), ops[j], now)
    decreases |ops|
  {
    UniqueNext(log, ops[0], now);
    if j == 0 {
      AppendedStays(log, RowOf(ops[0], now), ops[1..], now);
    } else {
      FirstOfRest(ops, j);
      StaysAbsent(log, ops[0], OpKey(ops[j]), now);
      FirstWriteWins(FindOrAppend(log, ops[0], now), ops[1..], now, j - 1);
    }
  }

  /** The row has everything of the first op with its revision, which the log did not hold before. */
  ghost predicate NewRow(log: Log, ops: seq<Op>, now: Millis, r: Row, j: nat) {
    j < |ops| && Records(r, ops[j], now)
    && (forall i :: 0 <= i < j ==> (ops[i].id, ops[i].entityRev) != (r.id, r.rev))
    && (forall i :: 0 <= i < |log| ==> (log[i].id, log[i].rev) != (r.id, r.rev))
  }

  lemma NewRowLater(log: Log, ops: seq<Op>, now: Millis, r: Row, j: nat)
    requires ops != [] && NewRow(FindOrAppend(log, ops[0], now), ops[1..], now, r, j)
    ensures NewRow(log, ops, now, r, j + 1)
  {
    var next := FindOrAppend(log, ops[0], now);
    assert RowKey(next[Find(next, OpKey(ops[0])).value - 1]) == OpKey(ops[0]);
    forall i | 0 <= i < j + 1 ensures (ops[i].id, ops[i].entityRev) != (r.id, r.rev) {
      if i > 0 { assert ops[1..][i - 1] == ops[i]; }
    }
    forall i | 0 <= i < |log| ensures (log[i].id, log[i].rev) != (r.id, r.rev) { assert next[i] == log[i]; }
  }

  /** Whatever a push adds to the log is one of its ops, field by field, at the time of the push. */
  lemma {:induction false} NewRowsAreOps(log: Log, ops: seq<Op>, now: Millis, n: nat) returns (j: nat)
    requires Unique(log) && |log| <= n < |PushLog(log, ops, now)|
    ensures NewRow(log, ops, now, PushLog(log, ops, now)[n], j)
    decreases |ops|
  {
    var next := FindOrAppend(log, ops[0], now);
    UniqueNext(log, ops[0], now);
    PushKeeps(next, ops[1..], now);
    if n < |next| {
      j := 0;
      assert PushLog(log, ops, now)[n] == next[n] == RowOf(ops[0], now);
    } else {
      var i := NewRowsAreOps(next, ops[1..], now, n);
      NewRowLater(log, ops, now, PushLog(log, ops, now)[n], i);
      j := i + 1;
    }
  }

  // ----- Acknowledgements -----

  /** One number per op, in order: the one its revision has. */
  function AckSeqs(log: Log, ops: seq<Op>): (ns: seq<nat>)
    requires Holds(log, ops)
    ensures |ns| == |ops|
    ensures forall i :: 0 <= i < |ops| ==> ops[i] in ops && ns[i] == SeqOf(log, ops[i]) && 1 <= ns[i] <= |log|
  {
    seq(|ops|, i requires 0 <= i < |ops| => assert ops[i] in ops; SeqOf(log, ops[i]))
  }

  /** The part of an ack the client matches its outbox entries by. */
  function Tuple(op: Op): (bytes, bytes, Dec, bytes) { (op.id, op.kind, op.entityRev, op.digest) }

  /** Two ops of one push that claim the same revision for different contents. */
  predicate Conflict(ops: seq<Op>) {
    exists i, j :: 0 <= i < j < |ops| && OpKey(ops[i]) == OpKey(ops[j]) && Tuple(ops[i]) != Tuple(ops[j])
  }

  lemma SameSeqSameKey(log: Log, a: Op, b: Op)
    requires Find(log, OpKey(a)).Some? && Find(log, OpKey(b)).Some?
    ensures SeqOf(log, a) == SeqOf(log, b) <==> OpKey(a) == OpKey(b)
  {
  }

  /** Two acks share a sequence number exactly when their ops share an entity revision. */
  lemma AckSeqsFollowKeys(log: Log, ops: seq<Op>, i: nat, j: nat)
    requires Holds(log, ops) && i < |ops| && j < |ops|
    ensures AckSeqs(log, ops)[i] == AckSeqs(log, ops)[j] <==> OpKey(ops[i]) == OpKey(ops[j])
  {
    assert ops[i] in ops && ops[j] in ops;
    SameSeqSameKey(log, ops[i], ops[j]);
  }

  /**
   * The client's rule, that one tuple carries one sequence number and distinct tuples distinct
   * ones, is met exactly by the pushes without a conflict.
   */
  lemma AckTuplesDistinctIff(log: Log, ops: seq<Op>)
    requires Holds(log, ops)
    ensures (forall i, j :: 0 <= i < |ops| && 0 <= j < |ops| ==>
               (AckSeqs(log, ops)[i] == AckSeqs(log, ops)[j] <==> Tuple(ops[i]) == Tuple(ops[j])))
            <==> !Conflict(ops)
  {
    var ns := AckSeqs(log, ops);
    forall i, j | 0 <= i < |ops| && 0 <= j < |ops| ensures ns[i] == ns[j] <==> OpKey(ops[i]) == OpKey(ops[j]) {
      AckSeqsFollowKeys(log, ops, i, j);
    }
  }

  /** Acks are settled: as the log grows, the same ops are always acked with the same numbers. */
  lemma AckSeqsStable(log: Log, later: Log, ops: seq<Op>)
    requires Holds(log, ops) && log <= later && Unique(later)
    ensures Holds(later, ops) && AckSeqs(later, ops) == AckSeqs(log, ops)
  {
    forall op | op in ops ensures Find(later, OpKey(op)) == Find(log, OpKey(op)) { FindStable(log, later, OpKey(op)); }
    forall i | 0 <= i < |ops| ensures AckSeqs(later, ops)[i] == AckSeqs(log, ops)[i] { assert ops[i] in ops; }
  }

  // ----- Pages -----

  /** The bytes of the n bodies after `since`. */
  function Bodies(log: Log, since: nat, n: nat): nat
    requires since + n <= |log|
  {
    if n == 0 then 0 else Bodies(log, since, n - 1) + |log[since + n - 1].body|
  }

  /** The next n entries fit a page: within the limit, and within the byte cap unless n is one. */
  predicate Fits(log: Log, since: nat, n: nat, limit: nat, maxBytes: nat) {
    since + n <= |log| && n <= limit && (n <= 1 || Bodies(log, since, n) <= maxBytes)
  }

  /** The page after `since` has n entries: the most that fit. */
  predicate IsPage(log: Log, since: nat, n: nat, limit: nat, maxBytes: nat) {
    if since >= |log| then n == 0
    else Fits(log, since, n, limit, maxBytes) && !Fits(log, since, n + 1, limit, maxBytes)
  }

  lemma {:induction false} BodiesGrow(log: Log, since: nat, m: nat, n: nat)
    requires m <= n && since + n <= |log|
    ensures Bodies(log, since, m) <= Bodies(log, since, n)
  {
    if m < n { BodiesGrow(log, since, m, n - 1); }
  }

  /** Fewer entries fit whenever more do, so no larger page was possible: `IsPage` means the maximum. */
  lemma FitsDownward(log: Log, since: nat, m: nat, n: nat, limit: nat, maxBytes: nat)
    requires m <= n && Fits(log, since, n, limit, maxBytes)
    ensures Fits(log, since, m, limit, maxBytes)
  {
    BodiesGrow(log, since, m, n);
  }

  /** There is exactly one page, nothing longer fits, and it is empty only at or past the head. */
  lemma PageIsMaximal(log: Log, since: nat, n: nat, m: nat, limit: nat, maxBytes: nat)
    requires limit >= 1 && IsPage(log, since, n, limit, maxBytes)
    ensures n == 0 <==> since >= |log|
    ensures Fits(log, since, m, limit, maxBytes) ==> m <= n
    ensures IsPage(log, since, m, limit, maxBytes) ==> m == n
  {
    if Fits(log, since, m, limit, maxBytes) && n < m {
      if since < |log| { FitsDownward(log, since, n + 1, m, limit, maxBytes); }
    }
    if since < |log| && IsPage(log, since, m, limit, maxBytes) && m < n {
      FitsDownward(log, since, m + 1, n, limit, maxBytes);
    }
  }

  /** One request of a pull: the log its snapshot shows and the limits it runs under. */
  datatype Pull = Pull(log: Log, limit: nat, maxBytes: nat, taken: nat)

  /** Pages asked for one after another, each from where the last one ended, while the log grows. */
  predicate Pulls(cursor: nat, ps: seq<Pull>)
    decreases |ps|
  {
    ps != [] ==>
      && ps[0].limit >= 1
      && IsPage(ps[0].log, cursor, ps[0].taken, ps[0].limit, ps[0].maxBytes)
      && (|ps| > 1 ==> ps[0].log <= ps[1].log)
      && Pulls(cursor + ps[0].taken, ps[1..])
  }

  function Taken(ps: seq<Pull>): nat {
    if ps == [] then 0 else ps[0].taken + Taken(ps[1..])
  }

  /** The entries received, in order. */
  function Received(cursor: nat, ps: seq<Pull>): seq<Row>
    decreases |ps|
  {
    if ps == [] then []
    else PageRows(cursor, ps[0]) + Received(cursor + ps[0].taken, ps[1..])
  }

  function PageRows(cursor: nat, p: Pull): seq<Row> {
    if cursor + p.taken <= |p.log| then p.log[cursor..cursor + p.taken] else []
  }

  /** `More`, read off the page's own snapshot. */
  predicate More(cursor: nat, p: Pull) { cursor + p.taken < |p.log| }

  /** What contiguity rests on: each page is the excerpt of `last` that starts where the one before it ended. */
  predicate Excerpts(cursor: nat, ps: seq<Pull>, last: Log)
    decreases |ps|
  {
    ps != [] ==>
      && cursor + ps[0].taken <= |last|
      && PageRows(cursor, ps[0]) == last[cursor..cursor + ps[0].taken]
      && Excerpts(cursor + ps[0].taken, ps[1..], last)
  }

  lemma PrefixOfPrefix<T>(s: seq<T>, t: seq<T>, u: seq<T>)
    requires s <= t && t <= u
    ensures s <= u
  {
  }

  lemma PrefixSlice<T>(s: seq<T>, t: seq<T>, i: nat, j: nat)
    requires s <= t && i <= j <= |s|
    ensures j <= |t| && s[i..j] == t[i..j]
  {
  }

  lemma Join<T>(whole: seq<T>, head: seq<T>, tail: seq<T>, i: nat, j: nat, k: nat)
    requires i <= j <= k <= |whole| && head == whole[i..j] && tail == whole[j..k]
    ensures head + tail == whole[i..k]
  {
  }

  lemma {:induction false} PullsAreExcerpts(cursor: nat, ps: seq<Pull>)
    requires Pulls(cursor, ps) && ps != [] && cursor <= |ps[0].log|
    ensures ps[0].log <= ps[|ps| - 1].log
    ensures Excerpts(cursor, ps, ps[|ps| - 1].log)
    decreases |ps|
  {
    var p, rest, last := ps[0], ps[1..], ps[|ps| - 1].log;
    assert p.log[cursor..cursor + p.taken] == PageRows(cursor, p);
    if rest != [] {
      PullsAreExcerpts(cursor + p.taken, rest);
      PrefixOfPrefix(p.log, rest[0].log, last);
    }
    PrefixSlice(p.log, last, cursor, cursor + p.taken);
  }

  /** The first page, and the rest from where it ended. */
  lemma FirstPage(cursor: nat, ps: seq<Pull>, last: Log)
    requires Excerpts(cursor, ps, last) && ps != []
    ensures Received(cursor, ps) == PageRows(cursor, ps[0]) + Received(cursor + ps[0].taken, ps[1..])
    ensures Taken(ps) == ps[0].taken + Taken(ps[1..])
    ensures cursor + ps[0].taken <= |last| && PageRows(cursor, ps[0]) == last[cursor..cursor + ps[0].taken]
    ensures Excerpts(cursor + ps[0].taken, ps[1..], last)
  {
  }

  lemma {:induction false} ReceivedIsSlice(cursor: nat, ps: seq<Pull>, last: Log, received: seq<Row>, taken: nat)
    requires Excerpts(cursor, ps, last) && cursor <= |last|
    requires received == Received(cursor, ps) && taken == Taken(ps)
    ensures cursor + taken <= |last| && received == last[cursor..cursor + taken]
    decreases |ps|
  {
    if ps != [] {
      FirstPage(cursor, ps, last);
      var next, rest, tail, n := cursor + ps[0].taken, ps[1..], Received(cursor + ps[0].taken, ps[1..]), Taken(ps[1..]);
      ReceivedIsSlice(next, rest, last, tail, n);
      Join(last, PageRows(cursor, ps[0]), tail, cursor, next, next + n);
    }
  }

  /**
   * Whatever limits the pages run under and whatever is pushed between them, the pages concatenate
   * to exactly the entries after the starting cursor, in order, without a gap.
   */
  lemma PullIsContiguous(cursor: nat, ps: seq<Pull>)
    requires Pulls(cursor, ps) && ps != [] && cursor <= |ps[0].log|
    ensures cursor + Taken(ps) <= |ps[|ps| - 1].log|
    ensures Received(cursor, ps) == ps[|ps| - 1].log[cursor..cursor + Taken(ps)]
  {
    PullsAreExcerpts(cursor, ps);
    ReceivedIsSlice(cursor, ps, ps[|ps| - 1].log, Received(cursor, ps), Taken(ps));
  }

  /** The client asks for another page only while `More` holds. */
  predicate KeepsGoing(cursor: nat, ps: seq<Pull>)
    decreases |ps|
  {
    |ps| > 1 ==> More(cursor, ps[0]) && KeepsGoing(cursor + ps[0].taken, ps[1..])
  }

  /** The last page said that there is no more. */
  predicate Finished(cursor: nat, ps: seq<Pull>)
    requires ps != []
    decreases |ps|
  {
    if |ps| == 1 then !More(cursor, ps[0]) else Finished(cursor + ps[0].taken, ps[1..])
  }

  /**
   * On a quiet hub no page of a pull is empty, so it is over within head - since pages; it ends at
   * the head exactly when the last page says there is no more.
   */
  lemma {:induction false} QuietPullEnds(log: Log, cursor: nat, ps: seq<Pull>)
    requires Pulls(cursor, ps) && KeepsGoing(cursor, ps) && ps != [] && cursor < |log|
    requires forall p | p in ps :: p.log == log
    ensures |ps| <= Taken(ps) <= |log| - cursor
    ensures Finished(cursor, ps) <==> cursor + Taken(ps) == |log|
    decreases |ps|
  {
    var p := ps[0];
    assert p in ps;
    PageIsMaximal(log, cursor, p.taken, 0, p.limit, p.maxBytes);
    if |ps| == 1 {
      assert Taken(ps[1..]) == 0;
    } else {
      assert forall q | q in ps[1..] :: q in ps;
      QuietPullEnds(log, cursor + p.taken, ps[1..]);
    }
  }
}
