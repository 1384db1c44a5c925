/**
 * The hub's database and the operations on it: internal/store/ops.go, changes.go, store.go and
 * devices.go. Tables are maps; a transaction works on local copies and either replaces the fields
 * or leaves them alone. Each operation is proved against the log of `Oplog`.
 */
module Store {
  import opened Bytes
  import Decimal
  import opened Wrapper
  import opened Oplog
  import Wire

  const MAX_PAGE_LIMIT: nat := 500
  const DEFAULT_MAX_PAGE_BYTES: nat := 8 * 1024 * 1024
  const MAX_DEVICE_NAME_LEN: nat := 80

  /** `Failed` is any error of SQLite, of the transaction hook or of the commit. */
  datatype Error = Denied | BadCursor | Exhausted | BadEpoch | NoActiveDevice | Failed

  datatype Device = Device(name: bytes, firstSeen: Millis, lastSeen: Millis, revokedAt: Option<Millis>)

  datatype Meta = Meta(epoch: bytes, head: int)

  // ----- The ops table as a log -----

  type Table = map<int, Row>

  /** Sequence numbers 1 to m, without a gap. */
  ghost predicate Gapless(rows: Table) { forall n :: n in rows <==> 1 <= n <= |rows| }

  ghost function LogOf(rows: Table): (log: Log)
    requires Gapless(rows)
    ensures |log| == |rows|
    ensures forall n :: 1 <= n <= |rows| ==> log[n - 1] == rows[n]
  {
    seq(|rows|, i requires 0 <= i < |rows| => rows[i + 1])
  }

  ghost predicate IsTable(rows: Table, log: Log) { Gapless(rows) && LogOf(rows) == log }

  /** The table holds this log, and the log is a proper one. */
  ghost predicate Stores(rows: Table, log: Log) {
    IsTable(rows, log) && Unique(log) && |log| <= Decimal.MAX_INT64
  }

  /** An insert; the primary key and the index `ux_ops_entity` must allow it. */
  function Insert(rows: Table, n: int, r: Row): Table
    requires n !in rows
    requires forall m | m in rows :: RowKey(rows[m]) != RowKey(r)
  {
    rows[n := r]
  }

  lemma InsertStores(rows: Table, log: Log, r: Row)
    requires Stores(rows, log) && Find(log, RowKey(r)).None? && |log| < Decimal.MAX_INT64
    ensures |rows| + 1 !in rows && forall m | m in rows :: RowKey(rows[m]) != RowKey(r)
    ensures Stores(Insert(rows, |rows| + 1, r), log + [r])
  {
    forall m | m in rows ensures RowKey(rows[m]) != RowKey(r) { assert rows[m] == log[m - 1]; }
    UniqueAppend(log, r);
    AppendRow(rows, r);
  }

  lemma AppendRow(rows: Table, r: Row)
    requires Gapless(rows)
    ensures |rows| + 1 !in rows
    ensures Gapless(rows[|rows| + 1 := r]) && LogOf(rows[|rows| + 1 := r]) == LogOf(rows) + [r]
  {
    var next := rows[|rows| + 1 := r];
    assert |next| == |rows| + 1;
  }

  /** The lookup by entity revision. */
  method ExistingSeq(rows: Table, id: bytes, rev: Dec) returns (n: Option<int>)
    ensures n.Some? ==> n.value in rows && RowKey(rows[n.value]) == (id, rev)
    ensures n.None? ==> forall m | m in rows :: RowKey(rows[m]) != (id, rev)
  {
    if m :| m in rows && rows[m].id == id && rows[m].rev == rev {
      return Some(m);
    }
    return None;
  }

  lemma ExistingIsFind(rows: Table, log: Log, k: RevKey, n: Option<int>)
    requires Stores(rows, log)
    requires n.Some? ==> n.value in rows && RowKey(rows[n.value]) == k
    requires n.None? ==> forall m | m in rows :: RowKey(rows[m]) != k
    ensures n.None? ==> Find(log, k).None?
    ensures n.Some? ==> n.value > 0 && Find(log, k) == Some(n.value as nat)
  {
    if n.Some? {
      assert rows[n.value] == log[n.value - 1];
      FindAt(log, n.value);
    }
  }

  // ----- One op of a push -----

  /** What the transaction of a push has done so far. */
  datatype Progress = Progress(rows: Table, head: int, batch: map<bytes, int>, acks: seq<Wire.Ack>)

  function AckOf(log: Log, op: Op): Wire.Ack
    requires Find(log, OpKey(op)).Some? && |log| <= Decimal.MAX_INT64
  {
    Wire.Ack(op.id, op.kind, op.entityRev, op.digest, op.originLocalId, SeqOf(log, op))
  }

  /** The answer to a push: its own ops echoed, each with the number its revision has in the log. */
  function Acks(log: Log, ops: seq<Op>): (acks: seq<Wire.Ack>)
    requires Oplog.Holds(log, ops) && |log| <= Decimal.MAX_INT64
    ensures |acks| == |ops|
    ensures forall i :: 0 <= i < |ops| ==> ops[i] in ops && acks[i] == AckOf(log, ops[i])
  {
    seq(|ops|, i requires 0 <= i < |ops| => assert ops[i] in ops; AckOf(log, ops[i]))
  }

  /** The cache answers for every op handled, and for nothing else. */
  ghost predicate Cached(batch: map<bytes, int>, log: Log, done: seq<Op>) {
    && Oplog.Holds(log, done)
    && (forall op | op in done :: Decimal.Key(op.id, op.entityRev) in batch
                                  && batch[Decimal.Key(op.id, op.entityRev)] == SeqOf(log, op))
    && (forall k | k in batch :: Handled(done, k))
  }

  ghost predicate Handled(done: seq<Op>, k: bytes) {
    exists op :: op in done && Decimal.Key(op.id, op.entityRev) == k
  }

  ghost predicate Pushed(p: Progress, log: Log, done: seq<Op>) {
    && Stores(p.rows, log)
    && p.head == |log|
    && Cached(p.batch, log, done)
    && p.acks == Acks(log, done)
  }

  /** The cache is keyed by text, but by `KeyInjective` that is to say by revision. */
  lemma CacheHit(batch: map<bytes, int>, log: Log, done: seq<Op>, op: Op)
    requires Cached(batch, log, done) && Decimal.Key(op.id, op.entityRev) in batch
    ensures Find(log, OpKey(op)).Some? && batch[Decimal.Key(op.id, op.entityRev)] == SeqOf(log, op)
  {
    var key := Decimal.Key(op.id, op.entityRev);
    var first :| first in done && Decimal.Key(first.id, first.entityRev) == key;
    Decimal.KeyInjective(op.id, op.entityRev, first.id, first.entityRev);
  }

  /** Handling one more op: the log grows to `next`, the cache and the acks by one entry. */
  lemma PushedNext(p: Progress, log: Log, done: seq<Op>, op: Op, next: Log, rows: Table)
    requires Pushed(p, log, done) && log <= next && Stores(rows, next) && Find(next, OpKey(op)).Some?
    ensures var n := SeqOf(next, op);
            Pushed(Progress(rows, |next|, p.batch[Decimal.Key(op.id, op.entityRev) := n], p.acks + [AckOf(next, op)]),
                   next, done + [op])
  {
    forall o | o in done ensures Find(next, OpKey(o)) == Find(log, OpKey(o)) { FindStable(log, next, OpKey(o)); }
    CachedNext(p.batch, log, done, op, next);
    AcksNext(log, done, op, next);
  }

  lemma AcksNext(log: Log, done: seq<Op>, op: Op, next: Log)
    requires Oplog.Holds(log, done) && |log| <= |next| <= Decimal.MAX_INT64
    requires Find(next, OpKey(op)).Some?
    requires forall o | o in done :: Find(next, OpKey(o)) == Find(log, OpKey(o))
    ensures Oplog.Holds(next, done + [op])
    ensures Acks(next, done + [op]) == Acks(log, done) + [AckOf(next, op)]
  {
    var done' := done + [op];
    assert forall o | o in done' :: o in done || o == op;
    forall i | 0 <= i < |done| ensures Acks(next, done')[i] == Acks(log, done)[i] {
      assert done'[i] == done[i] && done[i] in done;
    }
  }

  lemma HandledNext(done: seq<Op>, op: Op, k: bytes)
    requires k == Decimal.Key(op.id, op.entityRev) || Handled(done, k)
    ensures Handled(done + [op], k)
  {
    if k == Decimal.Key(op.id, op.entityRev) {
      assert op in done + [op];
    } else {
      var o :| o in done && Decimal.Key(o.id, o.entityRev) == k;
      assert o in done + [op];
    }
  }

  lemma CachedNext(batch: map<bytes, int>, log: Log, done: seq<Op>, op: Op, next: Log)
    requires Cached(batch, log, done) && Find(next, OpKey(op)).Some?
    requires forall o | o in done :: Find(next, OpKey(o)) == Find(log, OpKey(o))
    ensures Cached(batch[Decimal.Key(op.id, op.entityRev) := SeqOf(next, op)], next, done + [op])
  {
    var key := Decimal.Key(op.id, op.entityRev);
    var batch' := batch[key := SeqOf(next, op)];
    forall o | o in done + [op]
      ensures Find(next, OpKey(o)).Some?
      ensures Decimal.Key(o.id, o.entityRev) in batch' && batch'[Decimal.Key(o.id, o.entityRev)] == SeqOf(next, o)
    {
      if Decimal.Key(o.id, o.entityRev) == key {
        Decimal.KeyInjective(o.id, o.entityRev, op.id, op.entityRev);
      }
    }
    forall k | k in batch' ensures Handled(done + [op], k) { HandledNext(done, op, k); }
  }

  /** The table and head after an op was placed, and its sequence number. */
  datatype Slot = Slot(rows: Table, head: int, n: int)

  /** The row the op goes to: the one stored, or a new one after the head. None if there is no number left. */
  method Allocate(rows: Table, head: int, op: Op, now: Millis, ghost log: Log) returns (r: Option<Slot>)
    requires Stores(rows, log) && head == |log|
    ensures r.None? <==> Find(log, OpKey(op)).None? && head == Decimal.MAX_INT64
    ensures r.Some? ==> Stores(r.value.rows, FindOrAppend(log, op, now))
    ensures r.Some? ==> r.value.head == |FindOrAppend(log, op, now)|
                        && r.value.n == SeqOf(FindOrAppend(log, op, now), op)
  {
    var stored := ExistingSeq(rows, op.id, op.entityRev);
    ExistingIsFind(rows, log, OpKey(op), stored);
    if stored.Some? {
      return Some(Slot(rows, head, stored.value));
    }
    if head == Decimal.MAX_INT64 {
      return None;
    }
    InsertStores(rows, log, RowOf(op, now));
    ghost var next := FindOrAppend(log, op, now);
    FindAt(next, |next|);
    return Some(Slot(Insert(rows, head + 1, RowOf(op, now)), head + 1, head + 1));
  }

  /** The body of the loop over the ops. */
  method PushOp(p: Progress, op: Op, now: Millis, ghost log: Log, ghost done: seq<Op>) returns (r: Option<Progress>)
    requires Pushed(p, log, done)
    ensures r.None? <==> |FindOrAppend(log, op, now)| > Decimal.MAX_INT64
    ensures r.Some? ==> Pushed(r.value, FindOrAppend(log, op, now), done + [op])
  {
    var key := Decimal.Key(op.id, op.entityRev);
    var rows, head, n := p.rows, p.head, 0;
    if key in p.batch {
      CacheHit(p.batch, log, done, op);
      n := p.batch[key];
    } else {
      var slot := Allocate(p.rows, p.head, op, now, log);
      if slot.None? {
        return None;
      }
      rows, head, n := slot.value.rows, slot.value.head, slot.value.n;
    }
    PushedNext(p, log, done, op, FindOrAppend(log, op, now), rows);
    return Some(Progress(rows, head, p.batch[key := n],
                         p.acks + [Wire.Ack(op.id, op.kind, op.entityRev, op.digest, op.originLocalId, n)]));
  }

  lemma PrefixOverflow(log: Log, ops: seq<Op>, i: nat, now: Millis)
    requires Unique(log) && i < |ops|
    ensures ops[..i + 1] == ops[..i] + [ops[i]]
    ensures PushLog(log, ops[..i + 1], now) == FindOrAppend(PushLog(log, ops[..i], now), ops[i], now)
    ensures PushLog(log, ops[..i + 1], now) <= PushLog(log, ops, now)
  {
    assert ops[..i + 1] == ops[..i] + [ops[i]] && ops == ops[..i + 1] + ops[i + 1..];
    PushOne(log, ops[..i], ops[i], now);
    PushConcat(log, ops[..i + 1], ops[i + 1..], now);
    PushKeeps(log, ops[..i + 1], now);
    PushKeeps(PushLog(log, ops[..i + 1], now), ops[i + 1..], now);
  }

  /** The transaction after the first i ops. */
  ghost predicate PushedTo(p: Progress, log: Log, ops: seq<Op>, i: nat, now: Millis)
    requires i <= |ops|
  {
    Pushed(p, PushLog(log, ops[..i], now), ops[..i])
  }

  lemma PushedToStart(rows: Table, log: Log, ops: seq<Op>, now: Millis)
    requires Stores(rows, log)
    ensures PushedTo(Progress(rows, |log|, map[], []), log, ops, 0, now)
  {
  }

  method PushNth(p: Progress, ops: seq<Op>, i: nat, now: Millis, ghost log: Log) returns (r: Option<Progress>)
    requires i < |ops| && Unique(log) && PushedTo(p, log, ops, i, now)
    ensures r.None? ==> |PushLog(log, ops, now)| > Decimal.MAX_INT64
    ensures r.Some? ==> PushedTo(r.value, log, ops, i + 1, now)
  {
    ghost var sofar, done := PushLog(log, ops[..i], now), ops[..i];
    r := PushOp(p, ops[i], now, sofar, done);
    PrefixOverflow(log, ops, i, now);
    PrefixLength(PushLog(log, ops[..i + 1], now), PushLog(log, ops, now));
  }

  lemma PrefixLength<T>(s: seq<T>, t: seq<T>)
    requires s <= t
    ensures |s| <= |t|
  {
  }

  /** The loop over the ops, on the tables as the transaction sees them. None when the numbers run out. */
  method PushAllOps(rows: Table, head: int, ops: seq<Op>, now: Millis, ghost log: Log) returns (r: Option<Progress>)
    requires Stores(rows, log) && head == |log|
    ensures r.None? <==> |PushLog(log, ops, now)| > Decimal.MAX_INT64
    ensures r.Some? ==> Pushed(r.value, PushLog(log, ops, now), ops)
  {
    var p := Progress(rows, head, map[], []);
    PushedToStart(rows, log, ops, now);
    for i := 0 to |ops|
      invariant PushedTo(p, log, ops, i, now)
    {
      var next := PushNth(p, ops, i, now, log);
      if next.None? {
        return None;
      }
      p := next.value;
    }
    assert ops[..|ops|] == ops;
    return Some(p);
  }

  // ----- Devices -----

  type Devices = map<bytes, Device>

  predicate Revoked(devices: Devices, id: bytes) {
    id != [] && id in devices && devices[id].revokedAt.Some?
  }

  function Truncated(name: bytes): bytes {
    if |name| > MAX_DEVICE_NAME_LEN then name[..MAX_DEVICE_NAME_LEN] else name
  }

  /** A device without an id is not recorded; one that is known keeps its first sighting and its revocation. */
  function Upserted(devices: Devices, id: bytes, name: bytes, now: Millis): Devices {
    if id == [] then devices
    else if id in devices then devices[id := devices[id].(name := Truncated(name), lastSeen := now)]
    else devices[id := Device(Truncated(name), now, now, None)]
  }

  /**
   * Being seen never lifts or imposes a revocation, on this device or any other, and changes no
   * first sighting; the device seen is recorded with the first 80 bytes of the name and the time,
   * which is its first sighting if it is new.
   */
  lemma UpsertKeepsRevocations(devices: Devices, id: bytes, name: bytes, now: Millis, other: bytes)
    ensures id == [] ==> Upserted(devices, id, name, now) == devices
    ensures id != [] ==>
              id in Upserted(devices, id, name, now) &&
              Upserted(devices, id, name, now)[id] ==
              Device(if |name| <= 80 then name else name[..80], if id in devices then devices[id].firstSeen else now,
                     now, if id in devices then devices[id].revokedAt else None)
    ensures other != id ==> (other in Upserted(devices, id, name, now) <==> other in devices)
    ensures other != id && other in devices ==> Upserted(devices, id, name, now)[other] == devices[other]
    ensures Revoked(Upserted(devices, id, name, now), other) <==> Revoked(devices, other)
    ensures Revoked(devices, other) <==> other != [] && other in devices && devices[other].revokedAt.Some?
  {
  }

  // ----- Pages -----

  function Limit(limit: int): (n: nat)
    ensures 1 <= n <= MAX_PAGE_LIMIT
    ensures n == limit <==> 1 <= limit <= MAX_PAGE_LIMIT
  {
    if limit <= 0 || limit > MAX_PAGE_LIMIT then MAX_PAGE_LIMIT else limit
  }

  function Cap(maxBytes: int): (n: nat)
    ensures n > 0 && (maxBytes > 0 ==> n == maxBytes)
  {
    if maxBytes <= 0 then DEFAULT_MAX_PAGE_BYTES else maxBytes
  }

  function EntryOf(n: Dec, row: Row): Wire.ChangeOp {
    Wire.ChangeOp(n, row.serverTs, row.body, row.digest)
  }

  function Entry(log: Log, i: nat): Wire.ChangeOp
    requires i < |log| <= Decimal.MAX_INT64
  {
    EntryOf(i + 1, log[i])
  }

  /** The n entries after `since` as a page shows them. */
  function Entries(log: Log, since: nat, n: nat): (es: seq<Wire.ChangeOp>)
    requires since + n <= |log| <= Decimal.MAX_INT64
    ensures |es| == n
    ensures forall i :: 0 <= i < n ==> es[i] == Entry(log, since + i)
  {
    seq(n, i requires 0 <= i < n => Entry(log, since + i))
  }

  /** The entries of the page after `since`: the most that fit, from the first one on. */
  ghost predicate PageEntries(log: Log, since: nat, limit: nat, maxBytes: nat, ops: seq<Wire.ChangeOp>) {
    && |log| <= Decimal.MAX_INT64
    && IsPage(log, since, |ops|, limit, maxBytes)
    && if since <= |log| then since + |ops| <= |log| && ops == Entries(log, since, |ops|) else ops == []
  }

  /** The page of this log after this cursor, as the client asked for it. */
  ghost predicate PageOf(log: Log, since: Dec, limit: int, maxBytes: int, epoch: Dec, res: Wire.ChangesResult) {
    && |log| <= Decimal.MAX_INT64
    && PageEntries(log, since, Limit(limit), Cap(maxBytes), res.ops)
    && (res.more <==> since + |res.ops| < |log|)
    && res.headSeq == |log|
    && res.epoch == epoch
  }

  /** What a page shows of the log, field by field. */
  ghost predicate Shows(log: Log, since: nat, epoch: Dec, res: Wire.ChangesResult) {
    && res.headSeq == |log| && res.epoch == epoch
    && (res.more <==> since + |res.ops| < |log|)
    && (res.ops != [] ==> since + |res.ops| <= |log|)
    && forall i :: 0 <= i < |res.ops| ==>
         && res.ops[i].seqNo == since + i + 1 && res.ops[i].serverTs == log[since + i].serverTs
         && res.ops[i].literal == log[since + i].body && res.ops[i].digest == log[since + i].digest
  }

  /** The same, and with a limit or a cap that is out of range the page is the one for 500 entries or 8 MiB. */
  lemma PageShows(log: Log, since: Dec, limit: int, maxBytes: int, epoch: Dec, res: Wire.ChangesResult)
    requires PageOf(log, since, limit, maxBytes, epoch, res)
    ensures Shows(log, since, epoch, res)
    ensures IsPage(log, since, |res.ops|, if 1 <= limit <= 500 then limit else 500,
                   if maxBytes > 0 then maxBytes else 8_388_608)
  {
  }

  /** The number of the first row after `since` in sequence order. */
  method NextSeq(rows: Table, since: nat) returns (n: Option<int>)
    requires Gapless(rows)
    ensures n == if since < |rows| then Some(since + 1) else None
  {
    if m :| m in rows && m > since && forall x | x in rows :: x > since ==> m <= x {
      assert since < |rows| ==> since + 1 in rows;
      return Some(m);
    }
    assert since < |rows| ==> since + 1 in rows;
    return None;
  }

  method NextRow(rows: Table, since: nat, ghost log: Log) returns (r: Option<(int, Row)>)
    requires IsTable(rows, log)
    ensures r == if since < |log| then Some((since + 1, log[since])) else None
  {
    var n := NextSeq(rows, since);
    if n.None? {
      return None;
    }
    return Some((n.value, rows[n.value]));
  }

  /** The page after some rows were added to it. */
  ghost predicate Filling(log: Log, since: nat, limit: nat, maxBytes: nat, ops: seq<Wire.ChangeOp>, bytesSoFar: nat) {
    && |log| <= Decimal.MAX_INT64
    && if since > |log| then ops == []
       else
         && since + |ops| <= |log|
         && ops == Entries(log, since, |ops|)
         && bytesSoFar == Bodies(log, since, |ops|)
         && Fits(log, since, |ops|, limit, maxBytes)
  }

  lemma FillingStart(log: Log, since: nat, limit: nat, maxBytes: nat)
    requires |log| <= Decimal.MAX_INT64
    ensures Filling(log, since, limit, maxBytes, [], 0)
  {
  }

  lemma FillingNext(log: Log, since: nat, limit: nat, maxBytes: nat, ops: seq<Wire.ChangeOp>, bytesSoFar: nat, n: Dec,
                    row: Row)
    requires Filling(log, since, limit, maxBytes, ops, bytesSoFar) && since + |ops| < |log|
    requires n == since + |ops| + 1 && row == log[since + |ops|]
    requires |ops| < limit && (|ops| > 0 ==> bytesSoFar + |row.body| <= maxBytes)
    ensures Filling(log, since, limit, maxBytes, ops + [EntryOf(n, row)], bytesSoFar + |row.body|)
  {
    assert Entries(log, since, |ops| + 1) == ops + [EntryOf(n, row)];
  }

  /** The page is full, or there are no more rows. */
  lemma FillingStops(log: Log, since: nat, limit: nat, maxBytes: nat, ops: seq<Wire.ChangeOp>, bytesSoFar: nat)
    requires Filling(log, since, limit, maxBytes, ops, bytesSoFar) && limit >= 1
    requires since + |ops| < |log| ==>
               |ops| == limit || (|ops| > 0 && bytesSoFar + |log[since + |ops|].body| > maxBytes)
    ensures PageEntries(log, since, limit, maxBytes, ops)
  {
  }

  /** The row the query gives: added to the page, or the reason to stop. */
  method AddRow(next: Option<(int, Row)>, since: nat, limit: nat, maxBytes: nat, ops: seq<Wire.ChangeOp>,
                bytesSoFar: nat, ghost log: Log)
    returns (stop: bool, more: bool, ops': seq<Wire.ChangeOp>, bytesSoFar': nat)
    requires limit >= 1 && Filling(log, since, limit, maxBytes, ops, bytesSoFar)
    requires next == if since + |ops| < |log| then Some((since + |ops| + 1, log[since + |ops|])) else None
    ensures !stop ==> |ops'| == |ops| + 1 <= limit && Filling(log, since, limit, maxBytes, ops', bytesSoFar')
    ensures stop ==> ops' == ops && PageEntries(log, since, limit, maxBytes, ops) && (more <==> since + |ops| < |log|)
  {
    if next.None? {
      FillingStops(log, since, limit, maxBytes, ops, bytesSoFar);
      return true, false, ops, bytesSoFar;
    }
    var (n, row) := next.value;
    if |ops| == limit || (|ops| > 0 && bytesSoFar + |row.body| > maxBytes) {
      FillingStops(log, since, limit, maxBytes, ops, bytesSoFar);
      return true, true, ops, bytesSoFar;
    }
    FillingNext(log, since, limit, maxBytes, ops, bytesSoFar, n, row);
    return false, false, ops + [EntryOf(n, row)], bytesSoFar + |row.body|;
  }

  method AddNext(rows: Table, since: nat, limit: nat, maxBytes: nat, ops: seq<Wire.ChangeOp>, bytesSoFar: nat,
                 ghost log: Log)
    returns (stop: bool, more: bool, ops': seq<Wire.ChangeOp>, bytesSoFar': nat)
    requires IsTable(rows, log) && limit >= 1 && Filling(log, since, limit, maxBytes, ops, bytesSoFar)
    ensures !stop ==> |ops'| == |ops| + 1 <= limit && Filling(log, since, limit, maxBytes, ops', bytesSoFar')
    ensures stop ==> ops' == ops && PageEntries(log, since, limit, maxBytes, ops) && (more <==> since + |ops| < |log|)
  {
    var next := NextRow(rows, since + |ops|, log);
    stop, more, ops', bytesSoFar' := AddRow(next, since, limit, maxBytes, ops, bytesSoFar, log);
  }

  /** The loop over the rows; one more than the limit is asked for. */
  method ReadPage(rows: Table, since: nat, limit: nat, maxBytes: nat, ghost log: Log)
    returns (ops: seq<Wire.ChangeOp>, more: bool)
    requires IsTable(rows, log) && |log| <= Decimal.MAX_INT64 && limit >= 1
    ensures PageEntries(log, since, limit, maxBytes, ops)
    ensures more <==> since + |ops| < |log|
  {
    ops, more := [], false;
    var bytesSoFar: nat := 0;
    FillingStart(log, since, limit, maxBytes);
    for fetched := 0 to limit + 1
      invariant |ops| == fetched <= limit
      invariant Filling(log, since, limit, maxBytes, ops, bytesSoFar)
    {
      var stop: bool;
      stop, more, ops, bytesSoFar := AddNext(rows, since, limit, maxBytes, ops, bytesSoFar, log);
      if stop {
        return;
      }
    }
  }

  // ----- Opening a database -----

  /** `SELECT MAX(seq)`, with 0 for an empty table. */
  method MaxSeq(rows: Table) returns (n: int)
    requires Gapless(rows)
    ensures n == |rows|
  {
    if m :| m in rows && forall x | x in rows :: x <= m {
      assert |rows| > 0 ==> |rows| in rows;
      return m;
    }
    assert |rows| > 0 ==> |rows| in rows;
    return 0;
  }

  /** `randomEpoch`: a random number below 2^63, made positive. */
  function RandomEpoch(random: nat): (e: Dec)
    requires random <= Decimal.MAX_INT64
    ensures 1 <= e <= Decimal.MAX_INT64
  {
    if random == 0 then 1 else random
  }

  /** The answer of a push to the ops it was given, when the log afterwards is this one. */
  function Answer(log: Log, ops: seq<Op>): Wire.PushResult
    requires Oplog.Holds(log, ops) && |log| <= Decimal.MAX_INT64
  {
    Wire.PushResult(Acks(log, ops), |log|, |log|)
  }

  /** One ack for each op, with the op's own fields and the number of its row; head and projection are the length. */
  ghost predicate Acked(log: Log, ops: seq<Op>, res: Wire.PushResult) {
    && res.headSeq == |log| && res.projectedSeq == |log| && |res.acks| == |ops|
    && forall i :: 0 <= i < |ops| ==>
         var a := res.acks[i];
         && a.id == ops[i].id && a.kind == ops[i].kind && a.entityRev == ops[i].entityRev
         && a.digest == ops[i].digest && a.originLocalId == ops[i].originLocalId
         && 1 <= a.seqNo <= |log| && log[a.seqNo - 1].id == ops[i].id && log[a.seqNo - 1].rev == ops[i].entityRev
  }

  lemma AnswerAcks(log: Log, ops: seq<Op>)
    requires Oplog.Holds(log, ops) && |log| <= Decimal.MAX_INT64
    ensures Acked(log, ops, Answer(log, ops))
  {
  }

  function AckTuple(a: Wire.Ack): (bytes, bytes, Dec, bytes) { (a.id, a.kind, a.entityRev, a.digest) }

  /** The checks of the client on a push response: docs/protocol.md, test/clientvalidate/validate.js. */
  predicate ClientAccepts(ops: seq<Op>, res: Wire.PushResult) {
    && res.headSeq <= res.projectedSeq
    // One ack for each op, with the op's own id, kind, revision, digest and local id.
    && |res.acks| == |ops|
    && (forall i :: 0 <= i < |ops| ==> AckTuple(res.acks[i]) == Tuple(ops[i])
                                       && res.acks[i].originLocalId == ops[i].originLocalId)
    // Sequence numbers are positive and not above the head.
    && (forall i :: 0 <= i < |ops| ==> 1 <= res.acks[i].seqNo <= res.headSeq)
    // Distinct tuples do not share a number, and one tuple does not carry two.
    && (forall i, j :: 0 <= i < |ops| && 0 <= j < |ops| ==>
          (res.acks[i].seqNo == res.acks[j].seqNo <==> AckTuple(res.acks[i]) == AckTuple(res.acks[j])))
  }

  /** The answer passes them all, unless the push itself holds two bodies for one revision. */
  lemma AnswerAcceptedIff(log: Log, ops: seq<Op>)
    requires Oplog.Holds(log, ops) && |log| <= Decimal.MAX_INT64
    ensures ClientAccepts(ops, Answer(log, ops)) <==> !Conflict(ops)
  {
    var res := Answer(log, ops);
    AckTuplesDistinctIff(log, ops);
    forall i | 0 <= i < |ops|
      ensures AckTuple(res.acks[i]) == Tuple(ops[i]) && res.acks[i].originLocalId == ops[i].originLocalId
      ensures res.acks[i].seqNo == AckSeqs(log, ops)[i]
    {
      assert ops[i] in ops;
    }
  }

  lemma SameRevisionTwice(a: Op, b: Op, now: Millis)
    requires OpKey(a) == OpKey(b)
    ensures PushLog([], [a, b], now) == [RowOf(a, now)] && Find([RowOf(a, now)], OpKey(a)) == Some(1)
  {
    PushOne([], [], a, now);
    PushOne([], [a], b, now);
    assert [] + [a] == [a] && [a] + [b] == [a, b] && [] + [RowOf(a, now)] == [RowOf(a, now)];
  }

  lemma ConflictIsRefused(log: Log, a: Op, b: Op)
    requires Oplog.Holds(log, [a, b]) && |log| <= Decimal.MAX_INT64 && OpKey(a) == OpKey(b) && a.digest != b.digest
    ensures !ClientAccepts([a, b], Answer(log, [a, b]))
  {
    var ops := [a, b];
    assert OpKey(ops[0]) == OpKey(ops[1]) && Tuple(ops[0]) != Tuple(ops[1]);
    AnswerAcceptedIff(log, ops);
  }

  /** Two ops for one new revision, the second with another digest: one row, and no answer the client accepts. */
  lemma ConflictCounterexample(op: Op, digest: bytes, now: Millis)
    requires digest != op.digest
    ensures var ops := [op, op.(digest := digest)];
            var log := PushLog([], ops, now);
            log == [RowOf(op, now)] && Oplog.Holds(log, ops) && !ClientAccepts(ops, Answer(log, ops))
  {
    var other := op.(digest := digest);
    SameRevisionTwice(op, other, now);
    ConflictIsRefused([RowOf(op, now)], op, other);
  }

  class Store {
    // The database.
    var ops: Table
    var meta: Option<Meta>
    var devices: Devices
    // The epoch as this process remembers it.
    var epoch: Dec

    /** A database file: a log from 1 to m, and any head counter and epoch text, or none yet. */
    ghost predicate Database()
      reads this
    {
      Gapless(ops) && Unique(LogOf(ops)) && |ops| <= Decimal.MAX_INT64
    }

    /** An open store: the counter agrees with the log, and the epoch with the stored one. */
    ghost predicate Valid()
      reads this
    {
      && Database()
      && meta.Some? && meta.value.head == |ops|
      && epoch > 0 && meta.value.epoch == Decimal.Print(epoch)
    }

    ghost function Contents(): Log
      reads this
      requires Database()
    {
      LogOf(ops)
    }

    /** `loadOrCreateMeta` on a file that has no meta row yet. */
    constructor (random: nat)
      requires random <= Decimal.MAX_INT64
      ensures Valid() && Contents() == [] && devices == map[] && epoch == if random == 0 then 1 else random
    {
      ops, devices := map[], map[];
      epoch := RandomEpoch(random);
      meta := Some(Meta(Decimal.Print(RandomEpoch(random)), 0));
    }

    /** `loadOrCreateMeta`: an epoch that is not a positive decimal keeps the store from opening. */
    method LoadOrCreateMeta(random: nat) returns (r: Result<(), Error>)
      requires Database() && random <= Decimal.MAX_INT64
      modifies this`meta, this`epoch
      ensures r.Ok? ==> meta.Some? && epoch > 0 && meta.value.epoch == Decimal.Print(epoch)
      ensures old(meta).Some? ==> meta == old(meta)
      ensures old(meta).Some? ==> (r.Err? <==> forall e: Dec | e > 0 :: old(meta).value.epoch != Decimal.Print(e))
      ensures old(meta).None? ==> r.Ok? && epoch == (if random == 0 then 1 else random) && meta.value.head == 0
    {
      if meta.None? {
        epoch := RandomEpoch(random);
        meta := Some(Meta(Decimal.Print(epoch), 0));
        return Ok(());
      }
      Decimal.ParsesExactlyPrinted(meta.value.epoch);
      match Decimal.ParseDecPositive(meta.value.epoch) {
        case Err(_) => return Err(BadEpoch);
        case Ok(e) =>
          epoch := e;
          return Ok(());
      }
    }

    /** `BumpEpoch`. */
    method BumpEpoch(random: nat)
      requires Database() && meta.Some? && random <= Decimal.MAX_INT64
      modifies this`meta, this`epoch
      ensures epoch == if random == 0 then 1 else random
      ensures meta == Some(old(meta).value.(epoch := Decimal.Print(epoch)))
    {
      epoch := RandomEpoch(random);
      meta := Some(meta.value.(epoch := Decimal.Print(epoch)));
    }

    /** `verifyHeadConsistency`: a counter that disagrees with the log is set right and the epoch rotated. */
    method VerifyHeadConsistency(random: nat)
      requires Database() && random <= Decimal.MAX_INT64
      requires meta.Some? && epoch > 0 && meta.value.epoch == Decimal.Print(epoch)
      modifies this`meta, this`epoch
      ensures Valid()
      ensures epoch == if old(meta).value.head == |ops| then old(epoch) else if random == 0 then 1 else random
    {
      var actual := MaxSeq(ops);
      if actual == meta.value.head {
        return;
      }
      meta := Some(meta.value.(head := actual));
      BumpEpoch(random);
    }

    /**
     * Opening a database: the log and the devices are left alone, the head counter is the log's
     * length, and the epoch is drawn anew exactly when the counter said otherwise; drawing a positive
     * number that is not the stored epoch changes it.
     */
    method Open(random: nat, random': nat) returns (r: Result<(), Error>)
      requires Database() && random <= Decimal.MAX_INT64 && random' <= Decimal.MAX_INT64
      modifies this`meta, this`epoch
      ensures r.Ok? ==> Valid() && Contents() == old(Contents())
      ensures old(meta).Some? ==> (r.Err? <==> forall e: Dec | e > 0 :: old(meta).value.epoch != Decimal.Print(e))
      ensures old(meta).None? ==> r.Ok? && epoch in {RandomEpoch(random), RandomEpoch(random')}
      ensures r.Ok? && old(meta).Some? && old(meta).value.head == |ops| ==>
                Decimal.Print(epoch) == old(meta).value.epoch
      ensures r.Ok? && old(meta).Some? && old(meta).value.head != |ops| ==>
                epoch == if random' == 0 then 1 else random'
      ensures r.Ok? && old(meta).Some? && old(meta).value.head != |ops| ==>
                random' > 0 && old(meta).value.epoch != Decimal.Print(random') ==>
                  Decimal.Print(epoch) != old(meta).value.epoch
    {
      r := LoadOrCreateMeta(random);
      if r.Ok? {
        VerifyHeadConsistency(random');
      }
    }

    /**
     * `Push`. A revoked device is denied. Otherwise the push commits unless the sequence numbers run
     * out or the transaction fails, and then the log is the find-or-append fold and every op is
     * acked with the number its revision has in it. When it does not commit nothing changes at all.
     */
    method Push(batch: seq<Op>, deviceId: bytes, deviceName: bytes, now: Millis, fails: bool)
      returns (r: Result<Wire.PushResult, Error>)
      requires Valid()
      modifies this`ops, this`meta, this`devices
      ensures Valid()
      ensures r.Err? ==> Contents() == old(Contents()) && meta == old(meta) && devices == old(devices)
      ensures r == Err(Denied) <==> Revoked(old(devices), deviceId)
      ensures r == Err(Denied) <==>
                deviceId != [] && deviceId in old(devices) && old(devices)[deviceId].revokedAt.Some?
      ensures r == Err(Exhausted) <==> !Revoked(old(devices), deviceId)
                                       && |PushLog(old(Contents()), batch, now)| > 0x7FFF_FFFF_FFFF_FFFF
      ensures r.Ok? || r.error in {Denied, Exhausted} || (fails && r.error == Failed)
      ensures r.Ok? ==> !fails && Contents() == PushLog(old(Contents()), batch, now)
      ensures r.Ok? ==> Oplog.Holds(Contents(), batch) && r.value == Answer(Contents(), batch)
      ensures r.Ok? ==> r.value.headSeq == r.value.projectedSeq == |Contents()|
      ensures r.Ok? ==> devices == Upserted(old(devices), deviceId, deviceName, now)
    {
      if Revoked(devices, deviceId) {
        return Err(Denied);
      }
      var p := PushAllOps(ops, meta.value.head, batch, now, Contents());
      if p.None? {
        return Err(Exhausted);
      }
      if fails {
        return Err(Failed);
      }
      PushKeeps(Contents(), batch, now);
      ops := p.value.rows;
      meta := Some(meta.value.(head := p.value.head));
      devices := Upserted(devices, deviceId, deviceName, now);
      return Ok(Wire.PushResult(p.value.acks, p.value.head, p.value.head));
    }

    /** `Changes`: head, epoch and rows come from one snapshot. */
    method Changes(since: Dec, limit: int, maxBytes: int) returns (r: Result<Wire.ChangesResult, Error>)
      requires Valid()
      ensures r.Err? <==> since > 0x7FFF_FFFF_FFFF_FFFF
      ensures r.Err? ==> r.error == BadCursor
      ensures r.Ok? ==> PageOf(Contents(), since, limit, maxBytes, epoch, r.value)
    {
      if Decimal.Int64(since).None? {
        return Err(BadCursor);
      }
      Decimal.ParsePrintInverse(meta.value.epoch, epoch);
      var stored := Decimal.ParseDecPositive(meta.value.epoch);
      var entries, more := ReadPage(ops, since, Limit(limit), Cap(maxBytes), Contents());
      return Ok(Wire.ChangesResult(entries, more, meta.value.head, stored.value));
    }

    /** `HeadSeq`, for `handleStatus`. */
    method HeadSeq() returns (n: Dec)
      requires Valid()
      ensures n == |Contents()|
    {
      n := meta.value.head;
    }

    /** `SeenDevice`. */
    method SeenDevice(deviceId: bytes, deviceName: bytes, now: Millis)
      requires Valid()
      modifies this`devices
      ensures Valid() && devices == Upserted(old(devices), deviceId, deviceName, now)
    {
      devices := Upserted(devices, deviceId, deviceName, now);
    }

    /** `RevokeDevice`: only a known device that is not revoked yet; log and epoch stay as they are. */
    method RevokeDevice(deviceId: bytes, now: Millis) returns (r: Result<(), Error>)
      requires Valid()
      modifies this`devices
      ensures Valid()
      ensures r.Ok? <==> deviceId in old(devices) && old(devices)[deviceId].revokedAt.None?
      ensures r.Ok? ==> devices == old(devices)[deviceId := old(devices)[deviceId].(revokedAt := Some(now))]
      ensures r.Err? ==> devices == old(devices) && r.error == NoActiveDevice
    {
      if deviceId !in devices || devices[deviceId].revokedAt.Some? {
        return Err(NoActiveDevice);
      }
      devices := devices[deviceId := devices[deviceId].(revokedAt := Some(now))];
      return Ok(());
    }
  }
}
