/**
 * The log as a protocol: one hub, any number of devices, and a network that loses, repeats and
 * delays. The hub's steps are those of `Store`; the client's rules are those its validator checks
 * (test/clientvalidate/validate.js, docs/protocol.md).
 */
module Protocol {
  import opened Bytes
  import Decimal
  import JsonString
  import opened Wrapper
  import opened Oplog
  import opened Store
  import opened Hub
  import Wire

  /** A read transaction: what the database was when it began. */
  datatype Snapshot = Snapshot(log: Log, epoch: Dec)

  /** A changes response, for a request with this cursor. */
  datatype Page = Page(since: nat, res: Wire.ChangesResult)

  /** One acknowledgement the hub gave: the revision, the number, and the epoch it was given in. */
  datatype AckRec = AckRec(key: RevKey, seqNo: nat, epoch: Dec)

  /** A pulling client. `wedged` is set by a page it has to reject. */
  datatype Client = Client(cursor: nat, epoch: Option<Dec>, received: seq<Wire.ChangeOp>, wedged: bool)

  /**
   * `logs` remembers the log of every epoch there has been; the current one is the database's.
   * `base` and `history` are the log the current epoch began with and the ops committed since.
   * Snapshots, pages and acks are never removed: each may be used late, repeatedly or never.
   */
  datatype State = State(
    epoch: Dec,
    logs: map<Dec, Log>,
    devices: Devices,
    snapshots: set<Snapshot>,
    pages: set<Page>,
    acks: set<AckRec>,
    clients: map<bytes, Client>,
    base: Log,
    history: seq<Op>)

  datatype Step =
    | Push(ops: seq<Op>, deviceId: bytes, deviceName: bytes, now: Millis)
    /** Denied, out of numbers, rolled back, or a commit that failed. */
    | FailedPush
    | BeginRead
    | Respond(snapshot: Snapshot, limit: int, maxBytes: int, page: Page)
    | Deliver(client: bytes, page: Page)
    | Join(client: bytes)
    | Seen(deviceId: bytes, deviceName: bytes, now: Millis)
    | Revoke(deviceId: bytes, now: Millis)
    /** The hub opens its own file again. */
    | Restart
    /** It opens any file in an epoch there has not been: one it rotated to, or one from elsewhere. */
    | OpenFresh(epoch: Dec, log: Log, devices: Devices)
    /** It opens any file that agrees with itself in an epoch there has been, and notices nothing. */
    | Restore(epoch: Dec, log: Log, devices: Devices)

  // ----- The client's rules -----

  /** The check that wedges: every sequence number is the one after the last. */
  predicate Contiguous(cursor: nat, ops: seq<Wire.ChangeOp>) {
    forall i :: 0 <= i < |ops| ==> ops[i].seqNo == cursor + i + 1
  }

  /** A page of another epoch voids the cursor; a page with a gap is rejected; any other is applied. */
  function Receive(c: Client, res: Wire.ChangesResult): Client {
    if c.epoch != Some(res.epoch) then Client(0, Some(res.epoch), [], c.wedged)
    else if !Contiguous(c.cursor, res.ops) then c.(wedged := true)
    else c.(cursor := c.cursor + |res.ops|, received := c.received + res.ops)
  }

  /**
   * One entry out of place wedges the client for good and gives it nothing; a page without any is
   * appended; a page of another epoch starts it over.
   */
  lemma ReceiveMeans(c: Client, res: Wire.ChangesResult)
    ensures c.epoch != Some(res.epoch) ==> Receive(c, res) == Client(0, Some(res.epoch), [], c.wedged)
    ensures c.epoch == Some(res.epoch) && (forall i :: 0 <= i < |res.ops| ==> res.ops[i].seqNo == c.cursor + 1 + i) ==>
              Receive(c, res) == Client(c.cursor + |res.ops|, c.epoch, c.received + res.ops, c.wedged)
    ensures c.epoch == Some(res.epoch) && (exists i :: 0 <= i < |res.ops| && res.ops[i].seqNo != c.cursor + 1 + i) ==>
              Receive(c, res) == Client(c.cursor, c.epoch, c.received, true)
  {
    if i :| 0 <= i < |res.ops| && res.ops[i].seqNo != c.cursor + 1 + i {
      assert !Contiguous(c.cursor, res.ops);
    }
  }

  // ----- Runs -----

  ghost predicate Init(env: Env, s: State) {
    && s.logs == map[s.epoch := []]
    && s.devices == map[] && s.snapshots == {} && s.pages == {} && s.acks == {} && s.clients == map[]
    && s.base == [] && s.history == []
  }

  ghost predicate IsLog(env: Env, log: Log) {
    Unique(log) && |log| <= Decimal.MAX_INT64 && GenuineLog(env, log)
  }

  function AckRecs(log: Log, ops: seq<Op>, epoch: Dec): set<AckRec>
    requires Oplog.Holds(log, ops)
  {
    set op | op in ops :: AckRec(OpKey(op), SeqOf(log, op), epoch)
  }

  ghost predicate Next(env: Env, s: State, step: Step, s': State)
    requires s.epoch in s.logs
  {
    var log := s.logs[s.epoch];
    match step
    case Push(ops, id, name, now) =>
      var log' := PushLog(log, ops, now);
      && !Revoked(s.devices, id)
      && |log'| <= Decimal.MAX_INT64
      && (forall op | op in ops :: Genuine(env, op))
      && Oplog.Holds(log', ops)
      && s' == s.(logs := s.logs[s.epoch := log'], devices := Upserted(s.devices, id, name, now),
                  acks := s.acks + AckRecs(log', ops, s.epoch), history := s.history + ops)
    case FailedPush => s' == s
    case BeginRead => s' == s.(snapshots := s.snapshots + {Snapshot(log, s.epoch)})
    case Respond(snapshot, limit, maxBytes, page) =>
      && snapshot in s.snapshots
      && page.since <= Decimal.MAX_INT64
      && PageOf(snapshot.log, page.since, limit, maxBytes, snapshot.epoch, page.res)
      && s' == s.(pages := s.pages + {page})
    case Deliver(c, page) =>
      && page in s.pages && c in s.clients && page.since == s.clients[c].cursor
      && s' == s.(clients := s.clients[c := Receive(s.clients[c], page.res)])
    case Join(c) => c !in s.clients && s' == s.(clients := s.clients[c := Client(0, None, [], false)])
    case Seen(id, name, now) => s' == s.(devices := Upserted(s.devices, id, name, now))
    case Revoke(id, now) =>
      && id in s.devices && s.devices[id].revokedAt.None?
      && s' == s.(devices := s.devices[id := s.devices[id].(revokedAt := Some(now))])
    case Restart => s' == s
    case OpenFresh(epoch, log', devices) =>
      IsLog(env, log') && epoch !in s.logs && s' == Opened(s, epoch, log', devices)
    case Restore(epoch, log', devices) =>
      IsLog(env, log') && epoch in s.logs && s' == Opened(s, epoch, log', devices)
  }

  /** The hub on another file; its readers are what they were. */
  function Opened(s: State, epoch: Dec, log: Log, devices: Devices): State {
    s.(epoch := epoch, logs := s.logs[epoch := log], devices := devices, base := log, history := [])
  }

  datatype Run = Run(states: seq<State>, steps: seq<Step>)

  ghost predicate StepAt(env: Env, r: Run, i: nat)
    requires i < |r.steps| < |r.states|
  {
    r.states[i].epoch in r.states[i].logs && Next(env, r.states[i], r.steps[i], r.states[i + 1])
  }

  ghost predicate IsRun(env: Env, r: Run) {
    |r.states| == |r.steps| + 1 && Init(env, r.states[0]) && forall i :: 0 <= i < |r.steps| ==> StepAt(env, r, i)
  }

  // ----- What every reachable state satisfies -----

  /** These entries are the ones after `since` in the log, byte for byte. */
  predicate Excerpt(log: Log, since: nat, ops: seq<Wire.ChangeOp>) {
    |log| <= Decimal.MAX_INT64 && since + |ops| <= |log| && ops == Entries(log, since, |ops|)
  }

  ghost predicate SnapshotOk(logs: map<Dec, Log>, sn: Snapshot) {
    sn.epoch in logs && sn.log <= logs[sn.epoch]
  }

  ghost predicate PageOk(logs: map<Dec, Log>, p: Page) {
    && p.res.epoch in logs
    && (p.res.ops == [] || Excerpt(logs[p.res.epoch], p.since, p.res.ops))
    && p.res.headSeq <= |logs[p.res.epoch]|
  }

  /** A client holds exactly the first `cursor` entries of its epoch's log, and was never wedged. */
  ghost predicate ClientOk(logs: map<Dec, Log>, c: Client) {
    && !c.wedged
    && match c.epoch
       case None => c.cursor == 0 && c.received == []
       case Some(e) => e in logs && |c.received| == c.cursor && Excerpt(logs[e], 0, c.received)
  }

  /** An acked revision is in the log of the epoch, at the acked position. */
  ghost predicate AckOk(logs: map<Dec, Log>, a: AckRec) {
    a.epoch in logs && Find(logs[a.epoch], a.key) == Some(a.seqNo)
  }

  /** The logs themselves, whatever has become of their readers. */
  ghost predicate LogsOk(env: Env, s: State) {
    && s.epoch in s.logs
    && (forall e | e in s.logs :: IsLog(env, s.logs[e]))
    && Unique(s.base)
    && SameEntries(s.logs[s.epoch], PushLog(s.base, s.history, 0))
  }

  /** What was read of them. */
  ghost predicate ServedOk(s: State) {
    && (forall sn | sn in s.snapshots :: SnapshotOk(s.logs, sn))
    && (forall p | p in s.pages :: PageOk(s.logs, p))
  }

  /** A client that has not joined yet is in order. */
  ghost predicate OneClientOk(s: State, c: bytes) { c in s.clients ==> ClientOk(s.logs, s.clients[c]) }

  ghost predicate Inv(env: Env, s: State) {
    && LogsOk(env, s)
    && ServedOk(s)
    && (forall c | c in s.clients :: ClientOk(s.logs, s.clients[c]))
    && (forall a | a in s.acks :: AckOk(s.logs, a))
  }

  /** Every log there was is still there, possibly longer. */
  ghost predicate Grows(logs: map<Dec, Log>, logs': map<Dec, Log>) {
    forall e | e in logs :: e in logs' && logs[e] <= logs'[e] && Unique(logs'[e]) && |logs'[e]| <= Decimal.MAX_INT64
  }

  lemma ExcerptGrows(log: Log, log': Log, since: nat, ops: seq<Wire.ChangeOp>)
    requires Excerpt(log, since, ops) && log <= log' && |log'| <= Decimal.MAX_INT64
    ensures Excerpt(log', since, ops)
  {
    assert Entries(log', since, |ops|) == Entries(log, since, |ops|);
  }

  lemma ServedGrows(s: State, logs': map<Dec, Log>)
    requires ServedOk(s) && Grows(s.logs, logs')
    ensures forall sn | sn in s.snapshots :: SnapshotOk(logs', sn)
    ensures forall p | p in s.pages :: PageOk(logs', p)
  {
    forall p | p in s.pages ensures PageOk(logs', p) {
      assert PageOk(s.logs, p);
      if p.res.ops != [] { ExcerptGrows(s.logs[p.res.epoch], logs'[p.res.epoch], p.since, p.res.ops); }
    }
  }

  lemma ClientGrows(logs: map<Dec, Log>, logs': map<Dec, Log>, c: Client)
    requires ClientOk(logs, c) && Grows(logs, logs')
    ensures ClientOk(logs', c)
  {
    if c.epoch.Some? { ExcerptGrows(logs[c.epoch.value], logs'[c.epoch.value], 0, c.received); }
  }

  lemma AckGrows(logs: map<Dec, Log>, logs': map<Dec, Log>, a: AckRec)
    requires AckOk(logs, a) && Grows(logs, logs')
    ensures AckOk(logs', a)
  {
    FindStable(logs[a.epoch], logs'[a.epoch], a.key);
  }

  // ----- Putting another file in the place of an epoch's log -----

  /** From i up to j both logs exist and are the same. */
  predicate Agree(log: Log, file: Log, i: nat, j: nat) {
    i <= j <= |log| && j <= |file| && log[i..j] == file[i..j]
  }

  // What each reader relies on is the same in the file as in the log it replaces.

  predicate SnapshotAgrees(sn: Snapshot, log: Log, file: Log) { Agree(log, file, 0, |sn.log|) }

  predicate PageAgrees(p: Page, log: Log, file: Log) {
    p.res.headSeq <= |file| && (p.res.ops == [] || Agree(log, file, p.since, p.since + |p.res.ops|))
  }

  predicate ClientAgrees(c: Client, log: Log, file: Log) { Agree(log, file, 0, c.cursor) }

  predicate AckAgrees(a: AckRec, file: Log) { 1 <= a.seqNo <= |file| && RowKey(file[a.seqNo - 1]) == a.key }

  predicate ServedAgrees(s: State, e: Dec, file: Log)
    requires e in s.logs
  {
    && (forall sn | sn in s.snapshots && sn.epoch == e :: SnapshotAgrees(sn, s.logs[e], file))
    && (forall p | p in s.pages && p.res.epoch == e :: PageAgrees(p, s.logs[e], file))
  }

  predicate NothingDiffers(s: State, e: Dec, file: Log)
    requires e in s.logs
  {
    && ServedAgrees(s, e, file)
    && (forall c | c in s.clients && s.clients[c].epoch == Some(e) :: ClientAgrees(s.clients[c], s.logs[e], file))
    && (forall a | a in s.acks && a.epoch == e :: AckAgrees(a, file))
  }

  /** A file that is an older state of the log agrees with it exactly up to its own head. */
  lemma OlderAgrees(log: Log, older: Log, i: nat, j: nat)
    requires older <= log && i <= j
    ensures Agree(log, older, i, j) <==> j <= |older|
  {
  }

  /** An excerpt of one log is an excerpt of another exactly where their rows agree: bodies name their rows. */
  lemma ExcerptIff(env: Env, log: Log, file: Log, since: nat, ops: seq<Wire.ChangeOp>)
    requires IsLog(env, log) && IsLog(env, file) && Excerpt(log, since, ops)
    ensures Excerpt(file, since, ops) <==> Agree(log, file, since, since + |ops|)
  {
    var top := since + |ops|;
    if Agree(log, file, since, top) {
      forall i | 0 <= i < |ops| ensures Entries(file, since, |ops|)[i] == ops[i] {
        assert log[since + i] == log[since..top][i] == file[since..top][i] == file[since + i];
      }
    }
    if Excerpt(file, since, ops) {
      forall i | 0 <= i < |ops| ensures log[since..top][i] == file[since..top][i] {
        assert ops[i] == Entry(log, since + i) == Entry(file, since + i);
        SameEntryAt(env, log, file, since + i);
      }
    }
  }

  lemma SameEntryAt(env: Env, log: Log, file: Log, i: nat)
    requires IsLog(env, log) && IsLog(env, file) && i < |log| && i < |file| && Entry(log, i) == Entry(file, i)
    ensures log[i] == file[i]
  {
    assert log[i] in log && file[i] in file;
    SameEntrySameRow(env, log[i], file[i]);
  }

  lemma SnapshotIff(sn: Snapshot, log: Log, file: Log)
    requires sn.log <= log
    ensures sn.log <= file <==> SnapshotAgrees(sn, log, file)
  {
    assert sn.log == log[..|sn.log|];
    if |sn.log| <= |file| { assert file[0..|sn.log|] == file[..|sn.log|]; }
  }

  lemma AckIff(log: Log, file: Log, a: AckRec)
    requires Unique(file) && Find(log, a.key) == Some(a.seqNo)
    ensures Find(file, a.key) == Some(a.seqNo) <==> AckAgrees(a, file)
  {
    if AckAgrees(a, file) { FindAt(file, a.seqNo); }
  }

  lemma SnapshotAfterRestoreIff(env: Env, s: State, step: Step, s': State, sn: Snapshot)
    requires LogsOk(env, s) && step.Restore? && Next(env, s, step, s') && SnapshotOk(s.logs, sn)
    ensures SnapshotOk(s'.logs, sn) <==> (sn.epoch == step.epoch ==> SnapshotAgrees(sn, s.logs[step.epoch], step.log))
  {
    if sn.epoch == step.epoch { SnapshotIff(sn, s.logs[sn.epoch], step.log); }
  }

  lemma PageIff(env: Env, p: Page, log: Log, file: Log)
    requires IsLog(env, log) && IsLog(env, file) && (p.res.ops == [] || Excerpt(log, p.since, p.res.ops))
    ensures PageAgrees(p, log, file) <==>
            (p.res.ops == [] || Excerpt(file, p.since, p.res.ops)) && p.res.headSeq <= |file|
  {
    if p.res.ops != [] { ExcerptIff(env, log, file, p.since, p.res.ops); }
  }

  lemma PageAfterRestoreIff(env: Env, s: State, step: Step, s': State, p: Page)
    requires LogsOk(env, s) && step.Restore? && Next(env, s, step, s') && PageOk(s.logs, p)
    ensures PageOk(s'.logs, p) <==> (p.res.epoch == step.epoch ==> PageAgrees(p, s.logs[step.epoch], step.log))
  {
    if p.res.epoch == step.epoch { PageIff(env, p, s.logs[step.epoch], step.log); }
  }

  lemma ServedAfterRestoreIff(env: Env, s: State, step: Step, s': State)
    requires LogsOk(env, s) && ServedOk(s) && step.Restore? && Next(env, s, step, s')
    ensures ServedOk(s') <==> ServedAgrees(s, step.epoch, step.log)
  {
    forall sn | sn in s.snapshots
      ensures SnapshotOk(s'.logs, sn) <==> (sn.epoch == step.epoch ==> SnapshotAgrees(sn, s.logs[step.epoch], step.log))
    {
      SnapshotAfterRestoreIff(env, s, step, s', sn);
    }
    forall p | p in s.pages
      ensures PageOk(s'.logs, p) <==> (p.res.epoch == step.epoch ==> PageAgrees(p, s.logs[step.epoch], step.log))
    {
      PageAfterRestoreIff(env, s, step, s', p);
    }
  }

  lemma ClientAfterRestoreIff(env: Env, s: State, step: Step, s': State, c: Client)
    requires LogsOk(env, s) && step.Restore? && Next(env, s, step, s') && ClientOk(s.logs, c)
    ensures ClientOk(s'.logs, c) <==> (c.epoch == Some(step.epoch) ==> ClientAgrees(c, s.logs[step.epoch], step.log))
  {
    if c.epoch == Some(step.epoch) { ExcerptIff(env, s.logs[step.epoch], step.log, 0, c.received); }
  }

  lemma AckAfterRestoreIff(env: Env, s: State, step: Step, s': State, a: AckRec)
    requires LogsOk(env, s) && step.Restore? && Next(env, s, step, s') && AckOk(s.logs, a)
    ensures AckOk(s'.logs, a) <==> (a.epoch == step.epoch ==> AckAgrees(a, step.log))
  {
    if a.epoch == step.epoch { AckIff(s.logs[a.epoch], step.log, a); }
  }

  /**
   * Opening a file that agrees with itself rotates nothing, although docs/architecture.md counts on
   * an older one being detected. Whatever file it is, the invariant survives if and only if the file
   * has, row for row, everything that a snapshot, page, client or acknowledgement of the epoch relies
   * on; for an older one that is to say, nothing of the epoch lies above its head.
   */
  lemma RestoreIsSafeIff(env: Env, s: State, step: Step, s': State)
    requires Inv(env, s) && step.Restore? && Next(env, s, step, s')
    ensures Inv(env, s') <==> NothingDiffers(s, step.epoch, step.log)
  {
    var e := step.epoch;
    ServedAfterRestoreIff(env, s, step, s');
    forall c | c in s.clients
      ensures ClientOk(s'.logs, s'.clients[c]) <==>
              (s.clients[c].epoch == Some(e) ==> ClientAgrees(s.clients[c], s.logs[e], step.log))
    {
      ClientAfterRestoreIff(env, s, step, s', s.clients[c]);
    }
    forall a | a in s.acks ensures AckOk(s'.logs, a) <==> (a.epoch == e ==> AckAgrees(a, step.log)) {
      AckAfterRestoreIff(env, s, step, s', a);
    }
  }

  /** Nothing of the epoch lies above this head: no read, no client, no acknowledgement. */
  predicate NothingAbove(s: State, e: Dec, head: nat) {
    && (forall sn | sn in s.snapshots && sn.epoch == e :: |sn.log| <= head)
    && (forall p | p in s.pages && p.res.epoch == e ::
          p.res.headSeq <= head && (p.res.ops == [] || p.since + |p.res.ops| <= head))
    && (forall c | c in s.clients && s.clients[c].epoch == Some(e) :: s.clients[c].cursor <= head)
    && (forall a | a in s.acks && a.epoch == e :: a.seqNo <= head)
  }

  lemma OlderDiffersAboveItsHead(env: Env, s: State, e: Dec, older: Log)
    requires Inv(env, s) && e in s.logs && older <= s.logs[e]
    ensures NothingDiffers(s, e, older) <==> NothingAbove(s, e, |older|)
  {
    var log := s.logs[e];
    forall sn | sn in s.snapshots ensures SnapshotAgrees(sn, log, older) <==> |sn.log| <= |older| {
      OlderAgrees(log, older, 0, |sn.log|);
    }
    forall p | p in s.pages
      ensures PageAgrees(p, log, older) <==>
              p.res.headSeq <= |older| && (p.res.ops == [] || p.since + |p.res.ops| <= |older|)
    {
      OlderAgrees(log, older, p.since, p.since + |p.res.ops|);
    }
    forall c | c in s.clients ensures ClientAgrees(s.clients[c], log, older) <==> s.clients[c].cursor <= |older| {
      OlderAgrees(log, older, 0, s.clients[c].cursor);
    }
    forall a | a in s.acks && a.epoch == e ensures AckAgrees(a, older) <==> a.seqNo <= |older| {
      assert AckOk(s.logs, a);
    }
  }

  /** For an older file: the invariant survives if and only if nothing of the epoch lies above its head. */
  lemma OlderIsSafeIff(env: Env, s: State, step: Step, s': State)
    requires Inv(env, s) && step.Restore? && Next(env, s, step, s') && step.log <= s.logs[step.epoch]
    ensures Inv(env, s') <==> NothingAbove(s, step.epoch, |step.log|)
  {
    RestoreIsSafeIff(env, s, step, s');
    OlderDiffersAboveItsHead(env, s, step.epoch, step.log);
  }

  /** Opening one's own file as it was left is such a restore, and harmless. */
  lemma ReopeningIsHarmless(env: Env, s: State)
    requires Inv(env, s)
    ensures NothingDiffers(s, s.epoch, s.logs[s.epoch])
  {
    var e, log := s.epoch, s.logs[s.epoch];
    forall sn | sn in s.snapshots && sn.epoch == e ensures SnapshotAgrees(sn, log, log) {
      assert SnapshotOk(s.logs, sn);
      SnapshotIff(sn, log, log);
    }
    forall p | p in s.pages && p.res.epoch == e ensures PageAgrees(p, log, log) { assert PageOk(s.logs, p); }
    forall c | c in s.clients && s.clients[c].epoch == Some(e) ensures ClientAgrees(s.clients[c], log, log) {
      assert ClientOk(s.logs, s.clients[c]);
    }
    forall a | a in s.acks && a.epoch == e ensures AckAgrees(a, log) { assert AckOk(s.logs, a); }
  }

  // ----- What each other step keeps -----

  lemma StepGrows(env: Env, s: State, step: Step, s': State)
    requires LogsOk(env, s) && !step.Restore? && Next(env, s, step, s')
    ensures LogsOk(env, s') && Grows(s.logs, s'.logs)
  {
    if step.Push? {
      var log := s.logs[s.epoch];
      PushKeeps(log, step.ops, step.now);
      PushKeepsGenuine(env, log, step.ops, step.now);
      PushIgnoresTime(log, PushLog(s.base, s.history, 0), step.ops, step.now, 0);
      PushConcat(s.base, s.history, step.ops, 0);
    }
  }

  lemma RespondStep(env: Env, s: State, step: Step, s': State)
    requires LogsOk(env, s) && ServedOk(s) && step.Respond? && Next(env, s, step, s')
    ensures PageOk(s'.logs, step.page)
  {
    var sn, p := step.snapshot, step.page;
    assert SnapshotOk(s.logs, sn);
    if p.res.ops != [] {
      assert Excerpt(sn.log, p.since, p.res.ops);
      ExcerptGrows(sn.log, s.logs[sn.epoch], p.since, p.res.ops);
    }
  }

  lemma ServedStep(env: Env, s: State, step: Step, s': State)
    requires LogsOk(env, s) && ServedOk(s) && !step.Restore? && Next(env, s, step, s')
    ensures ServedOk(s')
  {
    StepGrows(env, s, step, s');
    ServedGrows(s, s'.logs);
    if step.Respond? { RespondStep(env, s, step, s'); }
  }

  /** The client's own check never fails, and what it holds stays a prefix of the log. */
  lemma ReceiveOk(logs: map<Dec, Log>, c: Client, p: Page)
    requires ClientOk(logs, c) && PageOk(logs, p) && p.since == c.cursor
    requires forall e | e in logs :: |logs[e]| <= Decimal.MAX_INT64
    ensures ClientOk(logs, Receive(c, p.res))
    ensures Contiguous(c.cursor, p.res.ops)
  {
    if c.epoch == Some(p.res.epoch) {
      var log, all := logs[p.res.epoch], c.received + p.res.ops;
      if p.res.ops == [] {
        assert all == c.received;
      } else {
        assert Entries(log, 0, |all|) == all;
      }
    } else {
      assert Entries(logs[p.res.epoch], 0, 0) == [];
    }
  }

  lemma ClientStep(env: Env, s: State, step: Step, s': State, c: bytes)
    requires LogsOk(env, s) && ServedOk(s) && OneClientOk(s, c) && !step.Restore? && Next(env, s, step, s')
    ensures OneClientOk(s', c)
  {
    StepGrows(env, s, step, s');
    if c in s.clients {
      if step.Deliver? && step.client == c {
        ReceiveOk(s.logs, s.clients[c], step.page);
      } else {
        ClientGrows(s.logs, s'.logs, s.clients[c]);
      }
    }
  }

  lemma AckStep(env: Env, s: State, step: Step, s': State, a: AckRec)
    requires LogsOk(env, s) && !step.Restore? && Next(env, s, step, s') && a in s'.acks
    requires a in s.acks ==> AckOk(s.logs, a)
    ensures AckOk(s'.logs, a)
  {
    StepGrows(env, s, step, s');
    if a in s.acks { AckGrows(s.logs, s'.logs, a); }
  }

  lemma NextKeepsInv(env: Env, s: State, step: Step, s': State)
    requires Inv(env, s) && !step.Restore? && Next(env, s, step, s')
    ensures Inv(env, s')
  {
    StepGrows(env, s, step, s');
    ServedStep(env, s, step, s');
    forall c | c in s'.clients ensures ClientOk(s'.logs, s'.clients[c]) { ClientStep(env, s, step, s', c); }
    forall a | a in s'.acks ensures AckOk(s'.logs, a) { AckStep(env, s, step, s', a); }
  }

  // ----- Over every run: the logs -----

  /** Whatever was restored, every log there is in any reachable state is a proper one. */
  lemma {:induction false} RunsKeepLogs(env: Env, r: Run, n: nat)
    requires IsRun(env, r) && n < |r.states|
    ensures LogsOk(env, r.states[n])
  {
    if n > 0 {
      RunsKeepLogs(env, r, n - 1);
      var s, step, s' := r.states[n - 1], r.steps[n - 1], r.states[n];
      assert StepAt(env, r, n - 1);
      if !step.Restore? { StepGrows(env, s, step, s'); }
    }
  }

  lemma StepIsNext(env: Env, r: Run, n: nat)
    requires IsRun(env, r) && n < |r.steps|
    ensures r.states[n].epoch in r.states[n].logs
    ensures Next(env, r.states[n], r.steps[n], r.states[n + 1])
  {
    assert StepAt(env, r, n);
  }

  lemma LogsAround(env: Env, r: Run, n: nat)
    requires IsRun(env, r) && n < |r.steps|
    ensures LogsOk(env, r.states[n]) && LogsOk(env, r.states[n + 1])
  {
    RunsKeepLogs(env, r, n);
    RunsKeepLogs(env, r, n + 1);
  }

  /** Every row of every log there was is genuine: its body has its digest and names its id and revision. */
  lemma RowsAreGenuine(env: Env, r: Run, n: nat, e: Dec, row: Row)
    requires IsRun(env, r) && n < |r.states| && e in r.states[n].logs && row in r.states[n].logs[e]
    ensures Unique(r.states[n].logs[e])
    ensures JsonString.Accepted(row.body) && env.digest(JsonString.Unquote(row.body).value) == row.digest
    ensures exists op, m ::
              BodySays(env, JsonString.Unquote(row.body).value, m, op) && op.id == row.id && op.kind == row.kind
              && op.entityRev == row.rev
  {
    RunsKeepLogs(env, r, n);
    GenuineRowMeans(env, row);
  }

  /**
   * The log of a run is the log of one push: of everything committed since the file was opened, in
   * the order it was committed. So the head is the number of distinct revisions there ever were.
   */
  lemma LogIsOnePush(env: Env, r: Run, n: nat)
    requires IsRun(env, r) && n < |r.states|
    ensures var s := r.states[n];
            && s.epoch in s.logs
            && SameEntries(s.logs[s.epoch], PushLog(s.base, s.history, 0))
            && |s.logs[s.epoch]| == |s.base| + |OpKeys(s.history) - LogKeys(s.base)|
  {
    RunsKeepLogs(env, r, n);
    HeadGrowth(r.states[n].base, r.states[n].history, 0);
  }

  /** A step keeps the log of an epoch as a prefix, unless it puts in a file that does not have it as one. */
  lemma StepOnlyGrowsIff(env: Env, s: State, step: Step, s': State, e: Dec)
    requires LogsOk(env, s) && Next(env, s, step, s') && e in s.logs
    ensures e in s'.logs
    ensures s.logs[e] <= s'.logs[e] <==> (step.Restore? && step.epoch == e ==> s.logs[e] <= step.log)
  {
    if !step.Restore? { StepGrows(env, s, step, s'); }
  }

  predicate Restores(step: Step, e: Dec) { step.Restore? && step.epoch == e }

  lemma LogGrowsAt(env: Env, r: Run, k: nat, e: Dec)
    requires IsRun(env, r) && k < |r.steps| && e in r.states[k].logs && !Restores(r.steps[k], e)
    ensures e in r.states[k + 1].logs && r.states[k].logs[e] <= r.states[k + 1].logs[e]
  {
    LogsAround(env, r, k);
    StepIsNext(env, r, k);
    StepOnlyGrowsIff(env, r.states[k], r.steps[k], r.states[k + 1], e);
  }

  lemma {:induction false} LogsOnlyGrow(env: Env, r: Run, i: nat, j: nat, e: Dec)
    requires IsRun(env, r) && i <= j < |r.states| && e in r.states[i].logs
    requires forall k :: i <= k < j ==> !Restores(r.steps[k], e)
    ensures e in r.states[j].logs && r.states[i].logs[e] <= r.states[j].logs[e]
  {
    if i < j {
      LogsOnlyGrow(env, r, i, j - 1, e);
      LogGrowsAt(env, r, j - 1, e);
      PrefixTransitive(r.states[i].logs[e], r.states[j - 1].logs[e], r.states[j].logs[e]);
    }
  }

  lemma PrefixTransitive<T>(a: seq<T>, b: seq<T>, c: seq<T>)
    requires a <= b && b <= c
    ensures a <= c
  {
  }

  // ----- Over every run: pages -----

  /** The page shows these entries of a log: what reading it from a snapshot of that log gives. */
  predicate ReadFrom(log: Log, p: Page) { p.res.ops == [] || Excerpt(log, p.since, p.res.ops) }

  /** The snapshot is the log of its epoch as it was when some step of the run began a read. */
  ghost predicate BegunAt(r: Run, b: nat, n: nat, sn: Snapshot)
    requires n <= |r.steps| < |r.states|
  {
    && b < n && r.steps[b].BeginRead? && sn.epoch == r.states[b].epoch && sn.epoch in r.states[b].logs
    && sn.log == r.states[b].logs[sn.epoch]
  }

  /** The page was read from such a snapshot. */
  ghost predicate ReadAt(r: Run, b: nat, n: nat, p: Page)
    requires n <= |r.steps| < |r.states|
  {
    && b < n && r.steps[b].BeginRead? && p.res.epoch == r.states[b].epoch && p.res.epoch in r.states[b].logs
    && ReadFrom(r.states[b].logs[p.res.epoch], p)
  }

  lemma {:induction false} SnapshotWasBegun(env: Env, r: Run, n: nat, sn: Snapshot) returns (b: nat)
    requires IsRun(env, r) && n < |r.states| && sn in r.states[n].snapshots
    ensures BegunAt(r, b, n, sn)
  {
    var s, step := r.states[n - 1], r.steps[n - 1];
    assert StepAt(env, r, n - 1);
    if sn in s.snapshots { b := SnapshotWasBegun(env, r, n - 1, sn); } else { b := n - 1; }
  }

  /** Every page there is was read at some earlier moment, whatever has happened to the log since. */
  lemma {:induction false} PageWasRead(env: Env, r: Run, n: nat, p: Page) returns (b: nat)
    requires IsRun(env, r) && n < |r.states| && p in r.states[n].pages
    ensures ReadAt(r, b, n, p)
  {
    var s, step := r.states[n - 1], r.steps[n - 1];
    assert StepAt(env, r, n - 1);
    if p in s.pages {
      b := PageWasRead(env, r, n - 1, p);
    } else {
      b := SnapshotWasBegun(env, r, n - 1, step.snapshot);
    }
  }

  // ----- Over every run: where rows come from -----

  /** The push of step k put the row at place q of the epoch's log: an op of its own, at its own time. */
  ghost predicate PushedAt(r: Run, k: nat, n: nat, e: Dec, q: nat, row: Row)
    requires n <= |r.steps| < |r.states|
  {
    && k < n && r.steps[k].Push? && r.states[k].epoch == e && e in r.states[k].logs && |r.states[k].logs[e]| <= q
    && exists op :: op in r.steps[k].ops && Records(row, op, r.steps[k].now)
  }

  /** The file opened by step k had the row at place q of the epoch's log. */
  ghost predicate BroughtAt(r: Run, k: nat, n: nat, e: Dec, q: nat, row: Row)
    requires n <= |r.steps| < |r.states|
  {
    && k < n && (r.steps[k].OpenFresh? || r.steps[k].Restore?) && r.steps[k].epoch == e
    && q < |r.steps[k].log| && r.steps[k].log[q] == row
  }

  lemma RowOfStep(env: Env, s: State, step: Step, s': State, e: Dec, q: nat)
    requires LogsOk(env, s) && Next(env, s, step, s') && e in s'.logs && q < |s'.logs[e]|
    ensures (e in s.logs && q < |s.logs[e]| && s.logs[e][q] == s'.logs[e][q])
            || (step.Push? && s.epoch == e && |s.logs[e]| <= q
                && exists op :: op in step.ops && Records(s'.logs[e][q], op, step.now))
            || ((step.OpenFresh? || step.Restore?) && step.epoch == e && step.log == s'.logs[e])
  {
    if step.Push? && s.epoch == e {
      PushKeeps(s.logs[e], step.ops, step.now);
      if |s.logs[e]| <= q {
        var j := NewRowsAreOps(s.logs[e], step.ops, step.now, q);
        assert step.ops[j] in step.ops;
      }
    }
  }

  lemma RowOfRun(env: Env, r: Run, k: nat, e: Dec, q: nat)
    requires IsRun(env, r) && k < |r.steps| && e in r.states[k + 1].logs && q < |r.states[k + 1].logs[e]|
    ensures (e in r.states[k].logs && q < |r.states[k].logs[e]|
             && r.states[k].logs[e][q] == r.states[k + 1].logs[e][q])
            || PushedAt(r, k, k + 1, e, q, r.states[k + 1].logs[e][q])
            || BroughtAt(r, k, k + 1, e, q, r.states[k + 1].logs[e][q])
  {
    LogsAround(env, r, k);
    StepIsNext(env, r, k);
    RowOfStep(env, r.states[k], r.steps[k], r.states[k + 1], e, q);
  }

  lemma NothingAtFirst(env: Env, r: Run, e: Dec)
    requires IsRun(env, r) && e in r.states[0].logs
    ensures r.states[0].logs[e] == []
  {
  }

  /**
   * Every row of every log was put where it is by a push, with the fields of one of its ops and the
   * time of that push, or came with a file that was opened.
   */
  lemma {:induction false} RowCameFrom(env: Env, r: Run, n: nat, e: Dec, q: nat) returns (k: nat)
    requires IsRun(env, r) && n < |r.states| && e in r.states[n].logs && q < |r.states[n].logs[e]|
    ensures PushedAt(r, k, n, e, q, r.states[n].logs[e][q]) || BroughtAt(r, k, n, e, q, r.states[n].logs[e][q])
  {
    if n == 0 { NothingAtFirst(env, r, e); }
    k := n - 1;
    RowOfRun(env, r, k, e, q);
    if !PushedAt(r, k, n, e, q, r.states[n].logs[e][q]) && !BroughtAt(r, k, n, e, q, r.states[n].logs[e][q]) {
      k := RowCameFrom(env, r, k, e, q);
    }
  }

  /**
   * So an entry of a page shows the time, the literal and the digest of the push that stored it, or
   * of a row of a file that was opened.
   */
  lemma PageShowsPushes(env: Env, r: Run, n: nat, p: Page, i: nat) returns (k: nat, row: Row)
    requires IsRun(env, r) && n < |r.states| && p in r.states[n].pages && i < |p.res.ops|
    ensures PushedAt(r, k, n, p.res.epoch, p.since + i, row) || BroughtAt(r, k, n, p.res.epoch, p.since + i, row)
    ensures p.res.ops[i].seqNo == p.since + i + 1 && p.res.ops[i].serverTs == row.serverTs
    ensures p.res.ops[i].literal == row.body && p.res.ops[i].digest == row.digest
  {
    var e := p.res.epoch;
    var b := PageWasRead(env, r, n, p);
    RunsKeepLogs(env, r, b);
    assert p.res.ops[i] == Entry(r.states[b].logs[e], p.since + i);
    row := r.states[b].logs[e][p.since + i];
    k := RowCameFrom(env, r, b, e, p.since + i);
  }

  lemma ReadIsNumbered(log: Log, p: Page)
    requires ReadFrom(log, p)
    ensures Contiguous(p.since, p.res.ops)
  {
    forall i | 0 <= i < |p.res.ops| ensures p.res.ops[i].seqNo == p.since + i + 1 {
      assert p.res.ops[i] == Entry(log, p.since + i);
    }
  }

  /**
   * In every run, whatever files are put back, a page that answers a client's present cursor passes
   * its contiguity check. The check never wedges a client; nor does it protect one.
   */
  lemma ContiguityNeverFails(env: Env, r: Run, n: nat)
    requires IsRun(env, r) && n < |r.steps| && r.steps[n].Deliver?
    ensures var s := r.states[n];
            r.steps[n].client in s.clients && Contiguous(s.clients[r.steps[n].client].cursor, r.steps[n].page.res.ops)
  {
    LogsAround(env, r, n);
    StepIsNext(env, r, n);
    var b := PageWasRead(env, r, n, r.steps[n].page);
    ReadIsNumbered(r.states[b].logs[r.steps[n].page.res.epoch], r.steps[n].page);
  }

  lemma {:induction false} NobodyIsWedged(env: Env, r: Run, n: nat, c: bytes)
    requires IsRun(env, r) && n < |r.states| && c in r.states[n].clients
    ensures !r.states[n].clients[c].wedged
  {
    if n > 0 {
      var s, step := r.states[n - 1], r.steps[n - 1];
      assert StepAt(env, r, n - 1);
      if c in s.clients {
        NobodyIsWedged(env, r, n - 1, c);
        if step.Deliver? { ContiguityNeverFails(env, r, n - 1); }
      }
    }
  }

  /** Every file put in the place of the epoch's log between two states has these rows of it. */
  ghost predicate Kept(r: Run, b: nat, n: nat, e: Dec, i: nat, j: nat)
    requires b <= n <= |r.steps| < |r.states|
  {
    forall k :: b <= k < n && Restores(r.steps[k], e) ==>
      e in r.states[k].logs && Agree(r.states[k].logs[e], r.steps[k].log, i, j)
  }

  lemma RowsStayAt(env: Env, r: Run, k: nat, e: Dec, i: nat, j: nat)
    requires IsRun(env, r) && k < |r.steps| && e in r.states[k].logs && i <= j <= |r.states[k].logs[e]|
    requires Restores(r.steps[k], e) ==> Agree(r.states[k].logs[e], r.steps[k].log, i, j)
    ensures e in r.states[k + 1].logs && Agree(r.states[k].logs[e], r.states[k + 1].logs[e], i, j)
  {
    LogsAround(env, r, k);
    StepIsNext(env, r, k);
    if !Restores(r.steps[k], e) {
      StepOnlyGrowsIff(env, r.states[k], r.steps[k], r.states[k + 1], e);
      PrefixAgrees(r.states[k].logs[e], r.states[k + 1].logs[e], i, j);
    }
  }

  lemma PrefixAgrees(log: Log, later: Log, i: nat, j: nat)
    requires log <= later && i <= j <= |log|
    ensures Agree(log, later, i, j)
  {
  }

  lemma {:induction false} RowsStay(env: Env, r: Run, b: nat, n: nat, e: Dec, i: nat, j: nat)
    requires IsRun(env, r) && b <= n < |r.states| && e in r.states[b].logs && i <= j <= |r.states[b].logs[e]|
    requires Kept(r, b, n, e, i, j)
    ensures e in r.states[n].logs && Agree(r.states[b].logs[e], r.states[n].logs[e], i, j)
  {
    if b < n {
      RowsStay(env, r, b, n - 1, e, i, j);
      RowsStayAt(env, r, n - 1, e, i, j);
    }
  }

  /** A page that no file has cut off since it was read is still an excerpt of the log. */
  lemma UncutPageIsRight(env: Env, r: Run, b: nat, n: nat, p: Page)
    requires IsRun(env, r) && n < |r.states| && ReadAt(r, b, n, p) && p.res.ops != []
    requires Kept(r, b, n, p.res.epoch, p.since, p.since + |p.res.ops|)
    ensures p.res.epoch in r.states[n].logs && Excerpt(r.states[n].logs[p.res.epoch], p.since, p.res.ops)
  {
    var e, top := p.res.epoch, p.since + |p.res.ops|;
    RunsKeepLogs(env, r, b);
    RunsKeepLogs(env, r, n);
    RowsStay(env, r, b, n, e, p.since, top);
    ExcerptIff(env, r.states[b].logs[e], r.states[n].logs[e], p.since, p.res.ops);
  }

  // ----- Over every run: clients -----

  /**
   * What a step has to do with this client and nobody else: a file put in the place of its epoch's
   * log has the rows it holds, and a page of its epoch that it is given is an excerpt of the log.
   */
  predicate Given(s: State, step: Step, c: bytes) {
    c in s.clients ==>
      match step
      case Restore(e, file, _) =>
        s.clients[c].epoch == Some(e) ==> e in s.logs && ClientAgrees(s.clients[c], s.logs[e], file)
      case Deliver(d, p) =>
        d == c && s.clients[c].epoch == Some(p.res.epoch) ==> p.res.epoch in s.logs && ReadFrom(s.logs[p.res.epoch], p)
      case _ => true
  }

  ghost predicate EpochsKnown(s: State) {
    && (forall sn | sn in s.snapshots :: sn.epoch in s.logs)
    && (forall p | p in s.pages :: p.res.epoch in s.logs)
  }

  lemma StepKeepsEpochs(env: Env, s: State, step: Step, s': State)
    requires LogsOk(env, s) && EpochsKnown(s) && Next(env, s, step, s')
    ensures EpochsKnown(s')
  {
  }

  lemma {:induction false} RunsKeepEpochs(env: Env, r: Run, n: nat)
    requires IsRun(env, r) && n < |r.states|
    ensures EpochsKnown(r.states[n])
  {
    if n > 0 {
      RunsKeepEpochs(env, r, n - 1);
      RunsKeepLogs(env, r, n - 1);
      StepIsNext(env, r, n - 1);
      StepKeepsEpochs(env, r.states[n - 1], r.steps[n - 1], r.states[n]);
    }
  }

  /** Applying a contiguous page keeps a client right exactly if the page is an excerpt of the log. */
  lemma ReceiveIff(env: Env, logs: map<Dec, Log>, c: Client, p: Page)
    requires ClientOk(logs, c) && p.since == c.cursor && p.res.epoch in logs && Contiguous(c.cursor, p.res.ops)
    requires |logs[p.res.epoch]| <= Decimal.MAX_INT64
    ensures ClientOk(logs, Receive(c, p.res)) <==> (c.epoch == Some(p.res.epoch) ==> ReadFrom(logs[p.res.epoch], p))
  {
    var log := logs[p.res.epoch];
    if c.epoch == Some(p.res.epoch) {
      ExcerptSplit(log, c.received, p.res.ops);
      if p.res.ops == [] { assert c.received + p.res.ops == c.received; }
    } else {
      assert Entries(log, 0, 0) == [];
    }
  }

  lemma ExcerptSplit(log: Log, a: seq<Wire.ChangeOp>, b: seq<Wire.ChangeOp>)
    ensures Excerpt(log, 0, a + b) <==> Excerpt(log, 0, a) && Excerpt(log, |a|, b)
  {
    if |log| <= Decimal.MAX_INT64 && |a| + |b| <= |log| {
      var all := Entries(log, 0, |a| + |b|);
      assert all[..|a|] == Entries(log, 0, |a|) && all[|a|..] == Entries(log, |a|, |b|);
      assert (a + b)[..|a|] == a && (a + b)[|a|..] == b;
      assert all == all[..|a|] + all[|a|..];
    }
  }

  lemma ClientStepIff(env: Env, s: State, step: Step, s': State, c: bytes)
    requires LogsOk(env, s) && EpochsKnown(s) && OneClientOk(s, c) && Next(env, s, step, s')
    requires step.Deliver? && step.client in s.clients ==> Contiguous(s.clients[step.client].cursor, step.page.res.ops)
    ensures OneClientOk(s', c) <==> Given(s, step, c)
  {
    if c in s.clients {
      if step.Restore? {
        ClientAfterRestoreIff(env, s, step, s', s.clients[c]);
      } else if step.Deliver? && step.client == c {
        ReceiveIff(env, s.logs, s.clients[c], step.page);
      } else {
        StepGrows(env, s, step, s');
        ClientGrows(s.logs, s'.logs, s.clients[c]);
      }
    }
  }

  ghost predicate ClientFine(r: Run, n: nat, c: bytes)
    requires n < |r.states|
  {
    forall k :: 0 <= k <= n ==> OneClientOk(r.states[k], c)
  }

  lemma ClientAt(env: Env, r: Run, k: nat, c: bytes)
    requires IsRun(env, r) && k < |r.steps| && OneClientOk(r.states[k], c)
    ensures OneClientOk(r.states[k + 1], c) <==> Given(r.states[k], r.steps[k], c)
  {
    LogsAround(env, r, k);
    StepIsNext(env, r, k);
    RunsKeepEpochs(env, r, k);
    if r.steps[k].Deliver? { ContiguityNeverFails(env, r, k); }
    ClientStepIff(env, r.states[k], r.steps[k], r.states[k + 1], c);
  }

  /**
   * Client by client, over whole runs: a client holds a prefix of its epoch's log throughout if and
   * only if no file without the rows it holds is ever put in that log's place, and no page it is
   * given was overtaken by one. What happens to other clients, or to anything not yet given to this
   * one, does not matter.
   */
  lemma {:induction false} ClientIsSafeIff(env: Env, r: Run, n: nat, c: bytes)
    requires IsRun(env, r) && n < |r.states|
    ensures ClientFine(r, n, c) <==> forall k :: 0 <= k < n ==> Given(r.states[k], r.steps[k], c)
  {
    if n > 0 {
      ClientIsSafeIff(env, r, n - 1, c);
      assert ClientFine(r, n, c) <==> ClientFine(r, n - 1, c) && OneClientOk(r.states[n], c);
      if ClientFine(r, n - 1, c) {
        assert OneClientOk(r.states[n - 1], c);
        ClientAt(env, r, n - 1, c);
      }
    }
  }

  /** A delivery is as `Given` wants it when no file has cut the page off between its read and now. */
  lemma UncutDeliveryIsGiven(env: Env, r: Run, b: nat, n: nat, c: bytes)
    requires IsRun(env, r) && n < |r.steps| && r.steps[n].Deliver? && ReadAt(r, b, n, r.steps[n].page)
    requires Kept(r, b, n, r.steps[n].page.res.epoch, r.steps[n].page.since,
                  r.steps[n].page.since + |r.steps[n].page.res.ops|)
    ensures Given(r.states[n], r.steps[n], c)
  {
    var p := r.steps[n].page;
    LogsAround(env, r, n);
    StepIsNext(env, r, n);
    RunsKeepEpochs(env, r, n);
    if p.res.ops != [] { UncutPageIsRight(env, r, b, n, p); }
  }

  /**
   * In every reachable state a client that was only given what it needs, and whose rows no file took
   * away, holds on the current epoch exactly the first `cursor` entries of the log, none missing,
   * reordered or rewritten.
   */
  lemma ClientsHoldPrefixes(env: Env, r: Run, n: nat, c: bytes)
    requires IsRun(env, r) && n < |r.states| && c in r.states[n].clients
    requires forall k :: 0 <= k < n ==> Given(r.states[k], r.steps[k], c)
    ensures var s, client := r.states[n], r.states[n].clients[c];
            && !client.wedged
            && s.epoch in s.logs
            && (client.epoch == Some(s.epoch) ==>
                  && client.cursor <= |s.logs[s.epoch]| <= Decimal.MAX_INT64
                  && client.received == Entries(s.logs[s.epoch], 0, client.cursor))
  {
    RunsKeepLogs(env, r, n);
    ClientIsSafeIff(env, r, n, c);
    assert OneClientOk(r.states[n], c);
  }

  ghost predicate ServedFine(r: Run, n: nat)
    requires n < |r.states|
  {
    forall k :: 0 <= k <= n ==> ServedOk(r.states[k])
  }

  predicate ServedHarmless(s: State, step: Step) {
    step.Restore? ==> step.epoch in s.logs && ServedAgrees(s, step.epoch, step.log)
  }

  lemma ServedAt(env: Env, r: Run, k: nat)
    requires IsRun(env, r) && k < |r.steps| && ServedOk(r.states[k])
    ensures ServedOk(r.states[k + 1]) <==> ServedHarmless(r.states[k], r.steps[k])
  {
    LogsAround(env, r, k);
    StepIsNext(env, r, k);
    if r.steps[k].Restore? {
      ServedAfterRestoreIff(env, r.states[k], r.steps[k], r.states[k + 1]);
    } else {
      ServedStep(env, r.states[k], r.steps[k], r.states[k + 1]);
    }
  }

  /** All that was ever read stays what the logs say if and only if every file put in their place has it. */
  lemma {:induction false} ServedIsSafeIff(env: Env, r: Run, n: nat)
    requires IsRun(env, r) && n < |r.states|
    ensures ServedFine(r, n) <==> forall k :: 0 <= k < n ==> ServedHarmless(r.states[k], r.steps[k])
  {
    if n > 0 {
      ServedIsSafeIff(env, r, n - 1);
      assert ServedFine(r, n) <==> ServedFine(r, n - 1) && ServedOk(r.states[n]);
      if ServedFine(r, n - 1) {
        assert ServedOk(r.states[n - 1]);
        ServedAt(env, r, n - 1);
      }
    }
  }

  /**
   * The literal a page shows for an entity revision is byte for byte the first one committed, unless
   * a file put in since has cut this very page off: no later push of the same revision, with whatever
   * body, ever shows.
   */
  lemma ServedLiteralIsTheFirst(env: Env, r: Run, b: nat, n: nat, p: Page, i: nat, j: nat)
    requires IsRun(env, r) && n < |r.states| && ReadAt(r, b, n, p) && p.res.epoch == r.states[n].epoch
    requires Kept(r, b, n, p.res.epoch, p.since, p.since + |p.res.ops|)
    requires i < |p.res.ops| && j < |r.states[n].history|
    requires FirstOf(r.states[n].history, j)
    requires Find(r.states[n].base, OpKey(r.states[n].history[j])).None?
    requires p.res.epoch in r.states[n].logs
    requires Find(r.states[n].logs[p.res.epoch], OpKey(r.states[n].history[j])) == Some(p.res.ops[i].seqNo)
    ensures p.res.ops[i].literal == r.states[n].history[j].literal
    ensures p.res.ops[i].digest == r.states[n].history[j].digest
  {
    RunsKeepLogs(env, r, n);
    UncutPageIsRight(env, r, b, n, p);
    ServedIsFirst(env, r.states[n], p, i, j);
  }

  lemma ServedIsFirst(env: Env, s: State, p: Page, i: nat, j: nat)
    requires LogsOk(env, s) && p.res.epoch == s.epoch && Excerpt(s.logs[s.epoch], p.since, p.res.ops)
    requires i < |p.res.ops| && j < |s.history|
    requires FirstOf(s.history, j)
    requires Find(s.base, OpKey(s.history[j])).None?
    requires Find(s.logs[s.epoch], OpKey(s.history[j])) == Some(p.res.ops[i].seqNo)
    ensures p.res.ops[i].literal == s.history[j].literal && p.res.ops[i].digest == s.history[j].digest
  {
    StoredIsFirst(s.logs[s.epoch], s.base, s.history, j, p.res.ops[i].seqNo);
    ExcerptEntry(s.logs[s.epoch], p.since, p.res.ops, i);
  }

  lemma ExcerptEntry(log: Log, since: nat, ops: seq<Wire.ChangeOp>, i: nat)
    requires Excerpt(log, since, ops) && i < |ops|
    ensures 1 <= ops[i].seqNo <= |log|
    ensures ops[i].literal == log[ops[i].seqNo - 1].body && ops[i].digest == log[ops[i].seqNo - 1].digest
  {
    assert ops[i] == Entry(log, since + i);
  }

  /** The row under a revision's number is the first op of the history that carries it. */
  lemma StoredIsFirst(log: Log, base: Log, history: seq<Op>, j: nat, n: nat)
    requires Unique(base) && SameEntries(log, PushLog(base, history, 0))
    requires j < |history| && FirstOf(history, j)
    requires Find(base, OpKey(history[j])).None? && Find(log, OpKey(history[j])) == Some(n)
    ensures log[n - 1].body == history[j].literal && log[n - 1].digest == history[j].digest
  {
    FirstWriteWins(base, history, 0, j);
    SameRow(log, PushLog(base, history, 0), OpKey(history[j]), n, RowOf(history[j], 0));
  }

  lemma SameRow(log: Log, one: Log, k: RevKey, n: nat, row: Row)
    requires SameEntries(log, one) && Find(log, k) == Some(n) && StoredAs(one, k, row)
    ensures log[n - 1].body == row.body && log[n - 1].digest == row.digest
  {
    FindIgnoresTime(log, one, k);
    assert log[n - 1].(serverTs := 0) == one[n - 1].(serverTs := 0);
  }

  // ----- Over every run: acknowledgements -----

  ghost predicate AckFine(r: Run, i: nat, j: nat, a: AckRec)
    requires j < |r.states|
  {
    forall k :: i <= k <= j ==> AckOk(r.states[k].logs, a)
  }

  predicate AckHarmless(step: Step, a: AckRec) { Restores(step, a.epoch) ==> AckAgrees(a, step.log) }

  lemma AckStepIff(env: Env, s: State, step: Step, s': State, a: AckRec)
    requires LogsOk(env, s) && Next(env, s, step, s') && AckOk(s.logs, a)
    ensures AckOk(s'.logs, a) <==> AckHarmless(step, a)
  {
    if step.Restore? {
      AckAfterRestoreIff(env, s, step, s', a);
    } else {
      StepGrows(env, s, step, s');
      AckGrows(s.logs, s'.logs, a);
    }
  }

  lemma AckAt(env: Env, r: Run, k: nat, a: AckRec)
    requires IsRun(env, r) && k < |r.steps| && AckOk(r.states[k].logs, a)
    ensures AckOk(r.states[k + 1].logs, a) <==> AckHarmless(r.steps[k], a)
  {
    LogsAround(env, r, k);
    StepIsNext(env, r, k);
    AckStepIff(env, r.states[k], r.steps[k], r.states[k + 1], a);
  }

  lemma {:induction false} AckStaysIff(env: Env, r: Run, i: nat, j: nat, a: AckRec)
    requires IsRun(env, r) && i <= j < |r.states| && AckOk(r.states[i].logs, a)
    ensures AckFine(r, i, j, a) <==> forall k :: i <= k < j ==> AckHarmless(r.steps[k], a)
  {
    if i < j {
      AckStaysIff(env, r, i, j - 1, a);
      assert AckFine(r, i, j, a) <==> AckFine(r, i, j - 1, a) && AckOk(r.states[j].logs, a);
      if AckFine(r, i, j - 1, a) {
        assert AckOk(r.states[j - 1].logs, a);
        AckAt(env, r, j - 1, a);
      }
    }
  }

  lemma PushAcks(env: Env, r: Run, i: nat, op: Op)
    requires IsRun(env, r) && i < |r.steps| && r.steps[i].Push? && op in r.steps[i].ops
    ensures var e, s' := r.states[i].epoch, r.states[i + 1];
            && e in s'.logs && Find(s'.logs[e], OpKey(op)).Some?
            && AckRec(OpKey(op), SeqOf(s'.logs[e], op), e) in s'.acks
  {
    LogsAround(env, r, i);
    StepIsNext(env, r, i);
    PushRecordsAcks(env, r.states[i], r.steps[i], r.states[i + 1], op);
  }

  lemma PushRecordsAcks(env: Env, s: State, step: Step, s': State, op: Op)
    requires LogsOk(env, s) && step.Push? && Next(env, s, step, s') && op in step.ops
    ensures s.epoch in s'.logs && Find(s'.logs[s.epoch], OpKey(op)).Some?
    ensures AckRec(OpKey(op), SeqOf(s'.logs[s.epoch], op), s.epoch) in s'.acks
  {
    assert AckRec(OpKey(op), SeqOf(s'.logs[s.epoch], op), s.epoch) in AckRecs(s'.logs[s.epoch], step.ops, s.epoch);
  }

  /**
   * An op a push acked, and its client stamped as synced, stays in the log at the acked position
   * throughout if and only if every file put in the place of the epoch's log has it there.
   */
  lemma AckedOpsStayIff(env: Env, r: Run, i: nat, j: nat, op: Op)
    requires IsRun(env, r) && i < j < |r.states| && r.steps[i].Push? && op in r.steps[i].ops
    ensures r.states[i].epoch in r.states[i + 1].logs && Find(r.states[i + 1].logs[r.states[i].epoch], OpKey(op)).Some?
    ensures var e, n := r.states[i].epoch, SeqOf(r.states[i + 1].logs[r.states[i].epoch], op);
            (forall k :: i < k <= j ==> e in r.states[k].logs && Find(r.states[k].logs[e], OpKey(op)) == Some(n))
            <==> forall k :: i < k < j && Restores(r.steps[k], e) ==> AckAgrees(AckRec(OpKey(op), n, e), r.steps[k].log)
  {
    PushAcks(env, r, i, op);
    var e := r.states[i].epoch;
    var a := AckRec(OpKey(op), SeqOf(r.states[i + 1].logs[e], op), e);
    AckStaysIff(env, r, i + 1, j, a);
    assert AckFine(r, i + 1, j, a) <==>
           forall k :: i < k <= j ==> e in r.states[k].logs && Find(r.states[k].logs[e], OpKey(op)) == Some(a.seqNo);
    assert (forall k :: i + 1 <= k < j ==> AckHarmless(r.steps[k], a)) <==>
           forall k :: i < k < j && Restores(r.steps[k], e) ==> AckAgrees(a, r.steps[k].log);
  }

  /** Every file put in between two states has the ops of this push where they were acked. */
  ghost predicate PushKept(r: Run, i: nat, j: nat)
    requires i < j < |r.states| == |r.steps| + 1 && r.steps[i].Push? && r.states[i].epoch in r.states[i + 1].logs
    requires Oplog.Holds(r.states[i + 1].logs[r.states[i].epoch], r.steps[i].ops)
  {
    forall k, op | i < k < j && Restores(r.steps[k], r.states[i].epoch) && op in r.steps[i].ops ::
      var e := r.states[i].epoch;
      AckAgrees(AckRec(OpKey(op), SeqOf(r.states[i + 1].logs[e], op), e), r.steps[k].log)
  }

  /**
   * At-least-once delivery is safe: a push repeated at any later time in the same epoch, however
   * often and in whatever order, changes no entry, consumes no number, and is answered with the
   * numbers it was answered with at first.
   */
  lemma RepeatedPushIsFree(env: Env, r: Run, i: nat, j: nat, now: Millis)
    requires IsRun(env, r) && i < j < |r.states| && r.steps[i].Push? && r.states[i].epoch == r.states[j].epoch
    requires r.states[i].epoch in r.states[i + 1].logs
    requires Oplog.Holds(r.states[i + 1].logs[r.states[i].epoch], r.steps[i].ops) && PushKept(r, i, j)
    ensures var e, ops := r.states[i].epoch, r.steps[i].ops;
            && e in r.states[j].logs
            && PushLog(r.states[j].logs[e], ops, now) == r.states[j].logs[e]
            && Oplog.Holds(r.states[j].logs[e], ops)
            && AckSeqs(r.states[j].logs[e], ops) == AckSeqs(r.states[i + 1].logs[e], ops)
  {
    var e, ops := r.states[i].epoch, r.steps[i].ops;
    RunsKeepLogs(env, r, j);
    forall op | op in ops ensures Find(r.states[j].logs[e], OpKey(op)) == Find(r.states[i + 1].logs[e], OpKey(op)) {
      AckedOpsStayIff(env, r, i, j, op);
    }
    SameSeqs(r.states[i + 1].logs[e], r.states[j].logs[e], ops);
    PushHeld(r.states[j].logs[e], ops, now);
  }

  lemma SameSeqs(log: Log, later: Log, ops: seq<Op>)
    requires Oplog.Holds(log, ops) && forall op | op in ops :: Find(later, OpKey(op)) == Find(log, OpKey(op))
    ensures Oplog.Holds(later, ops) && AckSeqs(later, ops) == AckSeqs(log, ops)
  {
    forall i | 0 <= i < |ops| ensures AckSeqs(later, ops)[i] == AckSeqs(log, ops)[i] { assert ops[i] in ops; }
  }

  // ----- Over every run: all of it -----

  predicate Harmless(s: State, step: Step) {
    step.Restore? ==> step.epoch in s.logs && NothingDiffers(s, step.epoch, step.log)
  }

  ghost predicate Fine(env: Env, r: Run, n: nat)
    requires n < |r.states|
  {
    forall k :: 0 <= k <= n ==> Inv(env, r.states[k])
  }

  lemma InvAt(env: Env, r: Run, k: nat)
    requires IsRun(env, r) && k < |r.steps| && Inv(env, r.states[k])
    ensures Inv(env, r.states[k + 1]) <==> Harmless(r.states[k], r.steps[k])
  {
    LogsAround(env, r, k);
    StepIsNext(env, r, k);
    if r.steps[k].Restore? {
      RestoreIsSafeIff(env, r.states[k], r.steps[k], r.states[k + 1]);
    } else {
      NextKeepsInv(env, r.states[k], r.steps[k], r.states[k + 1]);
    }
  }

  /**
   * The invariant holds throughout a run, whatever is pushed, lost, repeated, delayed, read, revoked
   * or reopened in it, if and only if every file put in the place of an epoch's log has all that
   * anybody of the epoch relies on.
   */
  lemma {:induction false} RunIsSafeIff(env: Env, r: Run, n: nat)
    requires IsRun(env, r) && n < |r.states|
    ensures Fine(env, r, n) <==> forall k :: 0 <= k < n ==> Harmless(r.states[k], r.steps[k])
  {
    if n > 0 {
      RunIsSafeIff(env, r, n - 1);
      assert Fine(env, r, n) <==> Fine(env, r, n - 1) && Inv(env, r.states[n]);
      if Fine(env, r, n - 1) {
        assert Inv(env, r.states[n - 1]);
        InvAt(env, r, n - 1);
      }
    } else {
      InitInv(env, r.states[0]);
    }
  }

  lemma InitInv(env: Env, s: State)
    requires Init(env, s)
    ensures Inv(env, s)
  {
  }

  // ----- Over every run: revocation -----

  /** The step opens a file with this device table. */
  function OpenedDevices(step: Step): Option<Devices> {
    match step
    case OpenFresh(_, _, devices) => Some(devices)
    case Restore(_, _, devices) => Some(devices)
    case _ => None
  }

  predicate StillRevoked(step: Step, id: bytes) { OpenedDevices(step).Some? ==> Revoked(OpenedDevices(step).value, id) }

  lemma RevocationStepIff(env: Env, s: State, step: Step, s': State, id: bytes)
    requires s.epoch in s.logs && Next(env, s, step, s') && Revoked(s.devices, id)
    ensures Revoked(s'.devices, id) <==> StillRevoked(step, id)
    ensures step.Push? ==> step.deviceId != id
  {
    match step
    case Push(_, d, name, now) => UpsertKeepsRevocations(s.devices, d, name, now, id);
    case Seen(d, name, now) => UpsertKeepsRevocations(s.devices, d, name, now, id);
    case _ =>
  }

  lemma RevocationAt(env: Env, r: Run, k: nat, id: bytes)
    requires IsRun(env, r) && k < |r.steps| && Revoked(r.states[k].devices, id)
    ensures Revoked(r.states[k + 1].devices, id) <==> StillRevoked(r.steps[k], id)
    ensures r.steps[k].Push? ==> r.steps[k].deviceId != id
  {
    StepIsNext(env, r, k);
    RevocationStepIff(env, r.states[k], r.steps[k], r.states[k + 1], id);
  }

  ghost predicate RevokedThroughout(r: Run, i: nat, j: nat, id: bytes)
    requires j < |r.states|
  {
    forall k :: i <= k <= j ==> Revoked(r.states[k].devices, id)
  }

  /** A revoked device stays revoked if and only if every file opened in between still has it revoked. */
  lemma {:induction false} RevocationIsForGoodIff(env: Env, r: Run, i: nat, j: nat, id: bytes)
    requires IsRun(env, r) && i <= j < |r.states| && Revoked(r.states[i].devices, id)
    ensures RevokedThroughout(r, i, j, id) <==> forall k :: i <= k < j ==> StillRevoked(r.steps[k], id)
  {
    if i < j {
      RevocationIsForGoodIff(env, r, i, j - 1, id);
      assert RevokedThroughout(r, i, j, id) <==>
             RevokedThroughout(r, i, j - 1, id) && Revoked(r.states[j].devices, id);
      if RevokedThroughout(r, i, j - 1, id) { RevocationAt(env, r, j - 1, id); }
    }
  }

  /** While it is revoked nothing it sends is stored. */
  lemma RevokedNeverPushes(env: Env, r: Run, i: nat, j: nat, id: bytes)
    requires IsRun(env, r) && i <= j < |r.steps| && Revoked(r.states[i].devices, id)
    requires forall k :: i <= k < j ==> StillRevoked(r.steps[k], id)
    ensures r.steps[j].Push? ==> r.steps[j].deviceId != id
  {
    RevocationIsForGoodIff(env, r, i, j, id);
    RevocationAt(env, r, j, id);
  }

  // ----- What a restore does to those it harms -----

  /** While the log has not outgrown its cursor a client sees only empty pages that claim there is no more. */
  lemma StrandedSilently(log: Log, c: Client, limit: int, maxBytes: int, epoch: Dec, res: Wire.ChangesResult)
    requires c.epoch == Some(epoch) && |log| < c.cursor <= Decimal.MAX_INT64
    requires PageOf(log, c.cursor, limit, maxBytes, epoch, res)
    ensures res.ops == [] && !res.more && Contiguous(c.cursor, res.ops)
    ensures Receive(c, res) == c
  {
    assert c.received + res.ops == c.received;
  }

  /**
   * Once it has, the client is given entries, its check passes, its cursor moves on, and from then
   * on it holds another history, unless the log happens to repeat the very rows it lost.
   */
  lemma DivergesSilently(log: Log, c: Client, limit: int, maxBytes: int, epoch: Dec, res: Wire.ChangesResult)
    requires c.epoch == Some(epoch) && !c.wedged && |c.received| == c.cursor < |log| <= Decimal.MAX_INT64
    requires PageOf(log, c.cursor, limit, maxBytes, epoch, res)
    ensures res.ops != [] && Contiguous(c.cursor, res.ops)
    ensures !Receive(c, res).wedged && Receive(c, res).cursor > c.cursor
    ensures ClientOk(map[epoch := log], Receive(c, res)) <==> c.received == Entries(log, 0, c.cursor)
  {
    PageIsMaximal(log, c.cursor, |res.ops|, 0, Limit(limit), Cap(maxBytes));
    var all := c.received + res.ops;
    var entries := Entries(log, 0, |all|);
    assert entries[..c.cursor] == Entries(log, 0, c.cursor);
    assert entries[c.cursor..] == res.ops;
    assert all[..c.cursor] == c.received;
    if c.received == Entries(log, 0, c.cursor) { assert all == entries; }
  }

  /** An acknowledged op above the restored head is gone, though its client will not send it again. */
  lemma AckedOpIsLost(env: Env, s: State, step: Step, s': State, a: AckRec)
    requires Inv(env, s) && step.Restore? && Next(env, s, step, s') && a in s.acks
    requires a.epoch == step.epoch && step.log <= s.logs[a.epoch] && a.seqNo > |step.log|
    ensures a in s'.acks && Find(s'.logs[a.epoch], a.key).None?
  {
    assert AckOk(s.logs, a);
    NotInOlder(s.logs[a.epoch], step.log, a.key, a.seqNo);
  }

  lemma NotInOlder(log: Log, older: Log, k: RevKey, n: nat)
    requires Unique(log) && older <= log && Find(log, k) == Some(n) && n > |older|
    ensures Find(older, k).None?
  {
  }

  /** One pushed row, one client that pulled it, and the empty file from before put back. */
  lemma RestoreCounterexample(row: Row, epoch: Dec)
    ensures var client := Client(1, Some(epoch), [Wire.ChangeOp(1, row.serverTs, row.body, row.digest)], false);
            && ClientOk(map[epoch := [row]], client)
            && !ClientOk(map[epoch := []], client)
  {
    assert Entries([row], 0, 1) == [Entry([row], 0)];
  }

  /**
   * A client that had not pulled yet, so is not above the empty file, and a page already on its way:
   * delivered after the restore, the page gives it a row the hub no longer has.
   */
  lemma InFlightCounterexample(row: Row, epoch: Dec)
    ensures var entry := Wire.ChangeOp(1, row.serverTs, row.body, row.digest);
            var client := Client(0, Some(epoch), [], false);
            var page := Page(0, Wire.ChangesResult([entry], false, 1, epoch));
            && ClientOk(map[epoch := []], client)
            && PageOk(map[epoch := [row]], page) && !PageOk(map[epoch := []], page)
            && !ClientOk(map[epoch := []], Receive(client, page.res))
  {
    assert Entries([row], 0, 1) == [Entry([row], 0)];
    assert Entries([], 0, 0) == [];
  }
}
