/** The store's methods take the steps of the protocol, and no others. */
module Refinement {
  import opened Bytes
  import Decimal
  import Unicode
  import opened Wrapper
  import opened Oplog
  import opened Store
  import opened Hub
  import opened Protocol
  import Reading
  import Wire

  /** The open store is the hub of this state. */
  ghost predicate View(st: Store, s: State)
    reads st
  {
    st.Valid() && st.epoch == s.epoch && s.epoch in s.logs && st.Contents() == s.logs[s.epoch]
      && st.devices == s.devices
  }

  /** Every push is a Push step when it is answered, and a FailedPush step otherwise. */
  method PushTakesAStep(st: Store, ghost env: Env, ghost s: State, ops: seq<Op>, deviceId: bytes, deviceName: bytes,
                        now: Millis, fails: bool)
    returns (r: Result<Wire.PushResult, Error>, ghost s': State)
    requires View(st, s) && forall op | op in ops :: Genuine(env, op)
    modifies st`ops, st`meta, st`devices
    ensures View(st, s')
    ensures Next(env, s, if r.Ok? then Push(ops, deviceId, deviceName, now) else FailedPush, s')
    ensures r.Ok? ==> forall a | a in r.value.acks :: AckRec((a.id, a.entityRev), a.seqNo, s.epoch) in s'.acks
  {
    r := st.Push(ops, deviceId, deviceName, now, fails);
    s' := s;
    if r.Ok? {
      s' := Committed(s, st.Contents(), ops, st.devices);
      AcksRecorded(st.Contents(), ops, s.epoch);
    }
  }

  /** The state after a push that left this log. */
  ghost function Committed(s: State, log: Log, ops: seq<Op>, devices: Devices): State
    requires Oplog.Holds(log, ops)
  {
    s.(logs := s.logs[s.epoch := log], devices := devices, acks := s.acks + AckRecs(log, ops, s.epoch),
       history := s.history + ops)
  }

  lemma AcksRecorded(log: Log, ops: seq<Op>, epoch: Dec)
    requires Oplog.Holds(log, ops) && |log| <= Decimal.MAX_INT64
    ensures forall a | a in Acks(log, ops) :: AckRec((a.id, a.entityRev), a.seqNo, epoch) in AckRecs(log, ops, epoch)
  {
    forall a | a in Acks(log, ops) ensures AckRec((a.id, a.entityRev), a.seqNo, epoch) in AckRecs(log, ops, epoch) {
      var i :| 0 <= i < |ops| && Acks(log, ops)[i] == a;
      assert ops[i] in ops;
    }
  }

  /** Every page answered is read from a snapshot and put on the network. */
  method ChangesTakesSteps(st: Store, ghost env: Env, ghost s: State, since: Dec, limit: int, maxBytes: int)
    returns (r: Result<Wire.ChangesResult, Error>, ghost s1: State, ghost s2: State)
    requires View(st, s)
    ensures r.Ok? ==> Next(env, s, BeginRead, s1)
    ensures s1.epoch in s1.logs
    ensures r.Ok? ==>
              Next(env, s1, Respond(Snapshot(s.logs[s.epoch], s.epoch), limit, maxBytes, Page(since, r.value)), s2)
    ensures r.Ok? ==> View(st, s2) && Page(since, r.value) in s2.pages
  {
    r := st.Changes(since, limit, maxBytes);
    s1, s2 := s, s;
    if r.Ok? {
      s1 := s.(snapshots := s.snapshots + {Snapshot(s.logs[s.epoch], s.epoch)});
      s2 := s1.(pages := s1.pages + {Page(since, r.value)});
    }
  }

  /** Revoking is a Revoke step when there was something to revoke. */
  method RevokeTakesAStep(st: Store, ghost env: Env, ghost s: State, deviceId: bytes, now: Millis)
    returns (r: Result<(), Error>, ghost s': State)
    requires View(st, s)
    modifies st`devices
    ensures View(st, s')
    ensures r.Ok? ==> Next(env, s, Revoke(deviceId, now), s')
    ensures r.Err? ==> s' == s
  {
    r := st.RevokeDevice(deviceId, now);
    s' := s.(devices := st.devices);
  }

  method SeenTakesAStep(st: Store, ghost env: Env, ghost s: State, deviceId: bytes, deviceName: bytes, now: Millis)
    returns (ghost s': State)
    requires View(st, s)
    modifies st`devices
    ensures View(st, s') && Next(env, s, Seen(deviceId, deviceName, now), s')
  {
    st.SeenDevice(deviceId, deviceName, now);
    s' := s.(devices := st.devices);
  }

  /**
   * Opening any file, with or without a meta row and with whatever device table, if it opens at all:
   * the epoch it ends up in is one there has not been, and that is an OpenFresh step, or else it
   * agrees with itself and says so, and that is a Restore step. One's own file as it was left is the
   * second, and `ReopeningIsHarmless`.
   */
  method OpenTakesAStep(st: Store, ghost env: Env, ghost s: State, random: nat, random': nat)
    returns (r: Result<(), Error>, ghost s': State)
    requires st.Database() && GenuineLog(env, st.Contents()) && s.epoch in s.logs
    requires random <= Decimal.MAX_INT64 && RandomEpoch(random) !in s.logs
    requires random' <= Decimal.MAX_INT64 && RandomEpoch(random') !in s.logs
    modifies st`meta, st`epoch
    ensures r.Ok? ==> View(st, s')
    ensures r.Ok? ==>
              Next(env, s, if st.epoch in s.logs then Restore(st.epoch, st.Contents(), st.devices)
                           else OpenFresh(st.epoch, st.Contents(), st.devices), s')
    ensures r.Ok? && st.epoch in s.logs ==>
              old(st.meta) == Some(Meta(Decimal.Print(st.epoch), |st.Contents()|))
  {
    r := st.Open(random, random');
    s' := Opened(s, st.epoch, st.Contents(), st.devices);
  }

  // ----- From bytes to steps -----

  /**
   * A pull as a client makes it: it asks from its cursor, reads the bytes of the response and applies
   * what it read. That is three steps of the protocol, so what holds over runs holds of clients that
   * see nothing but bytes.
   */
  method PullTakesSteps(st: Store, ghost env: Env, graphic: Unicode.rune -> bool, ghost s: State, c: bytes, cursor: Dec,
                        limit: LimitParam, maxBytes: int)
    returns (resp: Response, ghost s1: State, ghost s2: State, ghost s3: State)
    requires View(st, s) && GenuineLog(env, st.Contents())
    requires c in s.clients && s.clients[c].cursor == cursor <= Decimal.MAX_INT64 && !limit.NotANumber?
    ensures resp.Answered? && Reading.ReadChanges(resp.body).Some?
    ensures s1.epoch in s1.logs && s2.epoch in s2.logs
    ensures var page := Page(cursor, Reading.ReadChanges(resp.body).value);
            && Next(env, s, BeginRead, s1)
            && Next(env, s1, Respond(Snapshot(s.logs[s.epoch], s.epoch), ClampedLimit(limit), maxBytes, page), s2)
            && Next(env, s2, Deliver(c, page), s3)
            && c in s3.clients && s3.clients[c] == Receive(s.clients[c], page.res)
    ensures View(st, s3) && (Inv(env, s) ==> Inv(env, s3))
  {
    Decimal.ParsePrintInverse(Decimal.Print(cursor), cursor);
    resp := HandleChanges(st, env, graphic, Decimal.Print(cursor), limit, maxBytes);
    ghost var page := Page(cursor, Reading.ReadChanges(resp.body).value);
    s1 := s.(snapshots := s.snapshots + {Snapshot(s.logs[s.epoch], s.epoch)});
    s2 := s1.(pages := s1.pages + {page});
    s3 := s2.(clients := s2.clients[c := Receive(s2.clients[c], page.res)]);
    if Inv(env, s) {
      NextKeepsInv(env, s, BeginRead, s1);
      NextKeepsInv(env, s1, Respond(Snapshot(s.logs[s.epoch], s.epoch), ClampedLimit(limit), maxBytes, page), s2);
      NextKeepsInv(env, s2, Deliver(c, page), s3);
    }
  }

  /** A push request that is answered is a Push step of the ops its wrappers carry; one that is not is none. */
  method PushRequestTakesAStep(st: Store, env: Env, graphic: Unicode.rune -> bool, ghost s: State,
                               request: Option<PushRequest>, deviceId: bytes, deviceName: bytes, now: Millis,
                                 fails: bool)
    returns (resp: Response, ghost ops: seq<Op>, ghost s': State)
    requires View(st, s) && GenuineLog(env, st.Contents())
    modifies st`ops, st`meta, st`devices
    ensures View(st, s') && GenuineLog(env, st.Contents())
    ensures Next(env, s, if resp.Answered? then Push(ops, deviceId, deviceName, now) else FailedPush, s')
    ensures resp.Answered? ==> Acknowledges(graphic, resp.body, s'.logs[s'.epoch], ops)
  {
    resp, ops := HandlePush(st, env, graphic, request, deviceId, deviceName, now, fails);
    s' := s;
    if resp.Answered? {
      forall op | op in ops ensures Genuine(env, op) {
        var i :| 0 <= i < |ops| && ops[i] == op;
        assert Carries(env, request.value.wrappers[i], ops[i]);
      }
      s' := Committed(s, st.Contents(), ops, st.devices);
    }
  }
}
