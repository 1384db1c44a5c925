/**
 * The request handlers of internal/hub/handlers.go, from the parsed request to the bytes of the
 * response. What a client reads back from those bytes is what the store answered.
 */
module Hub {
  import opened Bytes
  import Decimal
  import opened JsonString
  import Json
  import opened Unicode
  import GoQuote
  import opened Wrapper
  import opened Oplog
  import opened Store
  import Wire
  import Reading
  import PageSize

  datatype Response = Answered(body: bytes) | Refused(status: nat)

  /** A push request as `encoding/json` hands it over. */
  datatype PushRequest = PushRequest(version: int, wrappers: seq<bytes>)

  /** The `limit` of a query: left out, not a number, or a number. */
  datatype LimitParam = Absent | NotANumber | Given(n: int)

  // ----- Every stored row is genuine -----

  /** The row was written by an op that `ParseOp` accepts. */
  ghost predicate GenuineRow(env: Env, r: Row) {
    exists op :: Genuine(env, op) && RowOf(op, r.serverTs) == r
  }

  ghost predicate GenuineLog(env: Env, log: Log) {
    forall r | r in log :: GenuineRow(env, r)
  }

  lemma PushKeepsGenuine(env: Env, log: Log, ops: seq<Op>, now: Millis)
    requires GenuineLog(env, log) && forall op | op in ops :: Genuine(env, op)
    ensures GenuineLog(env, PushLog(log, ops, now))
  {
    forall op | op in ops ensures GenuineRow(env, RowOf(op, now)) {
      assert RowOf(op, RowOf(op, now).serverTs) == RowOf(op, now);
    }
    PushAllGenuine(env, log, ops, now);
  }

  lemma {:induction false} PushAllGenuine(env: Env, log: Log, ops: seq<Op>, now: Millis)
    requires forall r | r in log :: GenuineRow(env, r)
    requires forall op | op in ops :: GenuineRow(env, RowOf(op, now))
    ensures forall r | r in PushLog(log, ops, now) :: GenuineRow(env, r)
    decreases |ops|
  {
    if ops != [] {
      assert ops[0] in ops;
      PushAllGenuine(env, FindOrAppend(log, ops[0], now), ops[1..], now);
    }
  }

  /**
   * What that means for a stored row: its body unquotes to bytes with the stored digest, and those
   * bytes name the row's own id, kind and revision.
   */
  lemma GenuineRowMeans(env: Env, r: Row)
    requires GenuineRow(env, r)
    ensures Accepted(r.body) && env.digest(Unquote(r.body).value) == r.digest
    ensures exists op, m :: BodySays(env, Unquote(r.body).value, m, op) && op.id == r.id && op.kind == r.kind
                            && op.entityRev == r.rev
    ensures |r.body| <= MAX_BODY_LITERAL && GoQuote.PlainText(r.digest) && |r.digest| == 43
  {
    var op :| Genuine(env, op) && RowOf(op, r.serverTs) == r;
    GenuineIsPlain(env, op);
    var m :| BodySays(env, Unquote(op.literal).value, m, op);
  }

  /** What a page shows of a row, its body, digest and time, leaves only one genuine row. */
  lemma SameEntrySameRow(env: Env, a: Row, b: Row)
    requires GenuineRow(env, a) && GenuineRow(env, b)
    requires a.body == b.body && a.digest == b.digest && a.serverTs == b.serverTs
    ensures a == b
  {
    var op :| Genuine(env, op) && RowOf(op, a.serverTs) == a;
    var op' :| Genuine(env, op') && RowOf(op', b.serverTs) == b;
    SameRouting(env, Unquote(a.body).value, op, op');
  }

  lemma SameRouting(env: Env, decoded: bytes, op: Op, op': Op)
    requires exists m :: BodySays(env, decoded, m, op)
    requires exists m :: BodySays(env, decoded, m, op')
    requires op.literal == op'.literal && op.digest == op'.digest
    ensures op == op'
  {
    BodySaysOne(env, decoded, op, op');
  }

  // ----- POST /v1/sync/ops -----

  /** Each wrapper carries the op at its place. */
  ghost predicate Carried(env: Env, wrappers: seq<bytes>, ops: seq<Op>) {
    |ops| == |wrappers| <= 1_000 && forall i :: 0 <= i < |ops| ==> Carries(env, wrappers[i], ops[i])
  }

  /** Some wrapper of the request carries no operation at all. */
  ghost predicate SomeRejected(env: Env, wrappers: seq<bytes>) {
    exists w :: w in wrappers && forall op :: !Carries(env, w, op)
  }

  lemma CarriedNotRejected(env: Env, wrappers: seq<bytes>, ops: seq<Op>)
    requires Carried(env, wrappers, ops)
    ensures !SomeRejected(env, wrappers)
  {
    forall w | w in wrappers ensures exists op :: Carries(env, w, op) {
      var i :| 0 <= i < |wrappers| && wrappers[i] == w;
      assert Carries(env, w, ops[i]);
    }
  }

  /**
   * What a client reads from the answer, if it can read the ids; by `AnswerAcks` that is each op with
   * its own fields and the number of its row, and the length of the log.
   */
  ghost predicate Acknowledges(graphic: rune -> bool, body: bytes, log: Log, ops: seq<Op>) {
    && Oplog.Holds(log, ops) && |log| <= Decimal.MAX_INT64
    && Reading.ReadPush(body) ==
       if forall op | op in ops :: GoQuote.Readable(graphic, op.id) then Some(Answer(log, ops)) else None
  }

  /** If the answer can be read, head and projected sequence are this number. */
  predicate HeadIs(answer: Option<Wire.PushResult>, n: nat) {
    answer.Some? ==> answer.value.headSeq == n && answer.value.projectedSeq == n
  }

  /** A request the hub has to accept: well formed, version 2, not too many ops, and every one genuine. */
  ghost predicate Acceptable(env: Env, request: Option<PushRequest>) {
    && request.Some? && request.value.version == 2 && |request.value.wrappers| <= 1_000
    && !SomeRejected(env, request.value.wrappers)
  }

  /**
   * `handlePush`: an acceptable request is answered, unless the device is revoked, the sequence
   * numbers run out or the transaction fails; any other is refused. It is stored whole or not at all,
   * and the answer reads back as the store's unless some id cannot be read from what
   * `strconv.Quote` makes of it.
   */
  method HandlePush(st: Store, env: Env, graphic: rune -> bool, request: Option<PushRequest>, deviceId: bytes,
                    deviceName: bytes, now: Millis, fails: bool)
    returns (resp: Response, ghost ops: seq<Op>)
    requires st.Valid() && GenuineLog(env, st.Contents())
    modifies st`ops, st`meta, st`devices
    ensures st.Valid() && GenuineLog(env, st.Contents())
    ensures Acceptable(env, request) ==> Carried(env, request.value.wrappers, ops)
    ensures resp == Refused(400) <==> !Acceptable(env, request)
    ensures resp == Refused(401) <==> Acceptable(env, request) && Revoked(old(st.devices), deviceId)
    ensures resp.Refused? ==> resp.status in {400, 401, 500}
    ensures resp.Answered? <==>
              && Acceptable(env, request)
              && !Revoked(old(st.devices), deviceId)
              && |PushLog(old(st.Contents()), ops, now)| <= Decimal.MAX_INT64
              && !fails
    ensures resp.Refused? ==> st.Contents() == old(st.Contents()) && st.devices == old(st.devices)
    ensures resp.Answered? ==> st.Contents() == PushLog(old(st.Contents()), ops, now)
    ensures resp.Answered? ==> st.devices == Upserted(old(st.devices), deviceId, deviceName, now)
    ensures resp.Answered? ==> Acknowledges(graphic, resp.body, st.Contents(), ops)
    ensures resp.Answered? ==> HeadIs(Reading.ReadPush(resp.body), |st.Contents()|)
  {
    ops := [];
    if request.None? || request.value.version != 2 {
      return Refused(400), [];
    }
    var parsed := ParseOps(env, request.value.wrappers);
    if parsed.Err? {
      return Refused(400), [];
    }
    CarriedNotRejected(env, request.value.wrappers, parsed.value);
    CarriedIsGenuine(env, request.value.wrappers, parsed.value);
    resp := StoreAndAnswer(st, env, graphic, parsed.value, deviceId, deviceName, now, fails);
    ops := parsed.value;
  }

  /** The rest of `handlePush`, once every op is validated. */
  method StoreAndAnswer(st: Store, ghost env: Env, graphic: rune -> bool, ops: seq<Op>, deviceId: bytes,
                        deviceName: bytes, now: Millis, fails: bool)
    returns (resp: Response)
    requires st.Valid() && GenuineLog(env, st.Contents()) && forall op | op in ops :: Genuine(env, op)
    modifies st`ops, st`meta, st`devices
    ensures st.Valid() && GenuineLog(env, st.Contents())
    ensures resp.Answered? <==>
              && !Revoked(old(st.devices), deviceId)
              && |PushLog(old(st.Contents()), ops, now)| <= Decimal.MAX_INT64
              && !fails
    ensures resp.Refused? ==> resp.status == if Revoked(old(st.devices), deviceId) then 401 else 500
    ensures resp.Refused? ==> st.Contents() == old(st.Contents()) && st.devices == old(st.devices)
    ensures resp.Answered? ==> st.Contents() == PushLog(old(st.Contents()), ops, now)
    ensures resp.Answered? ==> st.devices == Upserted(old(st.devices), deviceId, deviceName, now)
    ensures resp.Answered? ==> Acknowledges(graphic, resp.body, st.Contents(), ops)
  {
    var res := st.Push(ops, deviceId, deviceName, now, fails);
    if res.Err? {
      return if res.error == Denied then Refused(401) else Refused(500);
    }
    PushKeepsGenuine(env, old(st.Contents()), ops, now);
    AnswerReads(env, graphic, st.Contents(), ops);
    var buf := Wire.RenderPush(res.value, graphic);
    return Answered(buf.data);
  }

  lemma AnswerReads(env: Env, graphic: rune -> bool, log: Log, ops: seq<Op>)
    requires forall op | op in ops :: Genuine(env, op)
    requires Oplog.Holds(log, ops) && |log| <= Decimal.MAX_INT64
    ensures Acknowledges(graphic, Json.Print(Wire.PushJson(graphic, Answer(log, ops))), log, ops)
  {
    var acks, res := Acks(log, ops), Answer(log, ops);
    forall i | 0 <= i < |ops| ensures GoQuote.PlainText(acks[i].kind) && GoQuote.PlainText(acks[i].digest) {
      GenuineIsPlain(env, ops[i]);
    }
    EachAck(acks, (a: Wire.Ack) => GoQuote.PlainText(a.kind) && GoQuote.PlainText(a.digest));
    SameIds(acks, ops, id => GoQuote.Readable(graphic, id));
    PushReadsAs(graphic, res, forall op | op in ops :: GoQuote.Readable(graphic, op.id));
  }

  lemma EachAck(acks: seq<Wire.Ack>, p: Wire.Ack -> bool)
    requires forall i :: 0 <= i < |acks| ==> p(acks[i])
    ensures forall a | a in acks :: p(a)
  {
  }

  lemma PushReadsAs(graphic: rune -> bool, res: Wire.PushResult, readable: bool)
    requires forall a | a in res.acks :: GoQuote.PlainText(a.kind) && GoQuote.PlainText(a.digest)
    requires readable == forall a | a in res.acks :: GoQuote.Readable(graphic, a.id)
    ensures Reading.ReadPush(Json.Print(Wire.PushJson(graphic, res))) == if readable then Some(res) else None
  {
    Reading.PushRoundTripIff(graphic, res);
  }

  lemma SameIds(acks: seq<Wire.Ack>, ops: seq<Op>, p: bytes -> bool)
    requires |acks| == |ops| && forall i :: 0 <= i < |ops| ==> acks[i].id == ops[i].id
    ensures (forall a | a in acks :: p(a.id)) <==> (forall op | op in ops :: p(op.id))
  {
    forall op | op in ops ensures exists a :: a in acks && a.id == op.id {
      var i :| 0 <= i < |ops| && ops[i] == op;
      assert acks[i] in acks;
    }
  }

  // ----- GET /v1/sync/changes -----

  /** The limit is clamped, never refused. */
  function ClampedLimit(limit: LimitParam): (n: int)
    ensures 1 <= n <= MAX_PAGE_LIMIT
    ensures limit.Given? && 1 <= limit.n <= MAX_PAGE_LIMIT ==> n == limit.n
  {
    match limit
    case Given(n) => if 0 < n < MAX_PAGE_LIMIT then n else MAX_PAGE_LIMIT
    case _ => MAX_PAGE_LIMIT
  }

  /** The cursor: 0 when left out, a canonical decimal otherwise. */
  function Cursor(since: bytes): Result<Dec, Decimal.DecError> {
    if since == [] then Ok(0) else Decimal.ParseDec(since)
  }

  /** The cursor a request names. */
  predicate Names(since: bytes, cursor: Dec) { if since == [] then cursor == 0 else since == Decimal.Print(cursor) }

  lemma CursorNames(since: bytes)
    ensures Cursor(since).Ok? ==> Names(since, Cursor(since).value)
    ensures Cursor(since).Err? ==> forall c: Dec :: !Names(since, c)
    ensures forall c: Dec | Names(since, c) :: Cursor(since) == Ok(c)
  {
    Decimal.ParsesExactlyPrinted(since);
    forall c: Dec { Decimal.ParsePrintInverse(since, c); }
  }

  /** The page for a limit that is a number from 1 to 500, and the one for 500 for any other or none. */
  ghost predicate Serves(log: Log, cursor: Dec, limit: LimitParam, maxBytes: int, epoch: Dec, res: Wire.ChangesResult) {
    && Shows(log, cursor, epoch, res)
    && IsPage(log, cursor, |res.ops|, if limit.Given? && 1 <= limit.n <= 500 then limit.n else 500,
              if maxBytes > 0 then maxBytes else 8_388_608)
  }

  function Max(a: nat, b: nat): nat { if a > b then a else b }

  /**
   * `handleChanges`: an absent cursor is 0, and a limit that is absent or out of range is 500. The
   * response reads back as the largest page of the log after the cursor within the limits, with every
   * literal byte for byte as it was stored, and its size is bounded by the byte cap.
   */
  method HandleChanges(st: Store, ghost env: Env, graphic: rune -> bool, since: bytes, limit: LimitParam,
                       maxResponseBytes: int)
    returns (resp: Response)
    requires st.Valid() && GenuineLog(env, st.Contents())
    ensures resp.Refused? <==> Cursor(since).Err? || limit.NotANumber? || Cursor(since).value > Decimal.MAX_INT64
    ensures resp.Refused? <==> limit.NotANumber? || forall c: Dec | c <= 0x7FFF_FFFF_FFFF_FFFF :: !Names(since, c)
    ensures resp.Refused? ==> resp == Refused(400)
    ensures resp.Answered? ==> Cursor(since).Ok? && Names(since, Cursor(since).value)
    ensures resp.Answered? ==>
              && Reading.ReadChanges(resp.body).Some?
              && Serves(st.Contents(), Cursor(since).value, limit, maxResponseBytes, st.epoch,
                        Reading.ReadChanges(resp.body).value)
    ensures resp.Answered? ==>
              && Reading.ReadChanges(resp.body).Some?
              && PageOf(st.Contents(), Cursor(since).value, ClampedLimit(limit), maxResponseBytes, st.epoch,
                        Reading.ReadChanges(resp.body).value)
              && |resp.body| <= Max(Cap(maxResponseBytes), MAX_BODY_LITERAL)
                                + PageSize.ENTRY_OVERHEAD * ClampedLimit(limit) + PageSize.ENVELOPE
  {
    var cursor := Cursor(since);
    CursorNames(since);
    if cursor.Err? {
      return Refused(400);
    }
    if limit.NotANumber? {
      return Refused(400);
    }
    var res := st.Changes(cursor.value, ClampedLimit(limit), maxResponseBytes);
    if res.Err? {
      return Refused(400);
    }
    PageShows(st.Contents(), cursor.value, ClampedLimit(limit), maxResponseBytes, st.epoch, res.value);
    PageReads(env, graphic, st.Contents(), cursor.value, ClampedLimit(limit), maxResponseBytes, st.epoch, res.value);
    var buf := Wire.RenderChanges(res.value, graphic);
    return Answered(buf.data);
  }

  lemma PageReads(env: Env, graphic: rune -> bool, log: Log, since: Dec, limit: int, maxBytes: int, epoch: Dec,
                  res: Wire.ChangesResult)
    requires GenuineLog(env, log) && 1 <= limit <= MAX_PAGE_LIMIT && PageOf(log, since, limit, maxBytes, epoch, res)
    ensures Reading.ReadChanges(Json.Print(Wire.ChangesJson(graphic, res))) == Some(res)
    ensures |Json.Print(Wire.ChangesJson(graphic, res))|
            <= Max(Cap(maxBytes), MAX_BODY_LITERAL) + PageSize.ENTRY_OVERHEAD * limit + PageSize.ENVELOPE
  {
    forall op | op in res.ops ensures Reading.Servable(op) && PageSize.Stored(op) && |op.literal| <= MAX_BODY_LITERAL {
      var i :| 0 <= i < |res.ops| && res.ops[i] == op;
      assert log[since + i] in log;
      GenuineRowMeans(env, log[since + i]);
    }
    Reading.ChangesRoundTrip(graphic, res);
    PageSize.ResponseLength(graphic, res);
    PageBodies(log, since, limit, maxBytes, res.ops);
  }

  /** The byte cap bounds the literals of a page; a single literal is bounded by its own limit. */
  lemma PageBodies(log: Log, since: nat, limit: nat, maxBytes: int, ops: seq<Wire.ChangeOp>)
    requires 1 <= limit <= MAX_PAGE_LIMIT && PageEntries(log, since, limit, Cap(maxBytes), ops)
    requires forall op | op in ops :: |op.literal| <= MAX_BODY_LITERAL
    ensures |ops| <= limit && PageSize.Literals(ops) <= Max(Cap(maxBytes), MAX_BODY_LITERAL)
  {
    if |ops| > 1 {
      LiteralsAreBodies(log, since, ops);
    } else if |ops| == 1 {
      assert ops[0] in ops && PageSize.Literals(ops[1..]) == 0;
    }
  }

  lemma {:induction false} LiteralsAreBodies(log: Log, since: nat, ops: seq<Wire.ChangeOp>)
    requires since + |ops| <= |log| <= Decimal.MAX_INT64 && ops == Entries(log, since, |ops|)
    ensures PageSize.Literals(ops) == Bodies(log, since, |ops|)
    decreases |ops|
  {
    if ops != [] {
      assert ops[1..] == Entries(log, since + 1, |ops| - 1);
      LiteralsAreBodies(log, since + 1, ops[1..]);
      BodiesFirst(log, since, |ops|);
    }
  }

  lemma {:induction false} BodiesFirst(log: Log, since: nat, n: nat)
    requires n > 0 && since + n <= |log|
    ensures Bodies(log, since, n) == |log[since].body| + Bodies(log, since + 1, n - 1)
  {
    if n > 1 { BodiesFirst(log, since, n - 1); }
  }

  /** With the default limits no response exceeds 8 MiB, 500 times 137 bytes and 108 bytes. */
  lemma DefaultResponseSize(env: Env, graphic: rune -> bool, log: Log, since: Dec, epoch: Dec, res: Wire.ChangesResult)
    requires GenuineLog(env, log) && PageOf(log, since, MAX_PAGE_LIMIT, 0, epoch, res)
    ensures |Json.Print(Wire.ChangesJson(graphic, res))| <= 8 * 1024 * 1024 + 500 * 137 + 108
  {
    PageReads(env, graphic, log, since, MAX_PAGE_LIMIT, 0, epoch, res);
  }

  // ----- GET /v1/sync/status -----

  /** `handleStatus`: the projected sequence is the head, the one value both routes accept. */
  method HandleStatus(st: Store) returns (resp: Response)
    requires st.Valid()
    ensures resp.Answered?
    ensures Reading.ReadStatus(resp.body).Some?
    ensures Reading.ReadStatus(resp.body).value.epoch == st.epoch
    ensures Reading.ReadStatus(resp.body).value.headSeq == |st.Contents()|
    ensures Reading.ReadStatus(resp.body).value.projectedSeq == |st.Contents()|
  {
    var head := st.HeadSeq();
    var status := Wire.Status(st.epoch, head, head);
    Reading.StatusRoundTrip(status);
    var buf := Wire.RenderStatus(status);
    return Answered(buf.data);
  }
}
