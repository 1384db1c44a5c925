/**
 * The client's side of the wire: a reader that looks members up by name, decodes decimals and
 * digests, and keeps operation bodies as the literals they arrived in. How a string literal is
 * decoded is a parameter; `JsonString.Unquote` is put in at the end.
 */
module Reading {
  import opened Bytes
  import Decimal
  import opened JsonString
  import Json
  import opened GoQuote
  import opened Unicode
  import opened Wire

  /** How the reader decodes a string literal. */
  datatype Reader = Reader(dec: bytes -> Option<bytes>)

  function ClientReader(): Reader { Reader(Unquote) }

  function Lookup(r: Reader, ms: seq<Json.Member>, name: bytes): Option<Json.Value> {
    if ms == [] then None
    else if r.dec(ms[0].key) == Some(name) then Some(ms[0].value)
    else Lookup(r, ms[1..], name)
  }

  function ReadText(r: Reader, v: Option<Json.Value>): Option<bytes> {
    match v
    case Some(Str(l)) => r.dec(l)
    case _ => None
  }

  function ReadLiteral(r: Reader, v: Option<Json.Value>): Option<bytes> {
    match v
    case Some(Str(l)) => if r.dec(l).Some? then Some(l) else None
    case _ => None
  }

  function ReadDec(r: Reader, v: Option<Json.Value>): Option<Dec> {
    match ReadText(r, v)
    case None => None
    case Some(s) => match Decimal.ParseDec(s) case Err(_) => None case Ok(d) => Some(d)
  }

  /** `origin_local_id` must be present, as a string or null. */
  function ReadLocalId(r: Reader, v: Option<Json.Value>): Option<Option<Dec>> {
    match v
    case Some(Null) => Some(None)
    case Some(Str(_)) => (match ReadDec(r, v) case Some(d) => Some(Some(d)) case None => None)
    case _ => None
  }

  type Found = Option<Json.Value>

  function ReadChangeOp(r: Reader, v: Json.Value): Option<ChangeOp> {
    match v
    case Obj(ms) =>
      ChangeOpOf(r, Lookup(r, ms, SEQ), Lookup(r, ms, SERVER_TS), Lookup(r, ms, BODY), Lookup(r, ms, OPERATION_SHA256))
    case _ => None
  }

  function ChangeOpOf(r: Reader, seqNo: Found, ts: Found, body: Found, digest: Found): Option<ChangeOp> {
    match (ReadDec(r, seqNo), ReadDec(r, ts), ReadLiteral(r, body), ReadText(r, digest))
    case (Some(n), Some(t), Some(l), Some(d)) => Some(ChangeOp(n, t, l, d))
    case _ => None
  }

  function ReadAck(r: Reader, v: Json.Value): Option<Ack> {
    match v
    case Obj(ms) =>
      AckOf(r, Lookup(r, ms, ID), Lookup(r, ms, KIND), Lookup(r, ms, ENTITY_REV), Lookup(r, ms, OPERATION_SHA256),
            Lookup(r, ms, SEQ), Lookup(r, ms, ORIGIN_LOCAL_ID))
    case _ => None
  }

  function AckOf(r: Reader, id: Found, kind: Found, rev: Found, digest: Found, seqNo: Found,
                 local: Found): Option<Ack> {
    match (ReadText(r, id), ReadText(r, kind), ReadDec(r, rev), ReadText(r, digest), ReadDec(r, seqNo),
           ReadLocalId(r, local))
    case (Some(i), Some(k), Some(v), Some(d), Some(n), Some(l)) => Some(Ack(i, k, v, d, l, n))
    case _ => None
  }

  /** A list all of whose elements can be read. */
  function ReadAll<T>(es: seq<Json.Value>, read: Json.Value -> Option<T>): Option<seq<T>> {
    if es == [] then Some([])
    else match (read(es[0]), ReadAll(es[1..], read))
         case (Some(x), Some(xs)) => Some([x] + xs)
         case _ => None
  }

  function ReadList<T>(v: Found, read: Json.Value -> Option<T>): Option<seq<T>> {
    match v
    case Some(Arr(es)) => ReadAll(es, read)
    case _ => None
  }

  function ReadChangesValue(r: Reader, v: Json.Value): Option<ChangesResult> {
    match v
    case Obj(ms) =>
      ChangesOf(r, Lookup(r, ms, PROTOCOL_VERSION), Lookup(r, ms, EPOCH), Lookup(r, ms, HEAD_SEQ), Lookup(r, ms, MORE),
                ReadList(Lookup(r, ms, OPS), e => ReadChangeOp(r, e)))
    case _ => None
  }

  function ChangesOf(r: Reader, version: Found, epoch: Found, head: Found, more: Found, ops: Option<seq<ChangeOp>>):
    Option<ChangesResult>
  {
    match (version, ReadDec(r, epoch), ReadDec(r, head), more, ops)
    case (Some(Number(2)), Some(e), Some(h), Some(Bool(m)), Some(os)) => Some(ChangesResult(os, m, h, e))
    case _ => None
  }

  function ReadPushValue(r: Reader, v: Json.Value): Option<PushResult> {
    match v
    case Obj(ms) =>
      PushOf(r, ReadList(Lookup(r, ms, ACKED), e => ReadAck(r, e)), Lookup(r, ms, HEAD_SEQ),
             Lookup(r, ms, PROJECTED_SEQ))
    case _ => None
  }

  function PushOf(r: Reader, acks: Option<seq<Ack>>, head: Found, projected: Found): Option<PushResult> {
    match (acks, ReadDec(r, head), ReadDec(r, projected))
    case (Some(a), Some(h), Some(p)) => Some(PushResult(a, h, p))
    case _ => None
  }

  function ReadStatusValue(r: Reader, v: Json.Value): Option<Status> {
    match v
    case Obj(ms) =>
      StatusOf(r, Lookup(r, ms, PROTOCOL_VERSION), Lookup(r, ms, EPOCH), Lookup(r, ms, HEAD_SEQ),
               Lookup(r, ms, PROJECTED_SEQ))
    case _ => None
  }

  function StatusOf(r: Reader, version: Found, epoch: Found, head: Found, projected: Found): Option<Status> {
    match (version, ReadDec(r, epoch), ReadDec(r, head), ReadDec(r, projected))
    case (Some(Number(2)), Some(e), Some(h), Some(p)) => Some(Status(e, h, p))
    case _ => None
  }

  function ReadStatus(s: bytes): Option<Status> {
    match Json.Read(s)
    case Some(v) => ReadStatusValue(ClientReader(), v)
    case None => None
  }

  function ReadChanges(s: bytes): Option<ChangesResult> {
    match Json.Read(s)
    case Some(v) => ReadChangesValue(ClientReader(), v)
    case None => None
  }

  function ReadPush(s: bytes): Option<PushResult> {
    match Json.Read(s)
    case Some(v) => ReadPushValue(ClientReader(), v)
    case None => None
  }

  // ----- Looking members up -----

  /** What the proofs need of a reader: plain text between quotes decodes to itself. */
  ghost predicate Faithful(r: Reader) {
    forall t :: PlainText(t) ==> r.dec(Enquote(t)) == Some(t)
  }

  lemma ClientReaderIsFaithful()
    ensures Faithful(ClientReader())
  {
    var r := ClientReader();
    forall t | PlainText(t) ensures r.dec(Enquote(t)) == Some(t) { PlainTextLiteral(t); }
  }

  /** Pairwise different names that are plain text. */
  predicate Proper(names: seq<bytes>) {
    && (forall i :: 0 <= i < |names| ==> PlainText(names[i]))
    && (forall i, j :: 0 <= i < j < |names| ==> names[i] != names[j])
  }

  lemma {:induction false} LookupAt(r: Reader, names: seq<bytes>, vs: seq<Json.Value>, i: nat)
    requires |vs| == |names| && Faithful(r) && Proper(names) && i < |names|
    ensures Lookup(r, Members(names, vs), names[i]) == Some(vs[i])
  {
    if i > 0 {
      LookupAt(r, names[1..], vs[1..], i - 1);
      assert Members(names, vs)[1..] == Members(names[1..], vs[1..]);
    }
  }

  /** Looking a member up by any of the names finds its value. */
  lemma LookupAll(r: Reader, names: seq<bytes>, vs: seq<Json.Value>)
    requires |vs| == |names| && Faithful(r) && Proper(names)
    ensures forall i :: 0 <= i < |names| ==> Lookup(r, Members(names, vs), names[i]) == Some(vs[i])
  {
    forall i | 0 <= i < |names| ensures Lookup(r, Members(names, vs), names[i]) == Some(vs[i]) {
      LookupAt(r, names, vs, i);
    }
  }

  lemma DecimalReads(r: Reader, d: Dec)
    requires Faithful(r)
    ensures ReadDec(r, Some(DecimalJson(d))) == Some(d)
    ensures ReadLocalId(r, Some(DecimalJson(d))) == Some(Some(d))
  {
    Decimal.ParsePrintInverse(Decimal.Print(d), d);
    assert PlainText(Decimal.Print(d));
  }

  // ----- Reading the values printed -----

  // The names used in each message are plain text and differ in length.

  /** The first `k` names are plain text. */
  predicate PlainUpTo(names: seq<bytes>, k: nat)
    requires k <= |names|
    decreases k
  {
    k == 0 || (PlainText(names[k - 1]) && PlainUpTo(names, k - 1))
  }

  lemma {:induction false} PlainAt(names: seq<bytes>, k: nat, i: nat)
    requires i < k <= |names| && PlainUpTo(names, k)
    ensures PlainText(names[i])
    decreases k
  {
    if i < k - 1 { PlainAt(names, k - 1, i); }
  }

  lemma ProperNames(names: seq<bytes>)
    requires PlainUpTo(names, |names|)
    requires forall i, j :: 0 <= i < j < |names| ==> |names[i]| != |names[j]|
    ensures Proper(names)
  {
    forall i | 0 <= i < |names| ensures PlainText(names[i]) { PlainAt(names, |names|, i); }
  }

  lemma ChangeOpNames()
    ensures Proper(CHANGE_OP)
  {
    assert |SEQ| == 3 && |SERVER_TS| == 9 && |BODY| == 4 && |OPERATION_SHA256| == 16;
    assert PlainUpTo(CHANGE_OP, 4);
    ProperNames(CHANGE_OP);
  }

  lemma ChangesNames()
    ensures Proper(CHANGES)
  {
    assert |PROTOCOL_VERSION| == 16 && |EPOCH| == 5 && |HEAD_SEQ| == 8 && |MORE| == 4 && |OPS| == 3;
    assert PlainUpTo(CHANGES, 5);
    ProperNames(CHANGES);
  }

  lemma AckNamesArePlain()
    ensures PlainUpTo(ACK, 6)
  {
  }

  lemma AckNames()
    ensures Proper(ACK)
  {
    assert |ID| == 2 && |KIND| == 4 && |ENTITY_REV| == 10 && |OPERATION_SHA256| == 16 && |SEQ| == 3
           && |ORIGIN_LOCAL_ID| == 15;
    AckNamesArePlain();
    ProperNames(ACK);
  }

  lemma PushNames()
    ensures Proper(PUSH)
  {
    assert |ACKED| == 5 && |HEAD_SEQ| == 8 && |PROJECTED_SEQ| == 13;
    assert PlainUpTo(PUSH, 3);
    ProperNames(PUSH);
  }

  lemma StatusNames()
    ensures Proper(STATUS)
  {
    assert |PROTOCOL_VERSION| == 16 && |EPOCH| == 5 && |HEAD_SEQ| == 8 && |PROJECTED_SEQ| == 13;
    assert PlainUpTo(STATUS, 4);
    ProperNames(STATUS);
  }

  // Reading an object by these names finds its values in order.

  lemma ReadStatusRecord(r: Reader, vs: seq<Json.Value>)
    requires Faithful(r) && |vs| == 4
    ensures ReadStatusValue(r, Record(STATUS, vs)) == StatusOf(r, Some(vs[0]), Some(vs[1]), Some(vs[2]), Some(vs[3]))
  {
    StatusNames();
    LookupAll(r, STATUS, vs);
    assert STATUS[0] == PROTOCOL_VERSION && STATUS[1] == EPOCH && STATUS[2] == HEAD_SEQ && STATUS[3] == PROJECTED_SEQ;
  }

  lemma ReadChangeOpRecord(r: Reader, vs: seq<Json.Value>)
    requires Faithful(r) && |vs| == 4
    ensures ReadChangeOp(r, Record(CHANGE_OP, vs)) == ChangeOpOf(r, Some(vs[0]), Some(vs[1]), Some(vs[2]), Some(vs[3]))
  {
    ChangeOpNames();
    LookupAll(r, CHANGE_OP, vs);
    assert CHANGE_OP[0] == SEQ && CHANGE_OP[1] == SERVER_TS && CHANGE_OP[2] == BODY;
    assert CHANGE_OP[3] == OPERATION_SHA256;
  }

  lemma ReadAckRecord(r: Reader, vs: seq<Json.Value>)
    requires Faithful(r) && |vs| == 6
    ensures ReadAck(r, Record(ACK, vs)) ==
            AckOf(r, Some(vs[0]), Some(vs[1]), Some(vs[2]), Some(vs[3]), Some(vs[4]), Some(vs[5]))
  {
    AckNames();
    LookupAll(r, ACK, vs);
    assert ACK[0] == ID && ACK[1] == KIND && ACK[2] == ENTITY_REV && ACK[3] == OPERATION_SHA256;
    assert ACK[4] == SEQ && ACK[5] == ORIGIN_LOCAL_ID;
  }

  lemma ReadChangesRecord(r: Reader, vs: seq<Json.Value>)
    requires Faithful(r) && |vs| == 5
    ensures ReadChangesValue(r, Record(CHANGES, vs)) ==
            ChangesOf(r, Some(vs[0]), Some(vs[1]), Some(vs[2]), Some(vs[3]),
                      ReadList(Some(vs[4]), e => ReadChangeOp(r, e)))
  {
    ChangesNames();
    LookupAll(r, CHANGES, vs);
    assert CHANGES[0] == PROTOCOL_VERSION && CHANGES[1] == EPOCH && CHANGES[2] == HEAD_SEQ && CHANGES[3] == MORE;
    assert CHANGES[4] == OPS;
  }

  lemma ReadPushRecord(r: Reader, vs: seq<Json.Value>)
    requires Faithful(r) && |vs| == 3
    ensures ReadPushValue(r, Record(PUSH, vs)) ==
            PushOf(r, ReadList(Some(vs[0]), e => ReadAck(r, e)), Some(vs[1]), Some(vs[2]))
  {
    PushNames();
    LookupAll(r, PUSH, vs);
    assert PUSH[0] == ACKED && PUSH[1] == HEAD_SEQ && PUSH[2] == PROJECTED_SEQ;
  }

  lemma StatusReads(r: Reader, st: Status)
    requires Faithful(r)
    ensures ReadStatusValue(r, StatusJson(st)) == Some(st)
  {
    ReadStatusRecord(r, [Json.Number(2), DecimalJson(st.epoch), DecimalJson(st.headSeq), DecimalJson(st.projectedSeq)]);
    DecimalReads(r, st.epoch);
    DecimalReads(r, st.headSeq);
    DecimalReads(r, st.projectedSeq);
  }

  lemma {:induction false} ReadAllEach<T>(es: seq<Json.Value>, read: Json.Value -> Option<T>, xs: seq<T>)
    requires |es| == |xs| && forall i :: 0 <= i < |es| ==> read(es[i]) == Some(xs[i])
    ensures ReadAll(es, read) == Some(xs)
  {
    if es != [] {
      ReadAllEach(es[1..], read, xs[1..]);
      assert xs == [xs[0]] + xs[1..];
    }
  }

  lemma {:induction false} ReadAllFails<T>(es: seq<Json.Value>, read: Json.Value -> Option<T>, k: nat)
    requires k < |es| && read(es[k]) == None
    ensures ReadAll(es, read) == None
  {
    if k > 0 { ReadAllFails(es[1..], read, k - 1); }
  }

  lemma ChangeOpReads(r: Reader, graphic: rune -> bool, op: ChangeOp)
    requires Faithful(r)
    requires r.dec(op.literal).Some? && r.dec(Quote(graphic, op.digest)) == Some(op.digest)
    ensures ReadChangeOp(r, ChangeOpJson(graphic, op)) == Some(op)
  {
    ReadChangeOpRecord(r, [DecimalJson(op.seqNo), DecimalJson(op.serverTs), Json.Str(op.literal),
                           Json.Str(Quote(graphic, op.digest))]);
    DecimalReads(r, op.seqNo);
    DecimalReads(r, op.serverTs);
  }

  lemma ChangeOpsRead(r: Reader, graphic: rune -> bool, ops: seq<ChangeOp>)
    requires Faithful(r)
    requires forall op | op in ops :: r.dec(op.literal).Some? && r.dec(Quote(graphic, op.digest)) == Some(op.digest)
    ensures ReadAll(ChangeOpsJson(graphic, ops), e => ReadChangeOp(r, e)) == Some(ops)
  {
    var es := ChangeOpsJson(graphic, ops);
    var read := (e: Json.Value) => ReadChangeOp(r, e);
    forall i | 0 <= i < |es| ensures read(es[i]) == Some(ops[i]) { ChangeOpReads(r, graphic, ops[i]); }
    ReadAllEach(es, read, ops);
  }

  lemma ReadChangesParts(r: Reader, epoch: Dec, head: Dec, more: bool, es: seq<Json.Value>)
    requires Faithful(r)
    ensures ReadChangesValue(r, Record(CHANGES, [Json.Number(2), DecimalJson(epoch), DecimalJson(head),
                                                 Json.Bool(more), Json.Arr(es)])) ==
            match ReadAll(es, e => ReadChangeOp(r, e))
            case Some(ops) => Some(ChangesResult(ops, more, head, epoch))
            case None => None
  {
    ReadChangesRecord(r, [Json.Number(2), DecimalJson(epoch), DecimalJson(head), Json.Bool(more), Json.Arr(es)]);
    DecimalReads(r, epoch);
    DecimalReads(r, head);
  }

  lemma ChangesRead(r: Reader, graphic: rune -> bool, res: ChangesResult)
    requires Faithful(r)
    requires forall op | op in res.ops :: r.dec(op.literal).Some? && r.dec(Quote(graphic, op.digest)) == Some(op.digest)
    ensures ReadChangesValue(r, ChangesJson(graphic, res)) == Some(res)
  {
    ChangeOpsRead(r, graphic, res.ops);
    ReadChangesParts(r, res.epoch, res.headSeq, res.more, ChangeOpsJson(graphic, res.ops));
  }

  /** The quoted kind and digest decode to themselves, and the quoted id does or is not readable at all. */
  ghost predicate ReadableAck(r: Reader, graphic: rune -> bool, a: Ack, ok: Ack -> bool) {
    && r.dec(Quote(graphic, a.kind)) == Some(a.kind)
    && r.dec(Quote(graphic, a.digest)) == Some(a.digest)
    && r.dec(Quote(graphic, a.id)) == if ok(a) then Some(a.id) else None
  }

  lemma AckReads(r: Reader, graphic: rune -> bool, a: Ack)
    requires Faithful(r)
    requires r.dec(Quote(graphic, a.kind)) == Some(a.kind) && r.dec(Quote(graphic, a.digest)) == Some(a.digest)
    requires r.dec(Quote(graphic, a.id)) in {Some(a.id), None}
    ensures ReadAck(r, AckJson(graphic, a)) == if r.dec(Quote(graphic, a.id)).Some? then Some(a) else None
  {
    ReadAckRecord(r, [Json.Str(Quote(graphic, a.id)), Json.Str(Quote(graphic, a.kind)), DecimalJson(a.entityRev),
                      Json.Str(Quote(graphic, a.digest)), DecimalJson(a.seqNo), LocalIdJson(a.originLocalId)]);
    DecimalReads(r, a.entityRev);
    DecimalReads(r, a.seqNo);
    if a.originLocalId.Some? { DecimalReads(r, a.originLocalId.value); }
  }

  /** Elements that read back as the list's own, or not at all: the list reads back if they all do. */
  lemma ReadAllIff<T>(es: seq<Json.Value>, read: Json.Value -> Option<T>, xs: seq<T>, ok: T -> bool)
    requires |es| == |xs|
    requires forall i :: 0 <= i < |es| ==> read(es[i]) == if ok(xs[i]) then Some(xs[i]) else None
    ensures ReadAll(es, read) == if forall x | x in xs :: ok(x) then Some(xs) else None
  {
    if x :| x in xs && !ok(x) {
      var k :| 0 <= k < |xs| && xs[k] == x;
      ReadAllFails(es, read, k);
    } else {
      ReadAllEach(es, read, xs);
    }
  }

  lemma AckReadsIf(r: Reader, graphic: rune -> bool, a: Ack, ok: Ack -> bool)
    requires Faithful(r) && ReadableAck(r, graphic, a, ok)
    ensures ReadAck(r, AckJson(graphic, a)) == if ok(a) then Some(a) else None
  {
    AckReads(r, graphic, a);
  }

  lemma AcksRead(r: Reader, graphic: rune -> bool, acks: seq<Ack>, ok: Ack -> bool)
    requires Faithful(r)
    requires forall a | a in acks :: ReadableAck(r, graphic, a, ok)
    ensures ReadAll(AcksJson(graphic, acks), e => ReadAck(r, e)) ==
            if forall a | a in acks :: ok(a) then Some(acks) else None
  {
    var es, read := AcksJson(graphic, acks), (e: Json.Value) => ReadAck(r, e);
    forall i | 0 <= i < |es| ensures read(es[i]) == if ok(acks[i]) then Some(acks[i]) else None {
      assert acks[i] in acks;
      AckReadsIf(r, graphic, acks[i], ok);
    }
    ReadAllIff(es, read, acks, ok);
  }

  lemma ReadPushParts(r: Reader, es: seq<Json.Value>, head: Dec, projected: Dec)
    requires Faithful(r)
    ensures ReadPushValue(r, Record(PUSH, [Json.Arr(es), DecimalJson(head), DecimalJson(projected)])) ==
            match ReadAll(es, e => ReadAck(r, e))
            case Some(acks) => Some(PushResult(acks, head, projected))
            case None => None
  {
    ReadPushRecord(r, [Json.Arr(es), DecimalJson(head), DecimalJson(projected)]);
    DecimalReads(r, head);
    DecimalReads(r, projected);
  }

  lemma PushReads(r: Reader, graphic: rune -> bool, res: PushResult, ok: Ack -> bool)
    requires Faithful(r)
    requires forall a | a in res.acks :: ReadableAck(r, graphic, a, ok)
    ensures ReadPushValue(r, PushJson(graphic, res)) == if forall a | a in res.acks :: ok(a) then Some(res) else None
  {
    AcksRead(r, graphic, res.acks, ok);
    ReadPushParts(r, AcksJson(graphic, res.acks), res.headSeq, res.projectedSeq);
  }

  // ----- The text printed is well formed -----

  /** What the proofs need of `framed`: plain text and anything `strconv.Quote` printed has it. */
  ghost predicate Frames(framed: bytes -> bool) {
    && (forall t :: PlainText(t) ==> framed(Enquote(t)))
    && (forall graphic, t :: framed(Quote(graphic, t)))
  }

  lemma FramedFrames()
    ensures Frames(Framed)
  {
    forall t | PlainText(t) ensures Framed(Enquote(t)) { PlainTextLiteral(t); }
    forall graphic, t ensures Framed(Quote(graphic, t)) { QuoteIsFramed(graphic, t); }
  }

  /** The first `k` values are well formed. */
  predicate WellFormedUpTo(framed: bytes -> bool, vs: seq<Json.Value>, k: nat)
    requires k <= |vs|
    decreases k
  {
    k == 0 || (Json.WellFormed(framed, vs[k - 1]) && WellFormedUpTo(framed, vs, k - 1))
  }

  lemma {:induction false} WellFormedAt(framed: bytes -> bool, vs: seq<Json.Value>, k: nat, i: nat)
    requires i < k <= |vs| && WellFormedUpTo(framed, vs, k)
    ensures Json.WellFormed(framed, vs[i])
    decreases k
  {
    if i < k - 1 { WellFormedAt(framed, vs, k - 1, i); }
  }

  /** A record is well formed when its names are plain text and its values are well formed. */
  lemma RecordWellFormed(framed: bytes -> bool, names: seq<bytes>, vs: seq<Json.Value>)
    requires |names| == |vs| && Frames(framed) && Proper(names)
    requires WellFormedUpTo(framed, vs, |vs|)
    ensures Json.WellFormed(framed, Record(names, vs))
  {
    forall m | m in Members(names, vs) ensures framed(m.key) && Json.WellFormed(framed, m.value) {
      var i :| 0 <= i < |names| && Members(names, vs)[i] == m;
      WellFormedAt(framed, vs, |vs|, i);
    }
  }

  lemma DecimalWellFormed(framed: bytes -> bool, d: Dec)
    requires Frames(framed)
    ensures Json.WellFormed(framed, DecimalJson(d))
  {
    assert PlainText(Decimal.Print(d));
  }

  lemma QuoteWellFormed(framed: bytes -> bool, graphic: rune -> bool, t: bytes)
    requires Frames(framed)
    ensures Json.WellFormed(framed, Json.Str(Quote(graphic, t)))
  {
  }

  lemma ChangeOpWellFormed(framed: bytes -> bool, graphic: rune -> bool, op: ChangeOp)
    requires Frames(framed) && framed(op.literal)
    ensures Json.WellFormed(framed, ChangeOpJson(graphic, op))
  {
    ChangeOpNames();
    DecimalWellFormed(framed, op.seqNo);
    DecimalWellFormed(framed, op.serverTs);
    QuoteWellFormed(framed, graphic, op.digest);
    var vs := [DecimalJson(op.seqNo), DecimalJson(op.serverTs), Json.Str(op.literal),
               Json.Str(Quote(graphic, op.digest))];
    assert WellFormedUpTo(framed, vs, 4);
    RecordWellFormed(framed, CHANGE_OP, vs);
  }

  lemma ChangeOpsWellFormed(framed: bytes -> bool, graphic: rune -> bool, ops: seq<ChangeOp>)
    requires Frames(framed)
    requires forall op | op in ops :: framed(op.literal)
    ensures Json.WellFormed(framed, Json.Arr(ChangeOpsJson(graphic, ops)))
  {
    var es := ChangeOpsJson(graphic, ops);
    forall e | e in es ensures Json.WellFormed(framed, e) {
      var i :| 0 <= i < |es| && es[i] == e;
      ChangeOpWellFormed(framed, graphic, ops[i]);
    }
  }

  lemma ChangesWellFormed(framed: bytes -> bool, graphic: rune -> bool, res: ChangesResult)
    requires Frames(framed)
    requires forall op | op in res.ops :: framed(op.literal)
    ensures Json.WellFormed(framed, ChangesJson(graphic, res))
  {
    ChangesNames();
    ChangeOpsWellFormed(framed, graphic, res.ops);
    DecimalWellFormed(framed, res.epoch);
    DecimalWellFormed(framed, res.headSeq);
    var vs := [Json.Number(2), DecimalJson(res.epoch), DecimalJson(res.headSeq), Json.Bool(res.more),
               Json.Arr(ChangeOpsJson(graphic, res.ops))];
    assert WellFormedUpTo(framed, vs, 5);
    RecordWellFormed(framed, CHANGES, vs);
  }

  lemma AckWellFormed(framed: bytes -> bool, graphic: rune -> bool, a: Ack)
    requires Frames(framed)
    ensures Json.WellFormed(framed, AckJson(graphic, a))
  {
    AckNames();
    QuoteWellFormed(framed, graphic, a.id);
    QuoteWellFormed(framed, graphic, a.kind);
    QuoteWellFormed(framed, graphic, a.digest);
    DecimalWellFormed(framed, a.entityRev);
    DecimalWellFormed(framed, a.seqNo);
    if a.originLocalId.Some? { DecimalWellFormed(framed, a.originLocalId.value); }
    var vs := [Json.Str(Quote(graphic, a.id)), Json.Str(Quote(graphic, a.kind)), DecimalJson(a.entityRev),
               Json.Str(Quote(graphic, a.digest)), DecimalJson(a.seqNo), LocalIdJson(a.originLocalId)];
    assert WellFormedUpTo(framed, vs, 6);
    RecordWellFormed(framed, ACK, vs);
  }

  lemma AcksWellFormed(framed: bytes -> bool, graphic: rune -> bool, acks: seq<Ack>)
    requires Frames(framed)
    ensures Json.WellFormed(framed, Json.Arr(AcksJson(graphic, acks)))
  {
    var es := AcksJson(graphic, acks);
    forall e | e in es ensures Json.WellFormed(framed, e) {
      var i :| 0 <= i < |es| && es[i] == e;
      AckWellFormed(framed, graphic, acks[i]);
    }
  }

  lemma PushWellFormed(framed: bytes -> bool, graphic: rune -> bool, res: PushResult)
    requires Frames(framed)
    ensures Json.WellFormed(framed, PushJson(graphic, res))
  {
    PushNames();
    AcksWellFormed(framed, graphic, res.acks);
    DecimalWellFormed(framed, res.headSeq);
    DecimalWellFormed(framed, res.projectedSeq);
    var vs := [Json.Arr(AcksJson(graphic, res.acks)), DecimalJson(res.headSeq), DecimalJson(res.projectedSeq)];
    assert WellFormedUpTo(framed, vs, 3);
    RecordWellFormed(framed, PUSH, vs);
  }

  lemma StatusWellFormed(framed: bytes -> bool, st: Status)
    requires Frames(framed)
    ensures Json.WellFormed(framed, StatusJson(st))
  {
    StatusNames();
    DecimalWellFormed(framed, st.epoch);
    DecimalWellFormed(framed, st.headSeq);
    DecimalWellFormed(framed, st.projectedSeq);
    var vs := [Json.Number(2), DecimalJson(st.epoch), DecimalJson(st.headSeq), DecimalJson(st.projectedSeq)];
    assert WellFormedUpTo(framed, vs, 4);
    RecordWellFormed(framed, STATUS, vs);
  }

  // ----- Main results -----

  /** A status response is read back as it was answered. */
  lemma StatusRoundTrip(st: Status)
    ensures ReadStatus(Json.Print(StatusJson(st))) == Some(st)
  {
    ClientReaderIsFaithful();
    FramedFrames();
    StatusWellFormed(Framed, st);
    Json.ReadPrint(Framed, StatusJson(st));
    StatusReads(ClientReader(), st);
  }

  /** What the store guarantees of a row it serves: an accepted literal and a base64url digest. */
  predicate Servable(op: ChangeOp) { Accepted(op.literal) && PlainText(op.digest) }

  /** Printing a page and reading it back is the identity, bodies byte for byte. */
  lemma ChangesRoundTrip(graphic: rune -> bool, res: ChangesResult)
    requires forall op | op in res.ops :: Servable(op)
    ensures ReadChanges(Json.Print(ChangesJson(graphic, res))) == Some(res)
  {
    ClientReaderIsFaithful();
    forall op | op in res.ops
      ensures Framed(op.literal) && Unquote(Quote(graphic, op.digest)) == Some(op.digest)
    {
      AcceptedIsFramed(op.literal);
      PlainTextLiteral(op.digest);
    }
    FramedFrames();
    ChangesWellFormed(Framed, graphic, res);
    Json.ReadPrint(Framed, ChangesJson(graphic, res));
    ChangesRead(ClientReader(), graphic, res);
  }

  lemma HubAckIsReadable(graphic: rune -> bool, a: Ack)
    requires PlainText(a.kind) && PlainText(a.digest)
    ensures ReadableAck(ClientReader(), graphic, a, (b: Ack) => Readable(graphic, b.id))
  {
    PlainTextLiteral(a.kind);
    PlainTextLiteral(a.digest);
    QuoteIsJsonIff(graphic, a.id);
  }

  lemma HubAcksAreReadable(graphic: rune -> bool, acks: seq<Ack>)
    requires forall a | a in acks :: PlainText(a.kind) && PlainText(a.digest)
    ensures forall a | a in acks :: ReadableAck(ClientReader(), graphic, a, (b: Ack) => Readable(graphic, b.id))
  {
    forall a | a in acks
      ensures ReadableAck(ClientReader(), graphic, a, (b: Ack) => Readable(graphic, b.id))
    {
      HubAckIsReadable(graphic, a);
    }
  }

  /**
   * A push response is read back as it was answered if and only if every id is readable; otherwise
   * the client gets nothing from it. Kinds and digests, which the hub checks, never stand in the way.
   */
  lemma PushRoundTripIff(graphic: rune -> bool, res: PushResult)
    requires forall a | a in res.acks :: PlainText(a.kind) && PlainText(a.digest)
    ensures ReadPush(Json.Print(PushJson(graphic, res))) ==
            if forall a | a in res.acks :: Readable(graphic, a.id) then Some(res) else None
  {
    var r, ok := ClientReader(), (a: Ack) => Readable(graphic, a.id);
    ClientReaderIsFaithful();
    HubAcksAreReadable(graphic, res.acks);
    FramedFrames();
    PushWellFormed(Framed, graphic, res);
    Json.ReadPrint(Framed, PushJson(graphic, res));
    PushReads(r, graphic, res, ok);
  }
}
