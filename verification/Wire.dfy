/**
 * The responses the hub prints by hand (internal/proto/emit.go, internal/hub/handlers.go), each
 * proved to be the compact printing of a JSON value.
 */
module Wire {
  import opened Bytes
  import Decimal
  import opened JsonString
  import opened Json
  import opened GoQuote
  import opened Unicode

  type Dec = Decimal.Dec

  /** One entry of a changes page; `literal` is the stored JSON string literal, quotes included. */
  datatype ChangeOp = ChangeOp(seqNo: Dec, serverTs: Dec, literal: bytes, digest: bytes)

  datatype ChangesResult = ChangesResult(ops: seq<ChangeOp>, more: bool, headSeq: Dec, epoch: Dec)

  datatype Ack = Ack(id: bytes, kind: bytes, entityRev: Dec, digest: bytes, originLocalId: Option<Dec>, seqNo: Dec)

  datatype PushResult = PushResult(acks: seq<Ack>, headSeq: Dec, projectedSeq: Dec)

  datatype Status = Status(epoch: Dec, headSeq: Dec, projectedSeq: Dec)

  /** The io.Writer the responses are printed to. */
  class Buffer {
    var data: bytes

    constructor ()
      ensures data == []
    {
      data := [];
    }

    method Write(s: bytes)
      modifies this
      ensures data == old(data) + s
    {
      data := data + s;
    }
  }

  // ----- The values the responses stand for -----

  // The member names of the three responses.
  const PROTOCOL_VERSION: bytes := Ascii("protocol_version")
  const EPOCH: bytes := Ascii("epoch")
  const HEAD_SEQ: bytes := Ascii("head_seq")
  const PROJECTED_SEQ: bytes := Ascii("projected_seq")
  const MORE: bytes := Ascii("more")
  const OPS: bytes := Ascii("ops")
  const ACKED: bytes := Ascii("acked")
  const SEQ: bytes := Ascii("seq")
  const SERVER_TS: bytes := Ascii("server_ts")
  const BODY: bytes := Ascii("body")
  const OPERATION_SHA256: bytes := Ascii("operation_sha256")
  const ID: bytes := Ascii("id")
  const KIND: bytes := Ascii("kind")
  const ENTITY_REV: bytes := Ascii("entity_rev")
  const ORIGIN_LOCAL_ID: bytes := Ascii("origin_local_id")

  function Members(names: seq<bytes>, vs: seq<Value>): (ms: seq<Member>)
    requires |names| == |vs|
    ensures |ms| == |names|
    ensures forall i :: 0 <= i < |names| ==> ms[i] == Member(Enquote(names[i]), vs[i])
  {
    seq(|names|, i requires 0 <= i < |names| => Member(Enquote(names[i]), vs[i]))
  }

  /** An object with the given members, in order. */
  function Record(names: seq<bytes>, vs: seq<Value>): Value
    requires |names| == |vs|
  {
    Obj(Members(names, vs))
  }

  function DecimalJson(d: Dec): Value { Str(Enquote(Decimal.Print(d))) }

  const CHANGE_OP: seq<bytes> := [SEQ, SERVER_TS, BODY, OPERATION_SHA256]
  const CHANGES: seq<bytes> := [PROTOCOL_VERSION, EPOCH, HEAD_SEQ, MORE, OPS]
  const ACK: seq<bytes> := [ID, KIND, ENTITY_REV, OPERATION_SHA256, SEQ, ORIGIN_LOCAL_ID]
  const PUSH: seq<bytes> := [ACKED, HEAD_SEQ, PROJECTED_SEQ]
  const STATUS: seq<bytes> := [PROTOCOL_VERSION, EPOCH, HEAD_SEQ, PROJECTED_SEQ]

  function ChangeOpJson(graphic: rune -> bool, op: ChangeOp): Value {
    Record(CHANGE_OP,
           [DecimalJson(op.seqNo), DecimalJson(op.serverTs), Str(op.literal), Str(Quote(graphic, op.digest))])
  }

  function ChangeOpsJson(graphic: rune -> bool, ops: seq<ChangeOp>): (es: seq<Value>)
    ensures |es| == |ops|
    ensures forall i :: 0 <= i < |ops| ==> es[i] == ChangeOpJson(graphic, ops[i])
  {
    seq(|ops|, i requires 0 <= i < |ops| => ChangeOpJson(graphic, ops[i]))
  }

  function ChangesJson(graphic: rune -> bool, res: ChangesResult): Value {
    Record(CHANGES, [Number(2), DecimalJson(res.epoch), DecimalJson(res.headSeq), Bool(res.more),
                     Arr(ChangeOpsJson(graphic, res.ops))])
  }

  function LocalIdJson(id: Option<Dec>): Value {
    match id
    case None => Null
    case Some(d) => DecimalJson(d)
  }

  function AckJson(graphic: rune -> bool, a: Ack): Value {
    Record(ACK, [Str(Quote(graphic, a.id)), Str(Quote(graphic, a.kind)), DecimalJson(a.entityRev),
                 Str(Quote(graphic, a.digest)), DecimalJson(a.seqNo), LocalIdJson(a.originLocalId)])
  }

  function AcksJson(graphic: rune -> bool, acks: seq<Ack>): (es: seq<Value>)
    ensures |es| == |acks|
    ensures forall i :: 0 <= i < |acks| ==> es[i] == AckJson(graphic, acks[i])
  {
    seq(|acks|, i requires 0 <= i < |acks| => AckJson(graphic, acks[i]))
  }

  function PushJson(graphic: rune -> bool, res: PushResult): Value {
    Record(PUSH, [Arr(AcksJson(graphic, res.acks)), DecimalJson(res.headSeq), DecimalJson(res.projectedSeq)])
  }

  function StatusJson(st: Status): Value {
    Record(STATUS, [Number(2), DecimalJson(st.epoch), DecimalJson(st.headSeq), DecimalJson(st.projectedSeq)])
  }

  // ----- Appending members to the text written so far -----

  /**
   * The constants the code writes: a brace or a comma, a quoted name, a colon, and what the value
   * opens with. `Key(COMMA, Enquote(SEQ), [QUOTE])` is the constant `,"seq":"`.
   */
  function Key(separator: byte, key: bytes, opening: bytes): bytes {
    [separator] + key + [COLON] + opening
  }

  const LBRACE: byte := 0x7B
  const RBRACE: byte := 0x7D
  const LBRACKET: byte := 0x5B
  const RBRACKET: byte := 0x5D

  /** A member whose value is written as it is. */
  lemma ValueText(t: bytes, separator: byte, key: bytes, v: Value)
    ensures t + Key(separator, key, []) + Print(v) == t + [separator] + PrintMember(Member(key, v))
  {
    NoTail([separator] + key + [COLON]);
    Parts(t, [separator], key, [COLON]);
    Parts(t + [separator], key, [COLON], Print(v));
  }

  /** A member whose value is a quoted decimal; its closing quote starts the next constant. */
  lemma DecimalText(t: bytes, separator: byte, key: bytes, d: Dec, next: bytes)
    ensures t + Key(separator, key, [QUOTE]) + Decimal.Print(d) + ([QUOTE] + next) ==
            t + [separator] + PrintMember(Member(key, DecimalJson(d))) + next
  {
    var n := Decimal.Print(d);
    var head := t + [separator] + key + [COLON];
    Parts5(t, [separator], key, [COLON], [QUOTE], []);
    Parts(head + [QUOTE] + n, [QUOTE], next, []);
    Parts(head, [QUOTE], n, [QUOTE]);
    Parts(t + [separator], key, [COLON], Print(DecimalJson(d)));
  }

  /** A member whose value is a list. */
  lemma ListText(t: bytes, separator: byte, key: bytes, es: seq<Value>, next: bytes)
    ensures t + Key(separator, key, [LBRACKET]) + PrintElems(es) + ([RBRACKET] + next) ==
            t + [separator] + PrintMember(Member(key, Arr(es))) + next
  {
    var n := PrintElems(es);
    var head := t + [separator] + key + [COLON];
    Parts5(t, [separator], key, [COLON], [LBRACKET], []);
    Parts(head + [LBRACKET] + n, [RBRACKET], next, []);
    Parts(head, [LBRACKET], n, [RBRACKET]);
    Parts(t + [separator], key, [COLON], Print(Arr(es)));
  }

  /** What is written after `d` up to the end of member `k - 1`. */
  function Spelled(d: bytes, ms: seq<Member>, k: nat): bytes
    requires 1 <= k <= |ms|
    decreases k
  {
    (if k == 1 then d + [LBRACE] else Spelled(d, ms, k - 1) + [COMMA]) + PrintMember(ms[k - 1])
  }

  lemma {:induction false} SpelledAndRest(d: bytes, ms: seq<Member>, k: nat)
    requires 1 <= k < |ms|
    ensures Spelled(d, ms, k) + [COMMA] + PrintMembers(ms[k..]) == d + [LBRACE] + PrintMembers(ms)
    decreases k
  {
    var before := if k == 1 then d + [LBRACE] else Spelled(d, ms, k - 1) + [COMMA];
    Parts(before, PrintMember(ms[k - 1]), [COMMA], PrintMembers(ms[k..]));
    assert ms[k - 1..][1..] == ms[k..];
    if k == 1 {
      assert ms[0..] == ms;
    } else {
      SpelledAndRest(d, ms, k - 1);
    }
  }

  /** A printed object, member by member. */
  lemma ObjectText(d: bytes, ms: seq<Member>)
    requires ms != []
    ensures d + Print(Obj(ms)) == Spelled(d, ms, |ms|) + [RBRACE]
  {
    Parts(d, [LBRACE], PrintMembers(ms), [RBRACE]);
    if |ms| > 1 { SpelledAndRest(d, ms, |ms| - 1); }
  }

  lemma {:induction false} ElementText(es: seq<Value>, e: Value)
    ensures PrintElems(es + [e]) == if es == [] then Print(e) else PrintElems(es) + [COMMA] + Print(e)
  {
    if es == [] {
      assert es + [e] == [e];
    } else {
      ElementText(es[1..], e);
      assert (es + [e])[1..] == es[1..] + [e] && (es + [e])[0] == es[0];
      if |es| > 1 {
        Regroup(Print(es[0]), [COMMA], PrintElems(es[1..]), [COMMA] + Print(e));
        Parts(PrintElems(es), [COMMA], Print(e), []);
        Parts(PrintElems(es[1..]), [COMMA], Print(e), []);
        Regroup(Print(es[0]), [COMMA], PrintElems(es[1..]) + [COMMA], Print(e));
      }
    }
  }

  /** One more element, after a comma unless it is the first. */
  lemma NextElementText(t: bytes, es: seq<Value>, i: nat)
    requires i < |es|
    ensures t + PrintElems(es[..i + 1]) ==
            (if i > 0 then t + PrintElems(es[..i]) + [COMMA] else t + PrintElems(es[..i])) + Print(es[i])
  {
    ElementText(es[..i], es[i]);
    assert es[..i + 1] == es[..i] + [es[i]];
    Parts(t, PrintElems(es[..i]), [COMMA], Print(es[i]));
    NoTail(t);
  }

  // ----- Printing -----

  method EmitChangeOp(w: Buffer, op: ChangeOp, graphic: rune -> bool)
    modifies w
    ensures w.data == old(w.data) + Print(ChangeOpJson(graphic, op))
  {
    ghost var t := w.data;
    w.Write(Key(LBRACE, Enquote(SEQ), [QUOTE]));
    w.Write(Decimal.Print(op.seqNo));
    w.Write([QUOTE] + Key(COMMA, Enquote(SERVER_TS), [QUOTE]));
    w.Write(Decimal.Print(op.serverTs));
    w.Write([QUOTE] + Key(COMMA, Enquote(BODY), []));
    // The literal carries its own quotes and is written straight through.
    w.Write(op.literal);
    w.Write(Key(COMMA, Enquote(OPERATION_SHA256), []));
    w.Write(Quote(graphic, op.digest));
    w.Write([RBRACE]);
    ChangeOpText(t, CHANGE_OP, op.seqNo, op.serverTs, op.literal, Quote(graphic, op.digest));
  }

  lemma ChangeOpText(d: bytes, ks: seq<bytes>, seqNo: Dec, ts: Dec, l: bytes, digest: bytes)
    requires |ks| == 4
    ensures d + Print(Record(ks, [DecimalJson(seqNo), DecimalJson(ts), Str(l), Str(digest)])) ==
            d + Key(LBRACE, Enquote(ks[0]), [QUOTE]) + Decimal.Print(seqNo)
            + ([QUOTE] + Key(COMMA, Enquote(ks[1]), [QUOTE])) + Decimal.Print(ts)
            + ([QUOTE] + Key(COMMA, Enquote(ks[2]), [])) + l + Key(COMMA, Enquote(ks[3]), []) + digest + [RBRACE]
  {
    var ms := Members(ks, [DecimalJson(seqNo), DecimalJson(ts), Str(l), Str(digest)]);
    ObjectText(d, ms);
    DecimalText(d, LBRACE, ms[0].key, seqNo, Key(COMMA, ms[1].key, [QUOTE]));
    DecimalText(Spelled(d, ms, 1), COMMA, ms[1].key, ts, Key(COMMA, ms[2].key, []));
    ValueText(Spelled(d, ms, 2), COMMA, ms[2].key, Str(l));
    ValueText(Spelled(d, ms, 3), COMMA, ms[3].key, Str(digest));
  }

  /** A missing local id is printed as null, never left out. */
  method EmitLocalId(w: Buffer, id: Option<Dec>)
    modifies w
    ensures w.data == old(w.data) + Print(LocalIdJson(id))
  {
    if id.None? {
      w.Write(Ascii("null"));
    } else {
      w.Write([QUOTE] + Decimal.Print(id.value) + [QUOTE]);
    }
  }

  method EmitAck(w: Buffer, a: Ack, graphic: rune -> bool)
    modifies w
    ensures w.data == old(w.data) + Print(AckJson(graphic, a))
  {
    ghost var t := w.data;
    w.Write(Key(LBRACE, Enquote(ID), []));
    w.Write(Quote(graphic, a.id));
    w.Write(Key(COMMA, Enquote(KIND), []));
    w.Write(Quote(graphic, a.kind));
    w.Write(Key(COMMA, Enquote(ENTITY_REV), [QUOTE]));
    w.Write(Decimal.Print(a.entityRev));
    w.Write([QUOTE] + Key(COMMA, Enquote(OPERATION_SHA256), []));
    w.Write(Quote(graphic, a.digest));
    w.Write(Key(COMMA, Enquote(SEQ), [QUOTE]));
    w.Write(Decimal.Print(a.seqNo));
    w.Write([QUOTE] + Key(COMMA, Enquote(ORIGIN_LOCAL_ID), []));
    EmitLocalId(w, a.originLocalId);
    w.Write([RBRACE]);
    AckText(t, ACK, Quote(graphic, a.id), Quote(graphic, a.kind), a.entityRev, Quote(graphic, a.digest), a.seqNo,
            LocalIdJson(a.originLocalId));
  }

  lemma AckText(d: bytes, ks: seq<bytes>, id: bytes, kind: bytes, rev: Dec, digest: bytes, seqNo: Dec, local: Value)
    requires |ks| == 6
    ensures d + Print(Record(ks, [Str(id), Str(kind), DecimalJson(rev), Str(digest), DecimalJson(seqNo), local])) ==
            d + Key(LBRACE, Enquote(ks[0]), []) + id + Key(COMMA, Enquote(ks[1]), []) + kind
            + Key(COMMA, Enquote(ks[2]), [QUOTE]) + Decimal.Print(rev) + ([QUOTE] + Key(COMMA, Enquote(ks[3]), []))
            + digest + Key(COMMA, Enquote(ks[4]), [QUOTE]) + Decimal.Print(seqNo)
            + ([QUOTE] + Key(COMMA, Enquote(ks[5]), [])) + Print(local) + [RBRACE]
  {
    var ms := Members(ks, [Str(id), Str(kind), DecimalJson(rev), Str(digest), DecimalJson(seqNo), local]);
    ObjectText(d, ms);
    ValueText(d, LBRACE, ms[0].key, Str(id));
    ValueText(Spelled(d, ms, 1), COMMA, ms[1].key, Str(kind));
    DecimalText(Spelled(d, ms, 2), COMMA, ms[2].key, rev, Key(COMMA, ms[3].key, []));
    ValueText(Spelled(d, ms, 3), COMMA, ms[3].key, Str(digest));
    DecimalText(Spelled(d, ms, 4), COMMA, ms[4].key, seqNo, Key(COMMA, ms[5].key, []));
    ValueText(Spelled(d, ms, 5), COMMA, ms[5].key, local);
  }

  method EmitChangeOps(w: Buffer, items: seq<ChangeOp>, graphic: rune -> bool)
    modifies w
    ensures w.data == old(w.data) + PrintElems(ChangeOpsJson(graphic, items))
  {
    ghost var es := ChangeOpsJson(graphic, items);
    NoTail(w.data);
    for i := 0 to |items|
      invariant w.data == old(w.data) + PrintElems(es[..i])
    {
      if i > 0 {
        w.Write([COMMA]);
      }
      EmitChangeOp(w, items[i], graphic);
      NextElementText(old(w.data), es, i);
    }
    assert es[..|items|] == es;
  }

  method EmitBool(w: Buffer, b: bool)
    modifies w
    ensures w.data == old(w.data) + Print(Bool(b))
  {
    if b {
      w.Write(Ascii("true"));
    } else {
      w.Write(Ascii("false"));
    }
  }

  /** The body of `handleChanges` after the store has answered. */
  method RenderChanges(res: ChangesResult, graphic: rune -> bool) returns (buf: Buffer)
    ensures fresh(buf) && buf.data == Print(ChangesJson(graphic, res))
  {
    buf := new Buffer();
    buf.Write(Key(LBRACE, Enquote(PROTOCOL_VERSION), [50]) + Key(COMMA, Enquote(EPOCH), [QUOTE]));
    buf.Write(Decimal.Print(res.epoch));
    buf.Write([QUOTE] + Key(COMMA, Enquote(HEAD_SEQ), [QUOTE]));
    buf.Write(Decimal.Print(res.headSeq));
    buf.Write([QUOTE] + Key(COMMA, Enquote(MORE), []));
    EmitBool(buf, res.more);
    buf.Write(Key(COMMA, Enquote(OPS), [LBRACKET]));
    ghost var es := ChangeOpsJson(graphic, res.ops);
    EmitChangeOps(buf, res.ops, graphic);
    buf.Write([RBRACKET] + [RBRACE]);
    ChangesText(CHANGES, res.epoch, res.headSeq, res.more, es);
  }

  lemma ChangesText(ks: seq<bytes>, epoch: Dec, head: Dec, more: bool, es: seq<Value>)
    requires |ks| == 5
    ensures Print(Record(ks, [Number(2), DecimalJson(epoch), DecimalJson(head), Bool(more), Arr(es)])) ==
            [] + (Key(LBRACE, Enquote(ks[0]), [50]) + Key(COMMA, Enquote(ks[1]), [QUOTE])) + Decimal.Print(epoch)
            + ([QUOTE] + Key(COMMA, Enquote(ks[2]), [QUOTE])) + Decimal.Print(head)
            + ([QUOTE] + Key(COMMA, Enquote(ks[3]), [])) + Print(Bool(more))
            + Key(COMMA, Enquote(ks[4]), [LBRACKET]) + PrintElems(es) + ([RBRACKET] + [RBRACE])
  {
    var ms := Members(ks, [Number(2), DecimalJson(epoch), DecimalJson(head), Bool(more), Arr(es)]);
    ObjectText([], ms);
    NoHead(Print(Obj(ms)));
    VersionText(ms[0].key, Key(COMMA, ms[1].key, [QUOTE]));
    DecimalText(Spelled([], ms, 1), COMMA, ms[1].key, epoch, Key(COMMA, ms[2].key, [QUOTE]));
    DecimalText(Spelled([], ms, 2), COMMA, ms[2].key, head, Key(COMMA, ms[3].key, []));
    ValueText(Spelled([], ms, 3), COMMA, ms[3].key, Bool(more));
    ListText(Spelled([], ms, 4), COMMA, ms[4].key, es, [RBRACE]);
  }

  lemma VersionText(key: bytes, next: bytes)
    ensures [] + (Key(LBRACE, key, [50]) + next) == [] + [LBRACE] + PrintMember(Member(key, Number(2))) + next
  {
    assert Decimal.Print(2) == [50];
    Parts5([], [LBRACE], key, [COLON], [50], []);
    Parts([] + [LBRACE], key, [COLON], [50]);
    Parts([], Key(LBRACE, key, [50]), next, []);
  }

  method EmitAcks(w: Buffer, items: seq<Ack>, graphic: rune -> bool)
    modifies w
    ensures w.data == old(w.data) + PrintElems(AcksJson(graphic, items))
  {
    ghost var es := AcksJson(graphic, items);
    NoTail(w.data);
    for i := 0 to |items|
      invariant w.data == old(w.data) + PrintElems(es[..i])
    {
      if i > 0 {
        w.Write([COMMA]);
      }
      EmitAck(w, items[i], graphic);
      NextElementText(old(w.data), es, i);
    }
    assert es[..|items|] == es;
  }

  /** The body of `handlePush` after the store has answered. */
  method RenderPush(res: PushResult, graphic: rune -> bool) returns (buf: Buffer)
    ensures fresh(buf) && buf.data == Print(PushJson(graphic, res))
  {
    buf := new Buffer();
    buf.Write(Key(LBRACE, Enquote(ACKED), [LBRACKET]));
    ghost var es := AcksJson(graphic, res.acks);
    EmitAcks(buf, res.acks, graphic);
    buf.Write([RBRACKET] + Key(COMMA, Enquote(HEAD_SEQ), [QUOTE]));
    buf.Write(Decimal.Print(res.headSeq));
    buf.Write([QUOTE] + Key(COMMA, Enquote(PROJECTED_SEQ), [QUOTE]));
    buf.Write(Decimal.Print(res.projectedSeq));
    buf.Write([QUOTE] + [RBRACE]);
    PushText(PUSH, es, res.headSeq, res.projectedSeq);
  }

  lemma PushText(ks: seq<bytes>, es: seq<Value>, head: Dec, projected: Dec)
    requires |ks| == 3
    ensures Print(Record(ks, [Arr(es), DecimalJson(head), DecimalJson(projected)])) ==
            [] + Key(LBRACE, Enquote(ks[0]), [LBRACKET]) + PrintElems(es)
            + ([RBRACKET] + Key(COMMA, Enquote(ks[1]), [QUOTE])) + Decimal.Print(head)
            + ([QUOTE] + Key(COMMA, Enquote(ks[2]), [QUOTE])) + Decimal.Print(projected) + ([QUOTE] + [RBRACE])
  {
    var ms := Members(ks, [Arr(es), DecimalJson(head), DecimalJson(projected)]);
    ObjectText([], ms);
    NoHead(Print(Obj(ms)));
    ListText([], LBRACE, ms[0].key, es, Key(COMMA, ms[1].key, [QUOTE]));
    DecimalText(Spelled([], ms, 1), COMMA, ms[1].key, head, Key(COMMA, ms[2].key, [QUOTE]));
    DecimalText(Spelled([], ms, 2), COMMA, ms[2].key, projected, [RBRACE]);
  }

  /** The body of `handleStatus`. */
  method RenderStatus(st: Status) returns (buf: Buffer)
    ensures fresh(buf) && buf.data == Print(StatusJson(st))
  {
    buf := new Buffer();
    buf.Write(Key(LBRACE, Enquote(PROTOCOL_VERSION), [50]) + Key(COMMA, Enquote(EPOCH), [QUOTE]));
    buf.Write(Decimal.Print(st.epoch));
    buf.Write([QUOTE] + Key(COMMA, Enquote(HEAD_SEQ), [QUOTE]));
    buf.Write(Decimal.Print(st.headSeq));
    buf.Write([QUOTE] + Key(COMMA, Enquote(PROJECTED_SEQ), [QUOTE]));
    buf.Write(Decimal.Print(st.projectedSeq));
    buf.Write([QUOTE] + [RBRACE]);
    StatusText(STATUS, st.epoch, st.headSeq, st.projectedSeq);
  }

  lemma StatusText(ks: seq<bytes>, epoch: Dec, head: Dec, projected: Dec)
    requires |ks| == 4
    ensures Print(Record(ks, [Number(2), DecimalJson(epoch), DecimalJson(head), DecimalJson(projected)])) ==
            [] + (Key(LBRACE, Enquote(ks[0]), [50]) + Key(COMMA, Enquote(ks[1]), [QUOTE])) + Decimal.Print(epoch)
            + ([QUOTE] + Key(COMMA, Enquote(ks[2]), [QUOTE])) + Decimal.Print(head)
            + ([QUOTE] + Key(COMMA, Enquote(ks[3]), [QUOTE])) + Decimal.Print(projected) + ([QUOTE] + [RBRACE])
  {
    var ms := Members(ks, [Number(2), DecimalJson(epoch), DecimalJson(head), DecimalJson(projected)]);
    ObjectText([], ms);
    NoHead(Print(Obj(ms)));
    VersionText(ms[0].key, Key(COMMA, ms[1].key, [QUOTE]));
    DecimalText(Spelled([], ms, 1), COMMA, ms[1].key, epoch, Key(COMMA, ms[2].key, [QUOTE]));
    DecimalText(Spelled([], ms, 2), COMMA, ms[2].key, head, Key(COMMA, ms[3].key, [QUOTE]));
    DecimalText(Spelled([], ms, 3), COMMA, ms[3].key, projected, [RBRACE]);
  }
}
