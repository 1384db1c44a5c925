/**
 * The exact text of the responses: the constants of internal/proto/emit.go and
 * internal/hub/handlers.go with the values between them.
 */
module Emitted {
  import opened Bytes
  import Decimal
  import opened JsonString
  import opened Json
  import opened GoQuote
  import opened Unicode
  import opened Wire
  import Literals

  /** The bytes of a string constant, all of whose characters are ASCII. */
  function Text(s: string): bytes { seq(|s|, i requires 0 <= i < |s| => if s[i] as int < 128 then s[i] as int else 0) }

  lemma TextIsAscii(s: string)
    requires Literals.IsAscii(s)
    ensures Text(s) == Ascii(s)
  {
  }

  lemma KeyParts(separator: byte, name: bytes, opening: bytes)
    ensures Key(separator, Enquote(name), opening) == [separator, 0x22] + name + ([0x22, 0x3A] + opening)
  {
  }

  lemma ClosedKeyParts(closing: byte, separator: byte, name: bytes, opening: bytes)
    ensures [closing] + Key(separator, Enquote(name), opening) ==
            [closing, separator, 0x22] + name + ([0x22, 0x3A] + opening)
  {
  }

  // The constants.

  lemma SeqFirst()
    ensures Key(LBRACE, Enquote(SEQ), [QUOTE]) == Text("{\"seq\":\"")
  {
    TextIsAscii("{\"seq\":\"");
    Literals.SeqFirst();
    KeyParts(LBRACE, SEQ, [QUOTE]);
  }

  lemma ServerTs()
    ensures [QUOTE] + Key(COMMA, Enquote(SERVER_TS), [QUOTE]) == Text("\",\"server_ts\":\"")
  {
    TextIsAscii("\",\"server_ts\":\"");
    Literals.ServerTs();
    ClosedKeyParts(QUOTE, COMMA, SERVER_TS, [QUOTE]);
  }

  lemma Body()
    ensures [QUOTE] + Key(COMMA, Enquote(BODY), []) == Text("\",\"body\":")
  {
    TextIsAscii("\",\"body\":");
    Literals.Body();
    ClosedKeyParts(QUOTE, COMMA, BODY, []);
  }

  lemma OperationAfterBody()
    ensures Key(COMMA, Enquote(OPERATION_SHA256), []) == Text(",\"operation_sha256\":")
  {
    TextIsAscii(",\"operation_sha256\":");
    Literals.OperationAfterBody();
    KeyParts(COMMA, OPERATION_SHA256, []);
  }

  lemma Id()
    ensures Key(LBRACE, Enquote(ID), []) == Text("{\"id\":")
  {
    TextIsAscii("{\"id\":");
    Literals.Id();
    KeyParts(LBRACE, ID, []);
  }

  lemma Kind()
    ensures Key(COMMA, Enquote(KIND), []) == Text(",\"kind\":")
  {
    TextIsAscii(",\"kind\":");
    Literals.Kind();
    KeyParts(COMMA, KIND, []);
  }

  lemma EntityRev()
    ensures Key(COMMA, Enquote(ENTITY_REV), [QUOTE]) == Text(",\"entity_rev\":\"")
  {
    TextIsAscii(",\"entity_rev\":\"");
    Literals.EntityRev();
    KeyParts(COMMA, ENTITY_REV, [QUOTE]);
  }

  lemma OperationAfterRev()
    ensures [QUOTE] + Key(COMMA, Enquote(OPERATION_SHA256), []) == Text("\",\"operation_sha256\":")
  {
    TextIsAscii("\",\"operation_sha256\":");
    Literals.OperationAfterRev();
    ClosedKeyParts(QUOTE, COMMA, OPERATION_SHA256, []);
  }

  lemma SeqAfterOperation()
    ensures Key(COMMA, Enquote(SEQ), [QUOTE]) == Text(",\"seq\":\"")
  {
    TextIsAscii(",\"seq\":\"");
    Literals.SeqAfterOperation();
    KeyParts(COMMA, SEQ, [QUOTE]);
  }

  lemma OriginLocalId()
    ensures [QUOTE] + Key(COMMA, Enquote(ORIGIN_LOCAL_ID), []) == Text("\",\"origin_local_id\":")
  {
    TextIsAscii("\",\"origin_local_id\":");
    Literals.OriginLocalId();
    ClosedKeyParts(QUOTE, COMMA, ORIGIN_LOCAL_ID, []);
  }

  lemma HeadSeq()
    ensures [QUOTE] + Key(COMMA, Enquote(HEAD_SEQ), [QUOTE]) == Text("\",\"head_seq\":\"")
  {
    TextIsAscii("\",\"head_seq\":\"");
    Literals.HeadSeq();
    ClosedKeyParts(QUOTE, COMMA, HEAD_SEQ, [QUOTE]);
  }

  lemma More()
    ensures [QUOTE] + Key(COMMA, Enquote(MORE), []) == Text("\",\"more\":")
  {
    TextIsAscii("\",\"more\":");
    Literals.More();
    ClosedKeyParts(QUOTE, COMMA, MORE, []);
  }

  lemma Ops()
    ensures Key(COMMA, Enquote(OPS), [LBRACKET]) == Text(",\"ops\":[")
  {
    TextIsAscii(",\"ops\":[");
    Literals.Ops();
    KeyParts(COMMA, OPS, [LBRACKET]);
  }

  lemma Acked()
    ensures Key(LBRACE, Enquote(ACKED), [LBRACKET]) == Text("{\"acked\":[")
  {
    TextIsAscii("{\"acked\":[");
    Literals.Acked();
    KeyParts(LBRACE, ACKED, [LBRACKET]);
  }

  lemma HeadSeqAfterAcks()
    ensures [RBRACKET] + Key(COMMA, Enquote(HEAD_SEQ), [QUOTE]) == Text("],\"head_seq\":\"")
  {
    TextIsAscii("],\"head_seq\":\"");
    Literals.HeadSeqAfterAcks();
    ClosedKeyParts(RBRACKET, COMMA, HEAD_SEQ, [QUOTE]);
  }

  lemma ProjectedSeq()
    ensures [QUOTE] + Key(COMMA, Enquote(PROJECTED_SEQ), [QUOTE]) == Text("\",\"projected_seq\":\"")
  {
    TextIsAscii("\",\"projected_seq\":\"");
    Literals.ProjectedSeq();
    ClosedKeyParts(QUOTE, COMMA, PROJECTED_SEQ, [QUOTE]);
  }

  lemma ProtocolVersion()
    ensures Key(LBRACE, Enquote(PROTOCOL_VERSION), [50]) == Text("{\"protocol_version\":2")
  {
    TextIsAscii("{\"protocol_version\":2");
    Literals.ProtocolVersion();
    KeyParts(LBRACE, PROTOCOL_VERSION, [50]);
  }

  lemma Epoch()
    ensures Key(COMMA, Enquote(EPOCH), [QUOTE]) == Text(",\"epoch\":\"")
  {
    TextIsAscii(",\"epoch\":\"");
    Literals.Epoch();
    KeyParts(COMMA, EPOCH, [QUOTE]);
  }

  lemma Closers()
    ensures Text("}") == [RBRACE] && Text("]}") == [RBRACKET] + [RBRACE] && Text("\"}") == [QUOTE] + [RBRACE]
  {
  }

  lemma BoolIsText(b: bool)
    ensures Print(Bool(b)) == if b then Text("true") else Text("false")
  {
    TextIsAscii("true");
    TextIsAscii("false");
  }

  // ----- The responses -----

  /** One entry of a changes page. */
  lemma ChangeOpIsText(graphic: rune -> bool, op: ChangeOp)
    ensures Print(ChangeOpJson(graphic, op)) ==
            Text("{\"seq\":\"") + Decimal.Print(op.seqNo) + Text("\",\"server_ts\":\"") + Decimal.Print(op.serverTs)
            + Text("\",\"body\":") + op.literal + Text(",\"operation_sha256\":") + Quote(graphic, op.digest)
            + Text("}")
  {
    ChangeOpText([], CHANGE_OP, op.seqNo, op.serverTs, op.literal, Quote(graphic, op.digest));
    SeqFirst();
    ServerTs();
    Body();
    OperationAfterBody();
    NoHead(Print(ChangeOpJson(graphic, op)));
    NoHead(Text("{\"seq\":\""));
    Closers();
  }

  /** One ack. */
  lemma AckIsText(graphic: rune -> bool, a: Ack)
    ensures Print(AckJson(graphic, a)) ==
            Text("{\"id\":") + Quote(graphic, a.id) + Text(",\"kind\":") + Quote(graphic, a.kind)
            + Text(",\"entity_rev\":\"") + Decimal.Print(a.entityRev) + Text("\",\"operation_sha256\":")
            + Quote(graphic, a.digest) + Text(",\"seq\":\"") + Decimal.Print(a.seqNo)
            + Text("\",\"origin_local_id\":") + LocalIdText(a.originLocalId) + Text("}")
  {
    AckText([], ACK, Quote(graphic, a.id), Quote(graphic, a.kind), a.entityRev, Quote(graphic, a.digest), a.seqNo,
            LocalIdJson(a.originLocalId));
    Id();
    Kind();
    EntityRev();
    OperationAfterRev();
    SeqAfterOperation();
    OriginLocalId();
    NoHead(Print(AckJson(graphic, a)));
    NoHead(Text("{\"id\":"));
    Closers();
    LocalIdIsText(a.originLocalId);
  }

  function LocalIdText(id: Option<Dec>): bytes {
    match id
    case None => Text("null")
    case Some(d) => Text("\"") + Decimal.Print(d) + Text("\"")
  }

  lemma LocalIdIsText(id: Option<Dec>)
    ensures Print(LocalIdJson(id)) == LocalIdText(id)
  {
    assert Text("\"") == [QUOTE] && Text("null") == Ascii("null");
  }

  /** Printed values, with commas between them. */
  function Listed(es: seq<bytes>): bytes {
    if es == [] then [] else if |es| == 1 then es[0] else es[0] + Text(",") + Listed(es[1..])
  }

  lemma {:induction false} ElementsAreText(es: seq<Value>, texts: seq<bytes>)
    requires |es| == |texts| && forall i :: 0 <= i < |es| ==> Print(es[i]) == texts[i]
    ensures PrintElems(es) == Listed(texts)
  {
    assert Text(",") == [COMMA];
    if es != [] { ElementsAreText(es[1..], texts[1..]); }
  }

  /** A changes page. */
  lemma ChangesIsText(graphic: rune -> bool, res: ChangesResult)
    ensures Print(ChangesJson(graphic, res)) ==
            Text("{\"protocol_version\":2") + Text(",\"epoch\":\"") + Decimal.Print(res.epoch)
            + Text("\",\"head_seq\":\"") + Decimal.Print(res.headSeq) + Text("\",\"more\":")
            + (if res.more then Text("true") else Text("false")) + Text(",\"ops\":[")
            + PrintElems(ChangeOpsJson(graphic, res.ops)) + Text("]}")
  {
    ChangesText(CHANGES, res.epoch, res.headSeq, res.more, ChangeOpsJson(graphic, res.ops));
    ProtocolVersion();
    Epoch();
    HeadSeq();
    More();
    Ops();
    NoHead(Text("{\"protocol_version\":2") + Text(",\"epoch\":\""));
    Closers();
    BoolIsText(res.more);
  }

  /** The answer to a push. */
  lemma PushIsText(graphic: rune -> bool, res: PushResult)
    ensures Print(PushJson(graphic, res)) ==
            Text("{\"acked\":[") + PrintElems(AcksJson(graphic, res.acks)) + Text("],\"head_seq\":\"")
            + Decimal.Print(res.headSeq) + Text("\",\"projected_seq\":\"") + Decimal.Print(res.projectedSeq)
            + Text("\"}")
  {
    PushText(PUSH, AcksJson(graphic, res.acks), res.headSeq, res.projectedSeq);
    Acked();
    HeadSeqAfterAcks();
    ProjectedSeq();
    NoHead(Text("{\"acked\":["));
    Closers();
  }

  /** A status response. */
  lemma StatusIsText(st: Status)
    ensures Print(StatusJson(st)) ==
            Text("{\"protocol_version\":2") + Text(",\"epoch\":\"") + Decimal.Print(st.epoch)
            + Text("\",\"head_seq\":\"") + Decimal.Print(st.headSeq) + Text("\",\"projected_seq\":\"")
            + Decimal.Print(st.projectedSeq) + Text("\"}")
  {
    StatusText(STATUS, st.epoch, st.headSeq, st.projectedSeq);
    ProtocolVersion();
    Epoch();
    HeadSeq();
    ProjectedSeq();
    NoHead(Text("{\"protocol_version\":2") + Text(",\"epoch\":\""));
    Closers();
  }
}
