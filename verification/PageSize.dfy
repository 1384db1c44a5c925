/** How long a changes response can get: internal/store/changes.go, internal/hub/handlers.go. */
module PageSize {
  import opened Bytes
  import Decimal
  import opened JsonString
  import Json
  import opened GoQuote
  import opened Unicode
  import opened Wire

  /** Everything of an entry but its literal, and the comma before it. */
  const ENTRY_OVERHEAD: nat := 137

  /** Everything of a response but its entries. */
  const ENVELOPE: nat := 108

  function Literals(ops: seq<ChangeOp>): nat {
    if ops == [] then 0 else |ops[0].literal| + Literals(ops[1..])
  }

  /** What the store serves: 63-bit numbers and a 43-byte digest that needs no escaping. */
  predicate Stored(op: ChangeOp) {
    op.seqNo <= Decimal.MAX_INT64 && op.serverTs <= Decimal.MAX_INT64 && |op.digest| == 43 && PlainText(op.digest)
  }

  lemma EntryText(ks: seq<bytes>, seqNo: Dec, ts: Dec, l: bytes, digest: bytes)
    requires |ks| == 4 && seqNo <= Decimal.MAX_INT64 && ts <= Decimal.MAX_INT64
    ensures |Json.Print(Record(ks, [DecimalJson(seqNo), DecimalJson(ts), Json.Str(l), Json.Str(digest)]))|
            <= |ks[0]| + |ks[1]| + |ks[2]| + |ks[3]| + |l| + |digest| + 59
  {
    ChangeOpText([], ks, seqNo, ts, l, digest);
    Decimal.DecLength(seqNo);
    Decimal.DecLength(ts);
  }

  lemma EntryLength(graphic: rune -> bool, op: ChangeOp)
    requires Stored(op)
    ensures |Json.Print(ChangeOpJson(graphic, op))| <= |op.literal| + ENTRY_OVERHEAD - 1
  {
    PlainTextLiteral(op.digest);
    assert |SEQ| == 3 && |SERVER_TS| == 9 && |BODY| == 4 && |OPERATION_SHA256| == 16;
    assert |Quote(graphic, op.digest)| == 45;
    EntryText(CHANGE_OP, op.seqNo, op.serverTs, op.literal, Quote(graphic, op.digest));
  }

  lemma {:induction false} EntriesLength(es: seq<Json.Value>, ops: seq<ChangeOp>)
    requires |es| == |ops|
    requires forall i :: 0 <= i < |es| ==> |Json.Print(es[i])| <= |ops[i].literal| + ENTRY_OVERHEAD - 1
    ensures |Json.PrintElems(es)| <= Literals(ops) + ENTRY_OVERHEAD * |ops|
  {
    if es != [] { EntriesLength(es[1..], ops[1..]); }
  }

  lemma EnvelopeText(ks: seq<bytes>, epoch: Dec, head: Dec, more: bool, es: seq<Json.Value>)
    requires |ks| == 5 && head <= Decimal.MAX_INT64
    ensures |Json.Print(Record(ks, [Json.Number(2), DecimalJson(epoch), DecimalJson(head), Json.Bool(more),
                                    Json.Arr(es)]))|
            <= |ks[0]| + |ks[1]| + |ks[2]| + |ks[3]| + |ks[4]| + |Json.PrintElems(es)| + 72
  {
    ChangesText(ks, epoch, head, more, es);
    Decimal.DecLength(epoch);
    Decimal.DecLength(head);
  }

  /** A response is its literals, at most 137 bytes more for each entry, and at most 108 bytes around them. */
  lemma ResponseLength(graphic: rune -> bool, res: ChangesResult)
    requires res.headSeq <= Decimal.MAX_INT64 && forall op | op in res.ops :: Stored(op)
    ensures |Json.Print(ChangesJson(graphic, res))| <= Literals(res.ops) + ENTRY_OVERHEAD * |res.ops| + ENVELOPE
  {
    var es := ChangeOpsJson(graphic, res.ops);
    forall i | 0 <= i < |es| ensures |Json.Print(es[i])| <= |res.ops[i].literal| + ENTRY_OVERHEAD - 1 {
      EntryLength(graphic, res.ops[i]);
    }
    EntriesLength(es, res.ops);
    EnvelopeLength(res.epoch, res.headSeq, res.more, es);
  }

  lemma EnvelopeLength(epoch: Dec, head: Dec, more: bool, es: seq<Json.Value>)
    requires head <= Decimal.MAX_INT64
    ensures |Json.Print(Record(CHANGES, [Json.Number(2), DecimalJson(epoch), DecimalJson(head), Json.Bool(more),
                                         Json.Arr(es)]))|
            <= |Json.PrintElems(es)| + ENVELOPE
  {
    assert |PROTOCOL_VERSION| == 16 && |EPOCH| == 5 && |HEAD_SEQ| == 8 && |MORE| == 4 && |OPS| == 3;
    EnvelopeText(CHANGES, epoch, head, more, es);
  }
}
