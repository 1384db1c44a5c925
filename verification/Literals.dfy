/** The string constants the responses are printed from, taken apart into punctuation and names. */
module Literals {
  import opened Bytes

  predicate IsAscii(s: string) { forall i :: 0 <= i < |s| ==> s[i] as int < 128 }

  lemma Joined(whole: string, before: string, name: string, after: string)
    requires IsAscii(before) && IsAscii(name) && IsAscii(after) && whole == before + name + after
    ensures IsAscii(whole) && Ascii(whole) == Ascii(before) + Ascii(name) + Ascii(after)
  {
    forall i | 0 <= i < |whole| ensures whole[i] as int < 128 {
      assert whole[i] == if i < |before| then before[i] else if i < |before| + |name| then name[i - |before|]
                         else after[i - |before| - |name|];
    }
  }

  lemma SeqFirst()
    ensures Ascii("{\"seq\":\"") == [0x7B, 0x22] + Ascii("seq") + [0x22, 0x3A, 0x22]
  {
    Joined("{\"seq\":\"", "{\"", "seq", "\":\"");
  }

  lemma ServerTs()
    ensures Ascii("\",\"server_ts\":\"") == [0x22, 0x2C, 0x22] + Ascii("server_ts") + [0x22, 0x3A, 0x22]
  {
    Joined("\",\"server_ts\":\"", "\",\"", "server_ts", "\":\"");
  }

  lemma Body()
    ensures Ascii("\",\"body\":") == [0x22, 0x2C, 0x22] + Ascii("body") + [0x22, 0x3A]
  {
    Joined("\",\"body\":", "\",\"", "body", "\":");
  }

  lemma OperationAfterBody()
    ensures Ascii(",\"operation_sha256\":") == [0x2C, 0x22] + Ascii("operation_sha256") + [0x22, 0x3A]
  {
    Joined(",\"operation_sha256\":", ",\"", "operation_sha256", "\":");
  }

  lemma Id()
    ensures Ascii("{\"id\":") == [0x7B, 0x22] + Ascii("id") + [0x22, 0x3A]
  {
    Joined("{\"id\":", "{\"", "id", "\":");
  }

  lemma Kind()
    ensures Ascii(",\"kind\":") == [0x2C, 0x22] + Ascii("kind") + [0x22, 0x3A]
  {
    Joined(",\"kind\":", ",\"", "kind", "\":");
  }

  lemma EntityRev()
    ensures Ascii(",\"entity_rev\":\"") == [0x2C, 0x22] + Ascii("entity_rev") + [0x22, 0x3A, 0x22]
  {
    Joined(",\"entity_rev\":\"", ",\"", "entity_rev", "\":\"");
  }

  lemma OperationAfterRev()
    ensures Ascii("\",\"operation_sha256\":") == [0x22, 0x2C, 0x22] + Ascii("operation_sha256") + [0x22, 0x3A]
  {
    Joined("\",\"operation_sha256\":", "\",\"", "operation_sha256", "\":");
  }

  lemma SeqAfterOperation()
    ensures Ascii(",\"seq\":\"") == [0x2C, 0x22] + Ascii("seq") + [0x22, 0x3A, 0x22]
  {
    Joined(",\"seq\":\"", ",\"", "seq", "\":\"");
  }

  lemma OriginLocalId()
    ensures Ascii("\",\"origin_local_id\":") == [0x22, 0x2C, 0x22] + Ascii("origin_local_id") + [0x22, 0x3A]
  {
    Joined("\",\"origin_local_id\":", "\",\"", "origin_local_id", "\":");
  }

  lemma HeadSeq()
    ensures Ascii("\",\"head_seq\":\"") == [0x22, 0x2C, 0x22] + Ascii("head_seq") + [0x22, 0x3A, 0x22]
  {
    Joined("\",\"head_seq\":\"", "\",\"", "head_seq", "\":\"");
  }

  lemma More()
    ensures Ascii("\",\"more\":") == [0x22, 0x2C, 0x22] + Ascii("more") + [0x22, 0x3A]
  {
    Joined("\",\"more\":", "\",\"", "more", "\":");
  }

  lemma Ops()
    ensures Ascii(",\"ops\":[") == [0x2C, 0x22] + Ascii("ops") + [0x22, 0x3A, 0x5B]
  {
    Joined(",\"ops\":[", ",\"", "ops", "\":[");
  }

  lemma Acked()
    ensures Ascii("{\"acked\":[") == [0x7B, 0x22] + Ascii("acked") + [0x22, 0x3A, 0x5B]
  {
    Joined("{\"acked\":[", "{\"", "acked", "\":[");
  }

  lemma HeadSeqAfterAcks()
    ensures Ascii("],\"head_seq\":\"") == [0x5D, 0x2C, 0x22] + Ascii("head_seq") + [0x22, 0x3A, 0x22]
  {
    Joined("],\"head_seq\":\"", "],\"", "head_seq", "\":\"");
  }

  lemma ProjectedSeq()
    ensures Ascii("\",\"projected_seq\":\"") == [0x22, 0x2C, 0x22] + Ascii("projected_seq") + [0x22, 0x3A, 0x22]
  {
    Joined("\",\"projected_seq\":\"", "\",\"", "projected_seq", "\":\"");
  }

  lemma ProtocolVersion()
    ensures Ascii("{\"protocol_version\":2") == [0x7B, 0x22] + Ascii("protocol_version") + [0x22, 0x3A, 0x32]
  {
    Joined("{\"protocol_version\":2", "{\"", "protocol_version", "\":2");
  }

  lemma Epoch()
    ensures Ascii(",\"epoch\":\"") == [0x2C, 0x22] + Ascii("epoch") + [0x22, 0x3A, 0x22]
  {
    Joined(",\"epoch\":\"", ",\"", "epoch", "\":\"");
  }
}
