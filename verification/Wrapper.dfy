/**
 * Validation of one pushed operation: internal/proto/wrapper.go, at the level of JSON tokens.
 * The string literal grammar is modelled in full (JsonString); the rest of encoding/json and
 * SHA-256 are the functions of an `Env`.
 */
module Wrapper {
  import opened Bytes
  import Decimal
  import opened Digest
  import Json
  import opened JsonString
  import opened GoQuote
  import Unicode

  type Dec = Decimal.Dec

  const MAX_BODY_BYTES: nat := 256_000
  const MAX_BODY_LITERAL: nat := 6 * MAX_BODY_BYTES + 2
  const MAX_OPS_PER_PUSH: nat := 1_000
  const MAX_DEVICE_ID_LEN: nat := 128

  datatype Reason = WrapperShape | DigestMismatch | BodyShape | UnknownKind | EntityRev | TooLarge

  /** The calls into code outside the repository. */
  datatype Env = Env(
    /** The members of a JSON object in order, key decoded and value raw, if that is what the text is. */
    tokens: bytes -> Option<seq<(bytes, bytes)>>,
    /** `json.Unmarshal` into a string: `null` gives the empty string. */
    text: bytes -> Option<bytes>,
    /** base64url, unpadded, of the SHA-256. */
    digest: bytes -> bytes)

  datatype Op = Op(literal: bytes, digest: bytes, id: bytes, kind: bytes, entityRev: Dec,
                   originDeviceId: bytes, originLocalId: Option<Dec>)

  // ----- Objects without repeated keys -----

  predicate DistinctKeys(ps: seq<(bytes, bytes)>) {
    forall i, j :: 0 <= i < j < |ps| ==> ps[i].0 != ps[j].0
  }

  /** `m` has exactly the members listed, none of them overwritten by a later one. */
  ghost predicate Holds(m: map<bytes, bytes>, ps: seq<(bytes, bytes)>) {
    && DistinctKeys(ps)
    && (forall p | p in ps :: p.0 in m && m[p.0] == p.1)
    && (forall k | k in m :: (k, m[k]) in ps)
  }

  lemma HoldsNext(m: map<bytes, bytes>, ps: seq<(bytes, bytes)>, p: (bytes, bytes))
    requires Holds(m, ps) && p.0 !in m
    ensures Holds(m[p.0 := p.1], ps + [p])
  {
    var qs := ps + [p];
    forall i, j | 0 <= i < j < |qs| ensures qs[i].0 != qs[j].0 {
      if j == |ps| { assert ps[i] in ps; }
    }
    assert p in qs;
    var m' := m[p.0 := p.1];
    forall k | k in m' ensures (k, m'[k]) in qs {
      if k != p.0 {
        assert (k, m[k]) in ps;
        assert forall x :: x in ps ==> x in qs;
      }
    }
  }

  /** A repeated key is an error, never a silent last-wins. */
  method ObjectFields(env: Env, data: bytes) returns (fields: Option<map<bytes, bytes>>)
    ensures fields.Some? ==> env.tokens(data).Some? && Holds(fields.value, env.tokens(data).value)
    ensures fields.None? ==> env.tokens(data).None? || !DistinctKeys(env.tokens(data).value)
  {
    if env.tokens(data).None? {
      return None;
    }
    var ps := env.tokens(data).value;
    var m: map<bytes, bytes> := map[];
    for i := 0 to |ps|
      invariant Holds(m, ps[..i])
    {
      var (key, raw) := ps[i];
      if key in m {
        assert (key, m[key]) in ps[..i];
        var j :| 0 <= j < i && ps[j] == (key, m[key]);
        assert ps[j].0 == ps[i].0;
        return None;
      }
      HoldsNext(m, ps[..i], ps[i]);
      assert ps[..i + 1] == ps[..i] + [ps[i]];
      m := m[key := raw];
    }
    assert ps[..|ps|] == ps;
    return Some(m);
  }

  // ----- What an accepted operation is -----

  const BODY: bytes := Ascii("body")
  const OPERATION_SHA256: bytes := Ascii("operation_sha256")
  const KIND: bytes := Ascii("kind")
  const ID: bytes := Ascii("id")
  const ENTITY_REV: bytes := Ascii("entity_rev")
  const ORIGIN_DEVICE_ID: bytes := Ascii("origin_device_id")
  const ORIGIN_LOCAL_ID: bytes := Ascii("origin_local_id")
  const NULL: bytes := Ascii("null")

  const WRAPPER_KEYS: seq<bytes> := [BODY, OPERATION_SHA256]

  const BODY_KEYS: seq<bytes> :=
    [Ascii("body_schema_version"), Ascii("deleted"), Ascii("deleted_at"), ENTITY_REV, ID, KIND, Ascii("mutation"),
     ORIGIN_DEVICE_ID, ORIGIN_LOCAL_ID, Ascii("payload"), Ascii("payload_schema_version"), Ascii("payload_sha256")]

  const KINDS: seq<bytes> := [Ascii("observation"), Ascii("summary"), Ascii("prompt"), Ascii("mutation")]

  function KeySet(keys: seq<bytes>): set<bytes> { set k | k in keys }

  /** An object whose keys are exactly `keys`, each once. */
  ghost predicate Fields(env: Env, data: bytes, keys: seq<bytes>, m: map<bytes, bytes>) {
    && env.tokens(data).Some?
    && Holds(m, env.tokens(data).value)
    && m.Keys == KeySet(keys)
  }

  /** A null local id, or the canonical decimal of a local id. */
  predicate LocalIdSays(env: Env, raw: bytes, id: Option<Dec>) {
    match id
    case None => raw == NULL
    case Some(d) => raw != NULL && env.text(raw) == Some(Decimal.Print(d))
  }

  /** What the decoded body says of an operation's routing fields. */
  ghost predicate BodySays(env: Env, decoded: bytes, m: map<bytes, bytes>, op: Op) {
    && Fields(env, decoded, BODY_KEYS, m)
    && KIND in m && env.text(m[KIND]) == Some(op.kind) && op.kind in KINDS
    && ID in m && env.text(m[ID]) == Some(op.id) && op.id != []
    && ENTITY_REV in m && env.text(m[ENTITY_REV]) == Some(Decimal.Print(op.entityRev)) && op.entityRev > 0
    && ORIGIN_DEVICE_ID in m && env.text(m[ORIGIN_DEVICE_ID]) == Some(op.originDeviceId)
    && 1 <= |op.originDeviceId| <= 128
    && ORIGIN_LOCAL_ID in m && LocalIdSays(env, m[ORIGIN_LOCAL_ID], op.originLocalId)
  }

  /** What every stored operation is: its literal decodes to a body with its digest, id, kind and revision. */
  ghost predicate Genuine(env: Env, op: Op) {
    && Accepted(op.literal)
    && |Unquote(op.literal).value| <= 256_000
    && env.digest(Unquote(op.literal).value) == op.digest
    && ValidDigest(op.digest)
    && exists m :: BodySays(env, Unquote(op.literal).value, m, op)
  }

  ghost predicate WrapperSays(env: Env, wrapper: bytes, m: map<bytes, bytes>, op: Op) {
    && Fields(env, wrapper, WRAPPER_KEYS, m)
    && BODY in m && m[BODY] == op.literal
    && OPERATION_SHA256 in m && env.text(m[OPERATION_SHA256]) == Some(op.digest)
  }

  /** The wrapper carries the operation. The looser guard on the literal is not part of the meaning. */
  ghost predicate Carries(env: Env, wrapper: bytes, op: Op) {
    && |wrapper| <= 1_537_026
    && (exists m :: WrapperSays(env, wrapper, m, op))
    && Genuine(env, op)
  }

  // The same of a wrapper and of a body with every name written out (docs/protocol.md).

  ghost predicate IsText(env: Env, m: map<bytes, bytes>, key: bytes, value: bytes) {
    key in m && env.text(m[key]) == Some(value)
  }

  ghost predicate IsRaw(m: map<bytes, bytes>, key: bytes, value: bytes) { key in m && m[key] == value }

  ghost predicate DocumentedWrapper(env: Env, wrapper: bytes, m: map<bytes, bytes>, op: Op) {
    && env.tokens(wrapper).Some? && Holds(m, env.tokens(wrapper).value)
    && m.Keys == {Ascii("body"), Ascii("operation_sha256")}
    && IsRaw(m, Ascii("body"), op.literal) && IsText(env, m, Ascii("operation_sha256"), op.digest)
  }

  ghost predicate DocumentedKeys(keys: set<bytes>) {
    keys == {Ascii("body_schema_version"), Ascii("deleted"), Ascii("deleted_at"), Ascii("entity_rev"), Ascii("id"),
             Ascii("kind"), Ascii("mutation"), Ascii("origin_device_id"), Ascii("origin_local_id"), Ascii("payload"),
             Ascii("payload_schema_version"), Ascii("payload_sha256")}
  }

  ghost predicate DocumentedKind(kind: bytes) {
    kind in {Ascii("observation"), Ascii("summary"), Ascii("prompt"), Ascii("mutation")}
  }

  ghost predicate DocumentedEntity(env: Env, m: map<bytes, bytes>, op: Op) {
    && IsText(env, m, Ascii("kind"), op.kind) && DocumentedKind(op.kind)
    && IsText(env, m, Ascii("id"), op.id) && op.id != []
    && IsText(env, m, Ascii("entity_rev"), Decimal.Print(op.entityRev)) && op.entityRev > 0
  }

  ghost predicate DocumentedOrigin(env: Env, m: map<bytes, bytes>, op: Op) {
    && IsText(env, m, Ascii("origin_device_id"), op.originDeviceId) && 1 <= |op.originDeviceId| <= 128
    && if IsRaw(m, Ascii("origin_local_id"), Ascii("null")) then op.originLocalId.None?
       else op.originLocalId.Some?
            && IsText(env, m, Ascii("origin_local_id"), Decimal.Print(op.originLocalId.value))
  }

  ghost predicate DocumentedBody(env: Env, decoded: bytes, m: map<bytes, bytes>, op: Op) {
    && env.tokens(decoded).Some? && Holds(m, env.tokens(decoded).value) && DocumentedKeys(m.Keys)
    && DocumentedEntity(env, m, op) && DocumentedOrigin(env, m, op)
  }

  lemma WrapperIsDocumented(env: Env, wrapper: bytes, m: map<bytes, bytes>, op: Op)
    ensures WrapperSays(env, wrapper, m, op) <==> DocumentedWrapper(env, wrapper, m, op)
  {
    WrapperKeysAre();
  }

  lemma WrapperKeysAre()
    ensures KeySet(WRAPPER_KEYS) == {Ascii("body"), Ascii("operation_sha256")}
  {
  }

  lemma BodyKeysAre()
    ensures DocumentedKeys(KeySet(BODY_KEYS))
  {
  }

  lemma KindsAre(kind: bytes)
    ensures kind in KINDS <==> DocumentedKind(kind)
  {
  }

  lemma EntityIs(env: Env, m: map<bytes, bytes>, op: Op)
    ensures DocumentedEntity(env, m, op) <==>
              && KIND in m && env.text(m[KIND]) == Some(op.kind) && op.kind in KINDS
              && ID in m && env.text(m[ID]) == Some(op.id) && op.id != []
              && ENTITY_REV in m && env.text(m[ENTITY_REV]) == Some(Decimal.Print(op.entityRev)) && op.entityRev > 0
  {
    KindsAre(op.kind);
  }

  lemma OriginIs(env: Env, m: map<bytes, bytes>, op: Op)
    ensures DocumentedOrigin(env, m, op) <==>
              && ORIGIN_DEVICE_ID in m && env.text(m[ORIGIN_DEVICE_ID]) == Some(op.originDeviceId)
              && 1 <= |op.originDeviceId| <= 128
              && ORIGIN_LOCAL_ID in m && LocalIdSays(env, m[ORIGIN_LOCAL_ID], op.originLocalId)
  {
  }

  lemma BodyIsDocumented(env: Env, decoded: bytes, m: map<bytes, bytes>, op: Op)
    ensures BodySays(env, decoded, m, op) <==> DocumentedBody(env, decoded, m, op)
  {
    BodyKeysAre();
    EntityIs(env, m, op);
    OriginIs(env, m, op);
  }

  // ----- Key sets -----

  lemma {:induction false} DistinctCount(keys: seq<bytes>)
    requires forall i, j :: 0 <= i < j < |keys| ==> keys[i] != keys[j]
    ensures |KeySet(keys)| == |keys|
  {
    if keys == [] {
      assert KeySet(keys) == {};
    } else {
      var init, last := keys[..|keys| - 1], keys[|keys| - 1];
      DistinctCount(init);
      assert KeySet(keys) == KeySet(init) + {last} by {
        forall k | k in keys ensures k in init || k == last {
          var i :| 0 <= i < |keys| && keys[i] == k;
          assert i < |init| ==> init[i] == k;
        }
      }
    }
  }

  lemma SubsetOfEqualSize<T>(a: set<T>, b: set<T>)
    requires a <= b && |a| == |b|
    ensures a == b
  {
    assert |b - a| == |b| - |a|;
    assert forall x :: x in b && x !in a ==> x in b - a;
  }

  lemma BodyKeysDiffer()
    ensures forall i, j :: 0 <= i < j < |BODY_KEYS| ==> BODY_KEYS[i] != BODY_KEYS[j]
  {
    var ks := BODY_KEYS;
    assert |ks[0]| == 19 && |ks[1]| == 7 && |ks[2]| == 10 && |ks[3]| == 10 && |ks[4]| == 2 && |ks[5]| == 4;
    assert |ks[6]| == 8 && |ks[7]| == 16 && |ks[8]| == 15 && |ks[9]| == 7 && |ks[10]| == 22 && |ks[11]| == 14;
    assert ks[1][0] == 100 && ks[9][0] == 112 && ks[2][0] == 100 && ks[3][0] == 101;
  }

  /** Counting the members and looking every key up is checking the key set. */
  method HasExactly(fields: map<bytes, bytes>, keys: seq<bytes>) returns (ok: bool)
    requires forall i, j :: 0 <= i < j < |keys| ==> keys[i] != keys[j]
    ensures ok <==> fields.Keys == KeySet(keys)
  {
    DistinctCount(keys);
    if |fields| != |keys| {
      return false;
    }
    for i := 0 to |keys|
      invariant forall j :: 0 <= j < i ==> keys[j] in fields
    {
      if keys[i] !in fields {
        return false;
      }
    }
    SubsetOfEqualSize(KeySet(keys), fields.Keys);
    return true;
  }

  lemma HoldsUnique(m: map<bytes, bytes>, m': map<bytes, bytes>, ps: seq<(bytes, bytes)>)
    requires Holds(m, ps) && Holds(m', ps)
    ensures m == m'
  {
    forall k | k in m ensures k in m' && m'[k] == m[k] { assert (k, m[k]) in ps; }
    forall k | k in m' ensures k in m { assert (k, m'[k]) in ps; }
  }

  lemma WrapperKeysDiffer()
    ensures forall i, j :: 0 <= i < j < |WRAPPER_KEYS| ==> WRAPPER_KEYS[i] != WRAPPER_KEYS[j]
  {
    assert |WRAPPER_KEYS[0]| == 4 && |WRAPPER_KEYS[1]| == 16;
  }

  // ----- Parsing -----

  /** The members of a body, or None unless it has exactly the twelve keys. */
  method BodyFields(env: Env, decoded: bytes) returns (fields: Option<map<bytes, bytes>>)
    ensures fields.Some? ==> Fields(env, decoded, BODY_KEYS, fields.value)
    ensures fields.None? ==> forall m :: !Fields(env, decoded, BODY_KEYS, m)
  {
    fields := ObjectFields(env, decoded);
    if fields.Some? {
      BodyKeysDiffer();
      var ok := HasExactly(fields.value, BODY_KEYS);
      forall m | Holds(m, env.tokens(decoded).value) ensures m == fields.value {
        HoldsUnique(m, fields.value, env.tokens(decoded).value);
      }
      if !ok {
        fields := None;
      }
    }
  }

  /** A local id: null, or a decimal string. */
  method ParseLocalId(env: Env, raw: bytes) returns (r: Result<Option<Dec>, Reason>)
    ensures r.Ok? ==> LocalIdSays(env, raw, r.value)
    ensures r.Err? ==> r.error == BodyShape && forall id :: !LocalIdSays(env, raw, id)
  {
    if raw == NULL {
      return Ok(None);
    }
    if env.text(raw).None? {
      return Err(BodyShape);
    }
    Decimal.ParsesExactlyPrinted(env.text(raw).value);
    match Decimal.ParseDec(env.text(raw).value) {
      case Err(_) => r := Err(BodyShape);
      case Ok(d) => r := Ok(Some(d));
    }
  }

  /** `parseBody`: the routing fields, checked in the order kind, id, revision, device, local id. */
  method ParseBody(env: Env, decoded: bytes) returns (r: Result<Op, Reason>)
    ensures r.Ok? ==> exists m :: BodySays(env, decoded, m, r.value)
    ensures r.Err? ==> forall m, op :: !BodySays(env, decoded, m, op)
    ensures r.Err? ==> r.error in {BodyShape, UnknownKind, EntityRev}
  {
    var fields := BodyFields(env, decoded);
    if fields.None? {
      return Err(BodyShape);
    }
    var m := fields.value;
    OnlyFields(env, decoded, m);
    var kind := env.text(m[KIND]);
    if kind.None? {
      return Err(BodyShape);
    }
    if kind.value !in KINDS {
      return Err(UnknownKind);
    }
    var id := env.text(m[ID]);
    if id.None? || id.value == [] {
      return Err(BodyShape);
    }
    var rev := env.text(m[ENTITY_REV]);
    if rev.None? {
      return Err(EntityRev);
    }
    Decimal.ParsesExactlyPrinted(rev.value);
    var entityRev := Decimal.ParseDecPositive(rev.value);
    if entityRev.Err? {
      return Err(EntityRev);
    }
    var device := env.text(m[ORIGIN_DEVICE_ID]);
    if device.None? || device.value == [] || |device.value| > MAX_DEVICE_ID_LEN {
      return Err(BodyShape);
    }
    var local := ParseLocalId(env, m[ORIGIN_LOCAL_ID]);
    if local.Err? {
      return Err(BodyShape);
    }
    var op := Op([], [], id.value, kind.value, entityRev.value, device.value, local.value);
    assert BodySays(env, decoded, m, op);
    return Ok(op);
  }

  /** The routing fields are there, and no other map holds the members of this body. */
  lemma OnlyFields(env: Env, decoded: bytes, m: map<bytes, bytes>)
    requires Fields(env, decoded, BODY_KEYS, m)
    ensures {KIND, ID, ENTITY_REV, ORIGIN_DEVICE_ID, ORIGIN_LOCAL_ID} <= m.Keys
    ensures forall m' :: Fields(env, decoded, BODY_KEYS, m') ==> m' == m
  {
    var ks := BODY_KEYS;
    assert ks[3] == ENTITY_REV && ks[4] == ID && ks[5] == KIND && ks[7] == ORIGIN_DEVICE_ID && ks[8] == ORIGIN_LOCAL_ID;
    forall m' | Fields(env, decoded, BODY_KEYS, m') ensures m' == m {
      HoldsUnique(m, m', env.tokens(decoded).value);
    }
  }

  // ----- One wrapper -----

  /** Everything about the wrapper is in order except that the digest is not the body's. */
  ghost predicate Mismatched(env: Env, wrapper: bytes, m: map<bytes, bytes>) {
    && |wrapper| <= MAX_BODY_LITERAL + 1024
    && Fields(env, wrapper, WRAPPER_KEYS, m)
    && BODY in m && Accepted(m[BODY]) && |Unquote(m[BODY]).value| <= MAX_BODY_BYTES
    && OPERATION_SHA256 in m && env.text(m[OPERATION_SHA256]).Some?
    && ValidDigest(env.text(m[OPERATION_SHA256]).value)
    && env.digest(Unquote(m[BODY]).value) != env.text(m[OPERATION_SHA256]).value
  }

  /** The looser guard never refuses a literal that the limit on the decoded body would let through. */
  lemma LiteralGuardIsImplied(literal: bytes)
    requires Accepted(literal) && |Unquote(literal).value| <= MAX_BODY_BYTES
    ensures |literal| <= MAX_BODY_LITERAL
    ensures literal != [] && literal[0] == QUOTE
  {
    SizeBounds(Interior(literal));
  }

  /** The members of a wrapper, or None unless it has exactly the two keys. */
  method WrapperFields(env: Env, wrapper: bytes) returns (fields: Option<map<bytes, bytes>>)
    ensures fields.Some? ==> Fields(env, wrapper, WRAPPER_KEYS, fields.value)
    ensures fields.Some? ==> BODY in fields.value && OPERATION_SHA256 in fields.value
    ensures fields.Some? ==> forall m :: Fields(env, wrapper, WRAPPER_KEYS, m) ==> m == fields.value
    ensures fields.None? ==> forall m :: !Fields(env, wrapper, WRAPPER_KEYS, m)
  {
    fields := ObjectFields(env, wrapper);
    if fields.Some? {
      WrapperKeysDiffer();
      var ok := HasExactly(fields.value, WRAPPER_KEYS);
      forall m | Holds(m, env.tokens(wrapper).value) ensures m == fields.value {
        HoldsUnique(m, fields.value, env.tokens(wrapper).value);
      }
      assert WRAPPER_KEYS[0] == BODY && WRAPPER_KEYS[1] == OPERATION_SHA256;
      if !ok {
        fields := None;
      }
    }
  }

  /**
   * `ParseOp` accepts exactly the wrappers that carry a genuine operation, and returns that
   * operation with its literal byte for byte as received. It blames the digest exactly when the
   * digest alone is wrong.
   */
  method ParseOp(env: Env, wrapper: bytes) returns (r: Result<Op, Reason>)
    ensures r.Ok? ==> Carries(env, wrapper, r.value)
    ensures r.Err? ==> forall op :: !Carries(env, wrapper, op)
    ensures r == Err(DigestMismatch) <==> exists m :: Mismatched(env, wrapper, m)
  {
    if |wrapper| > MAX_BODY_LITERAL + 1024 {
      return Err(TooLarge);
    }
    var fields := WrapperFields(env, wrapper);
    if fields.None? {
      return Err(WrapperShape);
    }
    ghost var m := fields.value;
    var rawBody, rawDigest := fields.value[BODY], fields.value[OPERATION_SHA256];
    if Accepted(rawBody) && |Unquote(rawBody).value| <= MAX_BODY_BYTES {
      LiteralGuardIsImplied(rawBody);
    }
    if |rawBody| == 0 || rawBody[0] != QUOTE {
      return Err(WrapperShape);
    }
    if |rawBody| > MAX_BODY_LITERAL {
      return Err(TooLarge);
    }
    var digest := env.text(rawDigest);
    if digest.None? || !ValidDigest(digest.value) {
      return Err(WrapperShape);
    }
    var decoded := UnquoteJSONString(rawBody);
    if decoded.None? {
      return Err(BodyShape);
    }
    if |decoded.value| > MAX_BODY_BYTES {
      return Err(TooLarge);
    }
    if env.digest(decoded.value) != digest.value {
      assert Mismatched(env, wrapper, m);
      return Err(DigestMismatch);
    }
    var body := ParseBody(env, decoded.value);
    if body.Err? {
      return body;
    }
    ghost var fs :| BodySays(env, decoded.value, fs, body.value);
    var op := body.value.(digest := digest.value, literal := rawBody);
    assert BodySays(env, decoded.value, fs, op);
    assert WrapperSays(env, wrapper, m, op);
    return Ok(op);
  }

  /** A wrapper carries at most one operation. */
  lemma CarriesOne(env: Env, wrapper: bytes, op: Op, op': Op)
    requires Carries(env, wrapper, op) && Carries(env, wrapper, op')
    ensures op == op'
  {
    var w :| WrapperSays(env, wrapper, w, op);
    var w' :| WrapperSays(env, wrapper, w', op');
    HoldsUnique(w, w', env.tokens(wrapper).value);
    BodySaysOne(env, Unquote(op.literal).value, op, op');
  }

  lemma BodySaysOne(env: Env, decoded: bytes, op: Op, op': Op)
    requires exists m :: BodySays(env, decoded, m, op)
    requires exists m :: BodySays(env, decoded, m, op')
    requires op.literal == op'.literal && op.digest == op'.digest
    ensures op == op'
  {
    var m :| BodySays(env, decoded, m, op);
    var m' :| BodySays(env, decoded, m', op');
    HoldsUnique(m, m', env.tokens(decoded).value);
    Decimal.PrintIsCanonical(op.entityRev);
    Decimal.PrintIsCanonical(op'.entityRev);
    if op.originLocalId.Some? && op'.originLocalId.Some? {
      Decimal.PrintInjective(op.originLocalId.value, op'.originLocalId.value);
    }
  }

  /** Each of the first wrappers carries the op at its place. */
  ghost predicate CarriedInOrder(env: Env, wrappers: seq<bytes>, ops: seq<Op>) {
    |ops| <= |wrappers| && forall i :: 0 <= i < |ops| ==> Carries(env, wrappers[i], ops[i])
  }

  ghost predicate CarriesNothing(env: Env, wrapper: bytes) { forall op :: !Carries(env, wrapper, op) }

  lemma CarriedNext(env: Env, wrappers: seq<bytes>, ops: seq<Op>, op: Op)
    requires CarriedInOrder(env, wrappers, ops) && |ops| < |wrappers| && Carries(env, wrappers[|ops|], op)
    ensures CarriedInOrder(env, wrappers, ops + [op])
  {
  }

  /** `handlePush` parses every wrapper or refuses the whole push with the first one's reason. */
  method ParseOps(env: Env, wrappers: seq<bytes>) returns (r: Result<seq<Op>, Reason>)
    ensures r.Ok? ==> |r.value| == |wrappers| <= 1_000 && CarriedInOrder(env, wrappers, r.value)
    ensures r.Err? && |wrappers| <= 1_000 ==> exists w | w in wrappers :: CarriesNothing(env, w)
  {
    if |wrappers| > MAX_OPS_PER_PUSH {
      return Err(TooLarge);
    }
    var ops: seq<Op> := [];
    for i := 0 to |wrappers|
      invariant |ops| == i && CarriedInOrder(env, wrappers, ops)
    {
      var op := ParseOp(env, wrappers[i]);
      if op.Err? {
        assert CarriesNothing(env, wrappers[i]) && wrappers[i] in wrappers;
        return Err(op.error);
      }
      CarriedNext(env, wrappers, ops, op.value);
      ops := ops + [op.value];
    }
    return Ok(ops);
  }

  lemma CarriedIsGenuine(env: Env, wrappers: seq<bytes>, ops: seq<Op>)
    requires CarriedInOrder(env, wrappers, ops)
    ensures forall op | op in ops :: Genuine(env, op)
  {
    forall op | op in ops ensures Genuine(env, op) {
      var i :| 0 <= i < |ops| && ops[i] == op;
      assert Carries(env, wrappers[i], ops[i]);
    }
  }

  // ----- What conforming clients send -----

  /** The wrapper as JSON.stringify prints it: no white space, the body first. */
  function Compact(literal: bytes, digest: bytes): bytes {
    Json.Print(Json.Obj([Json.Member(Enquote(BODY), Json.Str(literal)),
                         Json.Member(Enquote(OPERATION_SHA256), Json.Str(Enquote(digest)))]))
  }

  /** It is 74 bytes longer than its literal, so the guard on the whole wrapper is never what refuses it. */
  lemma CompactLength(literal: bytes, digest: bytes)
    requires |digest| == 43
    ensures |Compact(literal, digest)| == |literal| + 74
    ensures |literal| <= MAX_BODY_LITERAL ==> |Compact(literal, digest)| <= MAX_BODY_LITERAL + 1024
  {
    assert |Enquote(BODY)| == 6 && |Enquote(OPERATION_SHA256)| == 18;
    TwoMembersLength(Enquote(BODY), literal, Enquote(OPERATION_SHA256), Enquote(digest));
  }

  lemma TwoMembersLength(k1: bytes, l1: bytes, k2: bytes, l2: bytes)
    ensures |Json.Print(Json.Obj([Json.Member(k1, Json.Str(l1)), Json.Member(k2, Json.Str(l2))]))| ==
            |k1| + |l1| + |k2| + |l2| + 5
  {
    var m1, m2 := Json.Member(k1, Json.Str(l1)), Json.Member(k2, Json.Str(l2));
    assert [m1, m2][1..] == [m2];
    assert Json.PrintMembers([m1, m2]) == Json.PrintMember(m1) + [Json.COMMA] + Json.PrintMember(m2);
  }

  /**
   * The client prints a body as JSON.stringify prints a string and hashes the string's UTF-8; the
   * digest is the base64url of whatever 32 bytes that gives. The
   * hub accepts any such wrapper whose body it can read and whose decoded form is within the limit,
   * lone surrogates and worst-case escaping included; none of the other size guards is in the way.
   */
  lemma ConformingAccepted(env: Env, us: seq<Unicode.unit>, hash: bytes, w: map<bytes, bytes>, m: map<bytes, bytes>,
                           op: Op)
    requires op.literal == Enquote(Stringify(us)) && op.digest == env.digest(Utf8(us))
    requires |hash| == 32 && env.digest(Utf8(us)) == Base64Url(hash)
    requires DocumentedWrapper(env, Compact(op.literal, op.digest), w, op) && DocumentedBody(env, Utf8(us), m, op)
    ensures Carries(env, Compact(op.literal, op.digest), op) <==> |Utf8(us)| <= 256_000
    ensures |Utf8(us)| <= MAX_BODY_BYTES ==>
              |op.literal| <= MAX_BODY_LITERAL && |Compact(op.literal, op.digest)| <= MAX_BODY_LITERAL + 1024
  {
    DigestsAreValid(hash);
    WrapperIsDocumented(env, Compact(op.literal, op.digest), w, op);
    BodyIsDocumented(env, Utf8(us), m, op);
    StringifyRoundTrip(us);
    CompactLength(op.literal, op.digest);
    if |Utf8(us)| <= MAX_BODY_BYTES {
      CarriesByParts(env, Compact(op.literal, op.digest), op.literal, Utf8(us), w, m, op);
    } else {
      TooLongCarriesNothing(env, Compact(op.literal, op.digest), op);
    }
  }

  lemma CarriesByParts(env: Env, wrapper: bytes, literal: bytes, decoded: bytes, w: map<bytes, bytes>,
                       m: map<bytes, bytes>, op: Op)
    requires literal == op.literal && (|literal| <= MAX_BODY_LITERAL ==> |wrapper| <= MAX_BODY_LITERAL + 1024)
    requires Unquote(literal) == Some(decoded) && op.digest == env.digest(decoded) && ValidDigest(op.digest)
    requires WrapperSays(env, wrapper, w, op) && BodySays(env, decoded, m, op) && |decoded| <= MAX_BODY_BYTES
    ensures Carries(env, wrapper, op) && |literal| <= MAX_BODY_LITERAL
  {
    LiteralGuardIsImplied(literal);
    GenuineByParts(env, decoded, m, op);
  }

  lemma TooLongCarriesNothing(env: Env, wrapper: bytes, op: Op)
    requires Accepted(op.literal) && |Unquote(op.literal).value| > MAX_BODY_BYTES
    ensures !Carries(env, wrapper, op)
  {
  }

  lemma GenuineByParts(env: Env, decoded: bytes, m: map<bytes, bytes>, op: Op)
    requires Unquote(op.literal) == Some(decoded) && |decoded| <= MAX_BODY_BYTES
    requires op.digest == env.digest(decoded) && ValidDigest(op.digest) && BodySays(env, decoded, m, op)
    ensures Genuine(env, op)
  {
  }

  /** The guard could not be any tighter: n control characters decode to n bytes from 6n. */
  lemma {:induction false} LiteralGuardIsTight(n: nat)
    ensures Unquote(Enquote(Stringify(seq(n, _ => 1)))) == Some(seq(n, _ => 1))
    ensures |Enquote(Stringify(seq(n, _ => 1)))| == 6 * n + 2
  {
    ControlCharacters(n);
    StringifyRoundTrip(seq(n, _ => 1));
  }

  lemma {:induction false} ControlCharacters(n: nat)
    ensures |Stringify(seq(n, _ => 1))| == 6 * n && Utf8(seq(n, _ => 1)) == seq(n, _ => 1)
  {
    if n > 0 {
      ControlCharacters(n - 1);
      var us: seq<Unicode.unit> := seq(n, _ => 1);
      assert us[1..] == seq(n - 1, _ => 1);
      assert Unicode.Pair(us) == [1] + Unicode.Pair(us[1..]);
    }
  }

  /** Kinds and digests need no escaping, so acks and pages print them as they are. */
  lemma GenuineIsPlain(env: Env, op: Op)
    requires Genuine(env, op)
    ensures PlainText(op.kind) && PlainText(op.digest) && Accepted(op.literal)
    ensures |op.literal| <= MAX_BODY_LITERAL
  {
    KindsArePlain(op.kind);
    DigestIsPlain(op.digest);
    LiteralGuardIsImplied(op.literal);
  }

  lemma KindsArePlain(kind: bytes)
    requires kind in KINDS
    ensures PlainText(kind)
  {
    var ks := KINDS;
    assert PlainText(ks[0]) && PlainText(ks[1]) && PlainText(ks[2]) && PlainText(ks[3]);
  }

  lemma DigestIsPlain(digest: bytes)
    requires ValidDigest(digest)
    ensures PlainText(digest)
  {
    forall i | 0 <= i < |digest| ensures 0x20 <= digest[i] < 0x7F && digest[i] != QUOTE && digest[i] != BACKSLASH {
      assert DigestByte(digest[i]);
    }
  }
}
