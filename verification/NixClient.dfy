/** The client's own checks around the strict codec. */
module NixClient {
  import opened Wrappers
  import opened Bytes
  import opened Utf8
  import opened Wire
  import opened NixSchema
  import opened NixPreflight
  import opened NixCodec
  import opened NixMarshal

  datatype ClientError =
    | Fine
    | ChangedCorrelationId
    | BadDisposition
    | BadSignature
    | BadKeyName
    | BadPublicKey
    | BadBackendVersion

  // ---------- before the call ----------

  predicate ValidRequest(keyID: bytes, batchID: bytes, requestID: bytes) {
    ValidKeyId(keyID) && !AllZero(batchID) && !AllZero(requestID)
  }

  method ValidateNixCacheRequest(keyID: bytes, batchID: bytes, requestID: bytes) returns (ok: bool)
    requires |batchID| == |requestID| == 16
    ensures ok <==> ValidRequest(keyID, batchID, requestID)
  {
    if !Utf8Valid(keyID) || |keyID| == 0 || |keyID| > 256 {
      return false;
    }
    var control := HasControlByte(keyID);
    if control {
      return false;
    }
    var zeroBatch := CheckAllZero(batchID);
    var zeroRequest := CheckAllZero(requestID);
    return !(zeroBatch || zeroRequest);
  }

  /** The client's checks on a request and the strict codec's agree: a request the client would send is
      never refused by its own codec, and the codec refuses every other one. */
  lemma RequestsMarshal(keyID: bytes, fingerprint: bytes, batchID: bytes, requestID: bytes)
    requires |batchID| == |requestID| == 16
    ensures Marshal(DescribeRequest(keyID, batchID, requestID)).Ok? <==> ValidRequest(keyID, batchID, requestID)
    ensures Marshal(EnrollRequest(keyID, batchID, requestID)).Ok? <==> ValidRequest(keyID, batchID, requestID)
    ensures Marshal(SignRequest(keyID, Ascii("PATH_INFO_V1"), fingerprint, batchID, requestID)).Ok?
            <==> ValidRequest(keyID, batchID, requestID) && 1 <= |fingerprint| <= 524626
  {
    assert Ascii("PATH_INFO_V1") == PATH_INFO_V1;
    RequestFields(DescribeRequest(keyID, batchID, requestID));
    RequestFields(EnrollRequest(keyID, batchID, requestID));
    RequestFields(SignRequest(keyID, PATH_INFO_V1, fingerprint, batchID, requestID));
  }

  lemma RequestFields(m: Message)
    requires m.DescribeRequest? || m.EnrollRequest? || m.SignRequest?
    ensures Marshal(m).Ok? <==>
              && ValidKeyId(m.keyId) && ValidIdentifier(m.batchId) && ValidIdentifier(m.requestId)
              && (m.SignRequest? ==> m.profile == PATH_INFO_V1 && 1 <= |m.fingerprint| <= FINGERPRINT_MAX)
  {
    MarshalExact(m);
    hide Marshal, ValidKeyId, ValidIdentifier;
    var schema, fs := SchemaOf(m), Fields(m);
    if m.SignRequest? {
      ValidFive(schema, fs);
    } else {
      ValidThree(schema, fs);
    }
  }

  lemma ValidThree(schema: Schema, fs: seq<Value>)
    requires |fs| == 3
    ensures ValidFields(schema, fs)
            <==> FieldValid(schema, 1, fs[0]) && FieldValid(schema, 2, fs[1]) && FieldValid(schema, 3, fs[2])
  {
  }

  lemma ValidFive(schema: Schema, fs: seq<Value>)
    requires |fs| == 5
    ensures ValidFields(schema, fs) <==>
              && FieldValid(schema, 1, fs[0]) && FieldValid(schema, 2, fs[1]) && FieldValid(schema, 3, fs[2])
              && FieldValid(schema, 4, fs[3]) && FieldValid(schema, 5, fs[4])
  {
  }

  // ---------- after the call ----------

  predicate IsResponse(schema: Schema) {
    schema in {DescribeResponseSchema, EnrollResponseSchema, SignResponseSchema}
  }

  function NixCacheKey(keyName: bytes, publicKey: bytes, backendVersion: u32): ClientError {
    if !ValidKeyName(keyName) then BadKeyName
    else if |publicKey| != 32 then BadPublicKey
    else if backendVersion != 1 then BadBackendVersion
    else Fine
  }

  /** What each operation does with a decoded response: the echoed ids, the operation's own field, the key. */
  function CheckResponse(m: Message, batchID: bytes, requestID: bytes): ClientError
    requires IsResponse(SchemaOf(m))
  {
    if m.batchId != batchID || m.requestId != requestID then ChangedCorrelationId
    else if m.EnrollResponse? && m.disposition != 1 && m.disposition != 2 then BadDisposition
    else if m.SignResponse? && |m.signature| != 64 then BadSignature
    else NixCacheKey(m.keyName, m.publicKey, m.backendVersion)
  }

  lemma ValidResponse(m: Message, batchID: bytes, requestID: bytes)
    requires IsResponse(SchemaOf(m)) && ValidMessage(m)
    ensures CheckResponse(m, batchID, requestID)
            == if m.batchId == batchID && m.requestId == requestID then Fine else ChangedCorrelationId
  {
    hide ValidKeyName, ValidIdentifier;
    var schema, fs := SchemaOf(m), Fields(m);
    assert FieldValid(schema, 0 + 1, fs[0]) && FieldValid(schema, 1 + 1, fs[1]) && FieldValid(schema, 2 + 1, fs[2]);
    assert FieldValid(schema, 3 + 1, fs[3]);
  }

  /** Behind the strict decoder only the echo check can still fail. */
  lemma OnlyEchoCanFail(schema: Schema, raw: bytes, batchID: bytes, requestID: bytes)
    requires IsResponse(schema) && Unmarshal(schema, raw).Ok?
    ensures var m := Unmarshal(schema, raw).value;
            && SchemaOf(m) == schema
            && CheckResponse(m, batchID, requestID)
               == if m.batchId == batchID && m.requestId == requestID then Fine else ChangedCorrelationId
  {
    UnmarshalExact(schema, raw);
    var items :| WireAll(items) == raw && EachOnce(schema, items);
    UnmarshalFields(schema, items);
    hide CheckResponse, ProtoUnmarshal, EachOnce, Fields;
    ValidResponse(Unmarshal(schema, raw).value, batchID, requestID);
  }

  lemma ValidSix(schema: Schema, fs: seq<Value>)
    requires |fs| == 6
    ensures ValidFields(schema, fs) <==>
              && FieldValid(schema, 1, fs[0]) && FieldValid(schema, 2, fs[1]) && FieldValid(schema, 3, fs[2])
              && FieldValid(schema, 4, fs[3]) && FieldValid(schema, 5, fs[4]) && FieldValid(schema, 6, fs[5])
  {
  }

  lemma ResponseFields(m: Message)
    requires IsResponse(SchemaOf(m))
    ensures ValidMessage(m) <==>
              CheckResponse(m, m.batchId, m.requestId) == Fine && ValidIdentifier(m.batchId) && ValidIdentifier(m.requestId)
  {
    hide ValidKeyName, ValidIdentifier;
    var schema, fs := SchemaOf(m), Fields(m);
    if m.DescribeResponse? {
      ValidFive(schema, fs);
    } else {
      ValidSix(schema, fs);
    }
  }

  /** The client's checks on a response and the strict codec's agree: a message with two identifiers of 16
      bytes that are not all zero can be sent exactly if the client that asked with them accepts it, and what
      was sent is what the client decodes. So both dispositions, 1 and 2, pass and no other. */
  lemma ResponsesMarshal(m: Message)
    requires IsResponse(SchemaOf(m))
    ensures Marshal(m).Ok? <==>
              CheckResponse(m, m.batchId, m.requestId) == Fine && ValidIdentifier(m.batchId) && ValidIdentifier(m.requestId)
    ensures Marshal(m).Ok? ==> Unmarshal(SchemaOf(m), Marshal(m).value) == Ok(m)
  {
    hide CheckResponse, ValidIdentifier, Marshal, Unmarshal, ValidMessage;
    MarshalExact(m);
    ResponseFields(m);
    if Marshal(m).Ok? {
      MarshalRoundTrip(m);
    }
  }

  lemma EchoValues(m: Message, items: seq<Item>, batchID: bytes, requestID: bytes)
    requires IsResponse(SchemaOf(m)) && Distinct(items) && Carries(items, Fields(m))
    ensures var n := FieldCount(SchemaOf(m));
            m.batchId == batchID && m.requestId == requestID
            <==> ValueIn(items, n - 1, Bytes(batchID)) && ValueIn(items, n, Bytes(requestID))
  {
    hide ValueIn, Distinct;
    var n, fs := FieldCount(SchemaOf(m)), Fields(m);
    assert fs[n - 2] == Bytes(m.batchId) && fs[n - 1] == Bytes(m.requestId);
    assert ValueIn(items, (n - 2) + 1, fs[n - 2]) && ValueIn(items, (n - 1) + 1, fs[n - 1]);
    if ValueIn(items, n - 1, Bytes(batchID)) && ValueIn(items, n, Bytes(requestID)) {
      ValueUnique(items, n - 1, fs[n - 2], Bytes(batchID));
      ValueUnique(items, n, fs[n - 1], Bytes(requestID));
    }
  }

  /** The echoed ids are the ones on the wire, whichever order the fields come in. */
  lemma EchoIsOnTheWire(schema: Schema, items: seq<Item>, batchID: bytes, requestID: bytes)
    requires IsResponse(schema) && EachOnce(schema, items) && |WireAll(items)| <= MaxSize(schema)
    ensures Unmarshal(schema, WireAll(items)).Ok?
    ensures var m := Unmarshal(schema, WireAll(items)).value; var n := FieldCount(schema);
            && SchemaOf(m) == schema
            && (CheckResponse(m, batchID, requestID) == Fine
                <==> ValueIn(items, n - 1, Bytes(batchID)) && ValueIn(items, n, Bytes(requestID)))
  {
    var raw := WireAll(items);
    assert StrictlyEncodes(schema, raw);
    UnmarshalExact(schema, raw);
    UnmarshalFields(schema, items);
    OnlyEchoCanFail(schema, raw, batchID, requestID);
    hide ProtoUnmarshal, Preflight, CheckResponse, ValidMessage, ValueIn, Carries, Fields, FieldRule;
    EchoValues(Unmarshal(schema, raw).value, items, batchID, requestID);
  }
}
