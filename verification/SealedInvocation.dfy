/** Sealed invocations: a COSE_Sign1 around a COSE_Encrypt with one ECDH-ES recipient, built and opened. */
module SealedInvocation {
  import opened Wrappers
  import opened Bytes
  import opened Cbor
  import opened ProtectedHeader

  const ALG_EDDSA := -8
  const ALG_ECDH_ES_HKDF := -25
  const LABEL_KID := 4
  const LABEL_IV := 5
  const LABEL_EPHEMERAL := -1
  const NONCE_LEN := 12
  const X25519_LEN := 32
  const ED25519_SEED_LEN := 32
  const SECOND := 1_000_000_000

  datatype Reason =
    | SeedLength | RecipientPublicLength | DhFailed
    | MessageIDLength | ChallengeLength
    | Sign1Decode | Sign1Tag | Sign1Body | Sign1Header | Sign1Alg | Sign1KidMissing | Sign1Kid | Sign1Signature
    | EncryptDecode | EncryptTag | EncryptBody | RecipientCount | BadHeader(error: HeaderError) | BadNonce
    | RecipientHeader | RecipientAlg | RecipientKidMissing | EphemeralMissing | BadEphemeral
    | SenderMismatch | InReplyToMismatch | RequestHashMismatch
    | IssuedInFuture | NonPositiveTtl | TtlTooLong | Expired | MissingCorrelation | RequestOnlyClaims
    | ContentTypeMismatch | RecipientKid | PrivateKeyLength | OpenFailed

  /** Ed25519, X25519, HKDF-SHA256 to 32 bytes, AES-256-GCM, SHA3-256 and the CBOR library, kept abstract.
      `dh` fails where the shared secret would be all zero. */
  datatype Primitives = Primitives(
    codec: Codec,
    signPublic: bytes -> bytes,                              // seed
    sign: (bytes, bytes) -> bytes,                           // seed, message
    verify: (bytes, bytes, bytes) -> bool,                   // public key, message, signature
    dhPublic: bytes -> bytes,                                // private key
    dh: (bytes, bytes) -> Option<bytes>,                     // private key, public key
    hkdf: (bytes, bytes) -> bytes,                           // secret, info
    seal: (bytes, bytes, bytes, bytes) -> bytes,             // key, nonce, plaintext, aad
    open: (bytes, bytes, bytes, bytes) -> Option<bytes>,     // key, nonce, ciphertext, aad
    sha3: bytes -> bytes)

  /** The algebra of the primitives other than the signature. */
  ghost predicate Agrees(p: Primitives) {
    && Faithful(p.codec)
    && (forall a :: |a| == X25519_LEN ==> |p.dhPublic(a)| == X25519_LEN)
    && (forall a, b :: |a| == X25519_LEN && |b| == X25519_LEN ==> p.dh(a, p.dhPublic(b)) == p.dh(b, p.dhPublic(a)))
    && (forall k, n, m, ad :: p.open(k, n, p.seal(k, n, m, ad), ad) == Some(m))
  }

  /** Every signature made with a seed verifies under its public key. */
  ghost predicate Verifies(p: Primitives) {
    forall seed, m :: |seed| == ED25519_SEED_LEN ==> p.verify(p.signPublic(seed), m, p.sign(seed, m))
  }

  // ---------- the structures that are signed, authenticated and derived from ----------

  const SIGNATURE1: bytes := [83, 105, 103, 110, 97, 116, 117, 114, 101, 49]
  const ENCRYPT: bytes := [69, 110, 99, 114, 121, 112, 116]

  function SigItems(header: bytes, payload: bytes): seq<Value> {
    [Text(SIGNATURE1), Bytes(header), Bytes([]), Bytes(payload)]
  }

  function SigStructure(codec: Codec, header: bytes, payload: bytes): bytes {
    codec.encode(Array(SigItems(header, payload)))
  }

  function EncStructure(codec: Codec, header: bytes): bytes {
    codec.encode(Array([Text(ENCRYPT), Bytes(header), Bytes([])]))
  }

  function KdfContext(codec: Codec, alg: int, recipientHeader: bytes): bytes {
    var nobody := Array([Null, Null, Null]);
    codec.encode(Array([Int(alg), nobody, nobody, Array([Int(256), Bytes(recipientHeader)])]))
  }

  // ---------- building ----------

  /** Everything one sealed message is made of; the ephemeral key and the nonce are drawn at random. */
  datatype Sealing = Sealing(
    contentType: bytes, plaintext: bytes, claims: Claims,
    signingKeyID: bytes, signingSeed: bytes,
    recipientKeyID: bytes, recipientPublic: bytes,
    ephemeral: bytes, nonce: bytes)
  {
    ghost predicate Valid() {
      |ephemeral| == X25519_LEN && |nonce| == NONCE_LEN
    }
  }

  function RecipientHeaderBytes(codec: Codec): bytes {
    codec.encode(Map(map[LABEL_ALG := Int(ALG_ECDH_ES_HKDF)]))
  }

  /** A COSE_Key: an octet key pair on the curve X25519. */
  function EphemeralKey(x: bytes): map<int, Value> {
    map[1 := Int(1), -1 := Int(4), -2 := Bytes(x)]
  }

  function RecipientMap(kid: bytes, ephemeral: bytes): map<int, Value> {
    map[LABEL_KID := Bytes(kid), LABEL_EPHEMERAL := Map(EphemeralKey(ephemeral))]
  }

  function RecipientValue(header: bytes, kid: bytes, ephemeral: bytes): Value {
    Array([Bytes(header), Map(RecipientMap(kid, ephemeral)), Null])
  }

  function IvMap(nonce: bytes): map<int, Value> {
    map[LABEL_IV := Bytes(nonce)]
  }

  function EncryptItems(header: bytes, nonce: bytes, ciphertext: bytes, recipient: Value): seq<Value> {
    [Bytes(header), Map(IvMap(nonce)), Bytes(ciphertext), Array([recipient])]
  }

  function EncryptValue(header: bytes, nonce: bytes, ciphertext: bytes, recipient: Value): Value {
    Tagged(TAG_ENCRYPT, Array(EncryptItems(header, nonce, ciphertext, recipient)))
  }

  function ContentKey(p: Primitives, shared: bytes, recipientHeader: bytes): bytes {
    p.hkdf(shared, KdfContext(p.codec, ALG_A256GCM, recipientHeader))
  }

  function Ciphertext(p: Primitives, s: Sealing, shared: bytes): bytes {
    var header := EncodeProtected(p.codec, s.contentType, s.claims);
    p.seal(ContentKey(p, shared, RecipientHeaderBytes(p.codec)), s.nonce, s.plaintext, EncStructure(p.codec, header))
  }

  function BuildEncrypt(p: Primitives, s: Sealing): Result<bytes, Reason> {
    if |s.recipientPublic| != X25519_LEN then Err(RecipientPublicLength)
    else
      match p.dh(s.ephemeral, s.recipientPublic)
      case None => Err(DhFailed)
      case Some(shared) =>
        var header := EncodeProtected(p.codec, s.contentType, s.claims);
        var recipient := RecipientValue(RecipientHeaderBytes(p.codec), s.recipientKeyID, p.dhPublic(s.ephemeral));
        Ok(p.codec.encode(EncryptValue(header, s.nonce, Ciphertext(p, s, shared), recipient)))
  }

  function Sign1HeaderBytes(codec: Codec, kid: bytes): bytes {
    codec.encode(Map(map[LABEL_ALG := Int(ALG_EDDSA), LABEL_KID := Bytes(kid)]))
  }

  function Sign1Items(header: bytes, payload: bytes, signature: bytes): seq<Value> {
    [Bytes(header), Map(map[]), Bytes(payload), Bytes(signature)]
  }

  function Sign1Value(header: bytes, payload: bytes, signature: bytes): Value {
    Tagged(TAG_SIGN1, Array(Sign1Items(header, payload, signature)))
  }

  function BuildSealed(p: Primitives, s: Sealing): Result<bytes, Reason> {
    if |s.signingSeed| != ED25519_SEED_LEN then Err(SeedLength)
    else if |s.recipientPublic| != X25519_LEN then Err(RecipientPublicLength)
    else
      match BuildEncrypt(p, s)
      case Err(e) => Err(e)
      case Ok(payload) =>
        var header := Sign1HeaderBytes(p.codec, s.signingKeyID);
        var signature := p.sign(s.signingSeed, SigStructure(p.codec, header, payload));
        Ok(p.codec.encode(Sign1Value(header, payload, signature)))
  }

  /** What a request is made of. The time of issue is `issuedAt` seconds and `nanos` nanoseconds; a lifetime
      of zero nanoseconds stands for the default. */
  datatype RequestParams = RequestParams(
    contentType: bytes, plaintext: bytes, issuer: bytes, audience: bytes,
    issuedAt: int64, nanos: nat, ttl: int64, messageID: bytes,
    senderKeyID: bytes, senderSeed: bytes, recipientKeyID: bytes, recipientPublic: bytes,
    responseKeyID: bytes, responseSubject: bytes, freshnessChallenge: Option<bytes>)

  /** The second that `ttl` nanoseconds after the time of issue fall into. */
  function ExpiresAt(r: RequestParams): int64 {
    Wrap64(r.issuedAt + (r.nanos + OrDefault(r.ttl, 120 * SECOND)) / SECOND)
  }

  /** A request's claims: nothing that belongs to a response. */
  function RequestClaims(r: RequestParams): Claims {
    Claims(r.issuer, r.audience, ExpiresAt(r), r.issuedAt, Some(r.messageID),
           r.senderKeyID, r.responseKeyID, r.responseSubject, None, None, r.freshnessChallenge)
  }

  function RequestSealing(r: RequestParams, ephemeral: bytes, nonce: bytes): Sealing {
    Sealing(r.contentType, r.plaintext, RequestClaims(r), r.senderKeyID, r.senderSeed,
            r.recipientKeyID, r.recipientPublic, ephemeral, nonce)
  }

  function BuildRequest(p: Primitives, r: RequestParams, ephemeral: bytes, nonce: bytes): Result<bytes, Reason> {
    if |r.messageID| == 0 || |r.messageID| > 64 then Err(MessageIDLength)
    else if r.freshnessChallenge.Some? && |r.freshnessChallenge.value| != FRESHNESS_CHALLENGE_LEN
    then Err(ChallengeLength)
    else BuildSealed(p, RequestSealing(r, ephemeral, nonce))
  }

  // ---------- decoding ----------

  /** The items of a struct that is coded as an array; null leaves every field at its zero value. */
  function StructItems(v: Value, n: nat): (r: Option<seq<Value>>)
    ensures r.Some? ==> |r.value| == n
  {
    match v
    case Array(a) => if |a| == n then Some(a) else None
    case Null => Some(seq(n, _ => Null))
    case _ => None
  }

  /** The content of a message under the tag `number`, encoded again and decoded into a struct of `n` fields. */
  function TaggedBody(codec: Codec, message: bytes, number: nat, n: nat,
                      undecodable: Reason, wrongTag: Reason, badBody: Reason): (r: Result<seq<Value>, Reason>)
    ensures r.Ok? ==> |r.value| == n
  {
    var v := codec.decode(message);
    if v.None? || !v.value.Tagged? then Err(undecodable)
    else if v.value.number != number then Err(wrongTag)
    else
      var body := codec.decode(codec.encode(v.value.content));
      if body.None? || StructItems(body.value, n).None? then Err(badBody)
      else Ok(StructItems(body.value, n).value)
  }

  datatype Signed = Signed(header: bytes, payload: bytes, signature: bytes, kid: bytes)

  function VerifySign1(p: Primitives, message: bytes, expectedKid: bytes, public: bytes): Result<Signed, Reason> {
    match TaggedBody(p.codec, message, TAG_SIGN1, 4, Sign1Decode, Sign1Tag, Sign1Body)
    case Err(e) => Err(e)
    case Ok(a) =>
      if AsBytes(a[0]).None? || AsMap(a[1]).None? || AsBytes(a[2]).None? || AsBytes(a[3]).None? then Err(Sign1Body)
      else CheckSign1(p, AsBytes(a[0]).value, AsBytes(a[2]).value, AsBytes(a[3]).value, expectedKid, public)
  }

  function CheckSign1(p: Primitives, header: bytes, payload: bytes, signature: bytes,
                      expectedKid: bytes, public: bytes): Result<Signed, Reason> {
    match HeaderMap(p.codec, header)
    case None => Err(Sign1Header)
    case Some(m) =>
      if Int64Value(Get(m, LABEL_ALG)) != Some(ALG_EDDSA) then Err(Sign1Alg)
      else if !Get(m, LABEL_KID).Bytes? then Err(Sign1KidMissing)
      else if Get(m, LABEL_KID).b != expectedKid then Err(Sign1Kid)
      else if !p.verify(public, SigStructure(p.codec, header, payload), signature) then Err(Sign1Signature)
      else Ok(Signed(header, payload, signature, Get(m, LABEL_KID).b))
  }

  datatype Recipient = Recipient(header: bytes, unprotected: map<int, Value>, ciphertext: Value)

  function ToRecipient(v: Value): Option<Recipient> {
    match StructItems(v, 3)
    case None => None
    case Some(a) =>
      if AsBytes(a[0]).None? || AsMap(a[1]).None? then None
      else Some(Recipient(AsBytes(a[0]).value, AsMap(a[1]).value, a[2]))
  }

  function ToRecipients(v: Value): Option<seq<Recipient>> {
    match v
    case Array(a) =>
      if forall i :: 0 <= i < |a| ==> ToRecipient(a[i]).Some?
      then Some(seq(|a|, i requires 0 <= i < |a| => ToRecipient(a[i]).value)) else None
    case Null => Some([])
    case _ => None
  }

  datatype Encrypted = Encrypted(
    header: bytes, parsed: Parsed, iv: bytes, ciphertext: bytes,
    recipientHeader: bytes, recipientKeyID: bytes, ephemeral: bytes)

  function DecodeEncrypt(codec: Codec, message: bytes): Result<Encrypted, Reason> {
    match TaggedBody(codec, message, TAG_ENCRYPT, 4, EncryptDecode, EncryptTag, EncryptBody)
    case Err(e) => Err(e)
    case Ok(a) =>
      if AsBytes(a[0]).None? || AsMap(a[1]).None? || AsBytes(a[2]).None? || ToRecipients(a[3]).None?
      then Err(EncryptBody)
      else if |ToRecipients(a[3]).value| != 1 then Err(RecipientCount)
      else
        var header, unprotected := AsBytes(a[0]).value, AsMap(a[1]).value;
        match ParseProtected(codec, header)
        case Err(e) => Err(BadHeader(e))
        case Ok(parsed) =>
          var iv := Get(unprotected, LABEL_IV);
          if !iv.Bytes? || |iv.b| != NONCE_LEN then Err(BadNonce)
          else DecodeRecipient(codec, header, parsed, iv.b, AsBytes(a[2]).value, ToRecipients(a[3]).value[0])
  }

  function DecodeRecipient(codec: Codec, header: bytes, parsed: Parsed, iv: bytes, ciphertext: bytes, r: Recipient)
    : Result<Encrypted, Reason>
  {
    match HeaderMap(codec, r.header)
    case None => Err(RecipientHeader)
    case Some(m) =>
      if Int64Value(Get(m, LABEL_ALG)) != Some(ALG_ECDH_ES_HKDF) then Err(RecipientAlg)
      else if !Get(r.unprotected, LABEL_KID).Bytes? then Err(RecipientKidMissing)
      else
        match AsMap(Get(r.unprotected, LABEL_EPHEMERAL))
        case None => Err(EphemeralMissing)
        case Some(key) =>
          var x := Get(key, -2);
          if !x.Bytes? || |x.b| != X25519_LEN then Err(BadEphemeral)
          else Ok(Encrypted(header, parsed, iv, ciphertext, r.header, Get(r.unprotected, LABEL_KID).b, x.b))
  }

  function OpenEncrypt(p: Primitives, e: Encrypted, recipientKeyID: bytes, private: bytes): Result<bytes, Reason> {
    if e.recipientKeyID != recipientKeyID then Err(RecipientKid)
    else if |private| != X25519_LEN then Err(PrivateKeyLength)
    else if |e.ephemeral| != X25519_LEN then Err(BadEphemeral)
    else
      match p.dh(private, e.ephemeral)
      case None => Err(DhFailed)
      case Some(shared) =>
        match p.open(ContentKey(p, shared, e.recipientHeader), e.iv, e.ciphertext, EncStructure(p.codec, e.header))
        case None => Err(OpenFailed)
        case Some(plaintext) => Ok(plaintext)
  }

  // ---------- times ----------

  /** Two's complement wrap-around of an int64 sum or difference. */
  function Wrap64(x: int): (r: int)
    ensures MIN_INT64 <= r <= MAX_INT64
  {
    (x - MIN_INT64) % TWO_64 + MIN_INT64
  }

  /** The whole seconds of a duration in nanoseconds, truncated towards zero. */
  function Seconds(duration: int64): int {
    if duration >= 0 then duration / SECOND else -((0 - duration) / SECOND)
  }

  function OrDefault(duration: int64, default: int64): int64 {
    if duration == 0 then default else duration
  }

  function ValidateResponseClaims(c: Claims, now: int64, skew: int, maxTtl: int): Option<Reason> {
    if c.issuedAt > Wrap64(now + skew) then Some(IssuedInFuture)
    else if c.expiresAt <= c.issuedAt then Some(NonPositiveTtl)
    else if Wrap64(c.expiresAt - c.issuedAt) > maxTtl then Some(TtlTooLong)
    else if now > Wrap64(c.expiresAt + skew) then Some(Expired)
    else if c.inReplyTo.None? || c.requestHash.None? then Some(MissingCorrelation)
    else if c.responseKeyID != [] || c.responseSubject != [] || c.freshnessChallenge.Some? then Some(RequestOnlyClaims)
    else None
  }

  // ---------- opening a response ----------

  /** Durations are in nanoseconds; zero stands for the default. */
  datatype ResponseParams = ResponseParams(
    message: bytes, request: bytes, requestMessageID: bytes, expectedContentType: bytes,
    now: int64, maxClockSkew: int64, maxTtl: int64,
    brokerKeyID: bytes, brokerPublic: bytes, recipientKeyID: bytes, recipientPrivate: bytes)
  {
    function Skew(): int {
      Seconds(OrDefault(maxClockSkew, 60 * SECOND))
    }

    function Ttl(): int {
      Seconds(OrDefault(maxTtl, 300 * SECOND))
    }
  }

  datatype Response = Response(plaintext: bytes, contentType: bytes)

  /** A nil byte string equals an empty one. */
  function OrEmpty(o: Option<bytes>): bytes {
    match o case None => [] case Some(b) => b
  }

  /** The checks between decoding and opening, in the order in which they are made. */
  function CheckResponse(p: Primitives, q: ResponseParams, kid: bytes, parsed: Parsed): Option<Reason> {
    var c := parsed.claims;
    if c.senderKeyID != kid then Some(SenderMismatch)
    else if OrEmpty(c.inReplyTo) != q.requestMessageID then Some(InReplyToMismatch)
    else if OrEmpty(c.requestHash) != p.sha3(q.request) then Some(RequestHashMismatch)
    else
      match ValidateResponseClaims(c, q.now, q.Skew(), q.Ttl())
      case Some(e) => Some(e)
      case None =>
        if q.expectedContentType != [] && parsed.contentType != q.expectedContentType
        then Some(ContentTypeMismatch) else None
  }

  function OpenPayload(p: Primitives, q: ResponseParams, kid: bytes, payload: bytes): Result<Response, Reason> {
    match DecodeEncrypt(p.codec, payload)
    case Err(e) => Err(e)
    case Ok(enc) =>
      match CheckResponse(p, q, kid, enc.parsed)
      case Some(e) => Err(e)
      case None =>
        match OpenEncrypt(p, enc, q.recipientKeyID, q.recipientPrivate)
        case Err(e) => Err(e)
        case Ok(plaintext) => Ok(Response(plaintext, enc.parsed.contentType))
  }

  function OpenResponse(p: Primitives, q: ResponseParams): Result<Response, Reason> {
    match VerifySign1(p, q.message, q.brokerKeyID, q.brokerPublic)
    case Err(e) => Err(e)
    case Ok(signed) => OpenPayload(p, q, signed.kid, signed.payload)
  }
}
