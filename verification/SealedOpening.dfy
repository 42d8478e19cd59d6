/** What building, decoding and opening a sealed invocation promise each other. */
module SealedOpening {
  import opened Wrappers
  import opened Bytes
  import opened Utf8
  import opened Cbor
  import opened ProtectedHeader
  import opened SealedInvocation

  // ---------- encoded structures read back ----------

  lemma ReadsBack(codec: Codec, v: Value)
    requires Faithful(codec) && Plain(v, 8) && TextsValid(v)
    ensures codec.decode(codec.encode(v)) == Some(v)
  {
  }

  lemma TaggedReadsBack(codec: Codec, number: nat, a: seq<Value>, n: nat, e1: Reason, e2: Reason, e3: Reason)
    requires Faithful(codec) && number in {TAG_SIGN1, TAG_ENCRYPT} && |a| == n && Plain(Array(a), 7) && TextsValid(Array(a))
    ensures TaggedBody(codec, codec.encode(Tagged(number, Array(a))), number, n, e1, e2, e3) == Ok(a)
  {
    var v := Tagged(number, Array(a));
    PlainDeeper(Array(a), 7, 8);
    assert Plain(v, 8);
    ReadsBack(codec, v);
    ReadsBack(codec, Array(a));
  }

  lemma HeaderReadsBack(codec: Codec, m: map<int, Value>)
    requires Faithful(codec) && Plain(Map(m), 3) && TextsValid(Map(m))
    requires forall k :: k in m ==> MIN_INT64 <= k <= MAX_INT64
    ensures HeaderMap(codec, codec.encode(Map(m))) == Some(m)
  {
    PlainDeeper(Map(m), 3, 8);
    hide Plain, TextsValid, Faithful;
    ReadsBack(codec, Map(m));
  }

  lemma Sign1HeaderReadsBack(codec: Codec, kid: bytes)
    requires Faithful(codec)
    ensures HeaderMap(codec, Sign1HeaderBytes(codec, kid)) == Some(map[LABEL_ALG := Int(ALG_EDDSA), LABEL_KID := Bytes(kid)])
  {
    var m := map[LABEL_ALG := Int(ALG_EDDSA), LABEL_KID := Bytes(kid)];
    assert m.Keys == {LABEL_ALG, LABEL_KID};
    HeaderReadsBack(codec, m);
  }

  lemma RecipientHeaderReadsBack(codec: Codec)
    requires Faithful(codec)
    ensures HeaderMap(codec, RecipientHeaderBytes(codec)) == Some(map[LABEL_ALG := Int(ALG_ECDH_ES_HKDF)])
  {
    var m := map[LABEL_ALG := Int(ALG_ECDH_ES_HKDF)];
    assert m.Keys == {LABEL_ALG};
    HeaderReadsBack(codec, m);
  }

  lemma Sign1ItemsPlain(header: bytes, payload: bytes, signature: bytes)
    ensures Plain(Array(Sign1Items(header, payload, signature)), 7)
    ensures TextsValid(Array(Sign1Items(header, payload, signature)))
  {
  }

  /** The outer message yields its payload exactly under the key id it was signed with and a signature
      that verifies. */
  lemma Sign1ReadsBack(p: Primitives, kid: bytes, payload: bytes, signature: bytes, expectedKid: bytes, public: bytes)
    requires Faithful(p.codec)
    ensures var header := Sign1HeaderBytes(p.codec, kid);
            VerifySign1(p, p.codec.encode(Sign1Value(header, payload, signature)), expectedKid, public)
            == if kid != expectedKid then Err(Sign1Kid)
               else if !p.verify(public, SigStructure(p.codec, header, payload), signature) then Err(Sign1Signature)
               else Ok(Signed(header, payload, signature, kid))
  {
    hide Faithful, TaggedBody, Sign1HeaderBytes, HeaderMap, SigStructure, Plain, TextsValid;
    var header := Sign1HeaderBytes(p.codec, kid);
    var a := Sign1Items(header, payload, signature);
    Sign1ItemsPlain(header, payload, signature);
    TaggedReadsBack(p.codec, TAG_SIGN1, a, 4, Sign1Decode, Sign1Tag, Sign1Body);
    Sign1HeaderReadsBack(p.codec, kid);
  }

  lemma EphemeralKeyPlain(x: bytes)
    ensures Plain(Map(EphemeralKey(x)), 3) && TextsValid(Map(EphemeralKey(x)))
    ensures AsMap(Map(EphemeralKey(x))) == Some(EphemeralKey(x))
  {
    assert EphemeralKey(x).Keys == {1, -1, -2};
  }

  lemma RecipientMapPlain(kid: bytes, ephemeral: bytes)
    ensures Plain(Map(RecipientMap(kid, ephemeral)), 4) && TextsValid(Map(RecipientMap(kid, ephemeral)))
    ensures AsMap(Map(RecipientMap(kid, ephemeral))) == Some(RecipientMap(kid, ephemeral))
  {
    EphemeralKeyPlain(ephemeral);
    hide EphemeralKey;
    var m := RecipientMap(kid, ephemeral);
    assert m.Keys == {LABEL_KID, LABEL_EPHEMERAL};
  }

  lemma RecipientPlain(header: bytes, kid: bytes, ephemeral: bytes)
    ensures Plain(RecipientValue(header, kid, ephemeral), 5) && TextsValid(RecipientValue(header, kid, ephemeral))
    ensures ToRecipient(RecipientValue(header, kid, ephemeral)) == Some(Recipient(header, RecipientMap(kid, ephemeral), Null))
  {
    RecipientMapPlain(kid, ephemeral);
    hide RecipientMap;
  }

  lemma DecodeOwnRecipient(codec: Codec, header: bytes, parsed: Parsed, iv: bytes, ciphertext: bytes, kid: bytes, ephemeral: bytes)
    requires Faithful(codec) && |ephemeral| == X25519_LEN
    ensures var rh := RecipientHeaderBytes(codec);
            DecodeRecipient(codec, header, parsed, iv, ciphertext, Recipient(rh, RecipientMap(kid, ephemeral), Null))
            == Ok(Encrypted(header, parsed, iv, ciphertext, rh, kid, ephemeral))
  {
    EphemeralKeyPlain(ephemeral);
    RecipientHeaderReadsBack(codec);
    hide RecipientHeaderBytes, HeaderMap, Faithful, AsMap, Plain, TextsValid;
  }

  lemma EncryptItemsPlain(header: bytes, nonce: bytes, ciphertext: bytes, recipient: Value)
    requires Plain(recipient, 5) && TextsValid(recipient)
    ensures var a := EncryptItems(header, nonce, ciphertext, recipient); Plain(Array(a), 7) && TextsValid(Array(a))
    ensures AsMap(Map(IvMap(nonce))) == Some(IvMap(nonce))
  {
    var m := IvMap(nonce);
    assert m.Keys == {LABEL_IV};
    assert Plain(Map(m), 6) && TextsValid(Map(m));
    assert Plain(Array([recipient]), 6) && TextsValid(Array([recipient]));
    hide IvMap;
  }

  lemma SingleRecipient(v: Value)
    requires ToRecipient(v).Some?
    ensures ToRecipients(Array([v])) == Some([ToRecipient(v).value])
  {
    hide ToRecipient;
    assert ToRecipients(Array([v])).value == [ToRecipient(v).value];
  }

  /** The inner message decodes to what it was built from, unless its protected header does not parse. */
  lemma EncryptReadsBack(codec: Codec, header: bytes, nonce: bytes, ciphertext: bytes, kid: bytes, ephemeral: bytes)
    requires Faithful(codec) && |nonce| == NONCE_LEN && |ephemeral| == X25519_LEN
    ensures var rh := RecipientHeaderBytes(codec);
            DecodeEncrypt(codec, codec.encode(EncryptValue(header, nonce, ciphertext, RecipientValue(rh, kid, ephemeral))))
            == match ParseProtected(codec, header)
               case Err(e) => Err(BadHeader(e))
               case Ok(parsed) => Ok(Encrypted(header, parsed, nonce, ciphertext, rh, kid, ephemeral))
  {
    hide TaggedBody, RecipientValue, ToRecipient, DecodeRecipient, ParseProtected, Plain, TextsValid,
         Faithful, RecipientHeaderBytes, AsMap, RecipientMap;
    var r := RecipientValue(RecipientHeaderBytes(codec), kid, ephemeral);
    RecipientPlain(RecipientHeaderBytes(codec), kid, ephemeral);
    EncryptItemsPlain(header, nonce, ciphertext, r);
    var a := EncryptItems(header, nonce, ciphertext, r);
    TaggedReadsBack(codec, TAG_ENCRYPT, a, 4, EncryptDecode, EncryptTag, EncryptBody);
    SingleRecipient(r);
    match ParseProtected(codec, header) {
      case Err(_) =>
      case Ok(parsed) => DecodeOwnRecipient(codec, header, parsed, nonce, ciphertext, kid, ephemeral);
    }
  }

  // ---------- a built response, opened ----------

  /** Message `s` was built, for the holder of the private key in `q`. */
  ghost predicate Built(p: Primitives, s: Sealing, q: ResponseParams) {
    && s.Valid() && BuildSealed(p, s).Ok?
    && |q.recipientPrivate| == X25519_LEN && s.recipientPublic == p.dhPublic(q.recipientPrivate)
  }

  /** The response is the one `q` expects, times aside. */
  predicate Matches(p: Primitives, s: Sealing, q: ResponseParams) {
    && Encodable(s.contentType, s.claims)
    && s.signingKeyID == q.brokerKeyID && s.claims.senderKeyID == q.brokerKeyID
    && OrEmpty(s.claims.inReplyTo) == q.requestMessageID
    && OrEmpty(s.claims.requestHash) == p.sha3(q.request)
    && (q.expectedContentType == [] || q.expectedContentType == s.contentType)
    && s.recipientKeyID == q.recipientKeyID
  }

  lemma BuiltEncryptDecodes(p: Primitives, s: Sealing)
    requires Agrees(p) && s.Valid() && BuildEncrypt(p, s).Ok?
    ensures var r := DecodeEncrypt(p.codec, BuildEncrypt(p, s).value);
            var shared := p.dh(s.ephemeral, s.recipientPublic);
            && (r.Ok? <==> Encodable(s.contentType, s.claims))
            && shared.Some?
            && (r.Ok? ==> r.value == Encrypted(
                  EncodeProtected(p.codec, s.contentType, s.claims), Parsed(s.contentType, s.claims), s.nonce,
                  Ciphertext(p, s, shared.value), RecipientHeaderBytes(p.codec), s.recipientKeyID, p.dhPublic(s.ephemeral)))
  {
    hide Faithful, EncodeProtected, ParseProtected, DecodeEncrypt, EncryptValue, RecipientValue, RecipientHeaderBytes,
         Ciphertext, Encodable;
    var header := EncodeProtected(p.codec, s.contentType, s.claims);
    var shared := p.dh(s.ephemeral, s.recipientPublic).value;
    ProtectedRoundTrip(p.codec, s.contentType, s.claims);
    EncryptReadsBack(p.codec, header, s.nonce, Ciphertext(p, s, shared), s.recipientKeyID, p.dhPublic(s.ephemeral));
  }

  /** The recipient derives the sender's key from its own private key and the ephemeral public key. */
  lemma BuiltEncryptOpens(p: Primitives, s: Sealing, private: bytes, kid: bytes)
    requires Agrees(p) && s.Valid() && BuildEncrypt(p, s).Ok? && Encodable(s.contentType, s.claims)
    requires |private| == X25519_LEN && s.recipientPublic == p.dhPublic(private)
    ensures DecodeEncrypt(p.codec, BuildEncrypt(p, s).value).Ok?
    ensures OpenEncrypt(p, DecodeEncrypt(p.codec, BuildEncrypt(p, s).value).value, kid, private)
            == if s.recipientKeyID != kid then Err(RecipientKid) else Ok(s.plaintext)
  {
    BuiltEncryptDecodes(p, s);
    hide Faithful, EncodeProtected, DecodeEncrypt, BuildEncrypt, RecipientHeaderBytes, ContentKey, EncStructure, Encodable;
    assert p.dh(private, p.dhPublic(s.ephemeral)) == p.dh(s.ephemeral, p.dhPublic(private));
  }

  /** Whether a built payload is opened, and to what. */
  lemma BuiltPayloadOpens(p: Primitives, s: Sealing, q: ResponseParams)
    requires Agrees(p) && Built(p, s, q) && s.signingKeyID == q.brokerKeyID
    ensures var r := OpenPayload(p, q, q.brokerKeyID, BuildEncrypt(p, s).value);
            && (r.Ok? <==> Matches(p, s, q) && ValidateResponseClaims(s.claims, q.now, q.Skew(), q.Ttl()).None?)
            && (r.Ok? ==> r.value == Response(s.plaintext, s.contentType))
  {
    hide Agrees, Encodable, DecodeEncrypt, OpenEncrypt, ValidateResponseClaims, BuildEncrypt;
    BuiltEncryptDecodes(p, s);
    if Encodable(s.contentType, s.claims) {
      BuiltEncryptOpens(p, s, q.recipientPrivate, q.recipientKeyID);
    }
  }

  /** A built response opens, and to the very plaintext and content type it was built from, exactly if it
      is the one expected and its claims are in date. */
  lemma ResponseOpensExactly(p: Primitives, s: Sealing, q: ResponseParams)
    requires Agrees(p) && Verifies(p) && Built(p, s, q)
    requires q.message == BuildSealed(p, s).value && q.brokerPublic == p.signPublic(s.signingSeed)
    ensures var r := OpenResponse(p, q);
            && (r.Ok? <==> Matches(p, s, q) && ValidateResponseClaims(s.claims, q.now, q.Skew(), q.Ttl()).None?)
            && (r.Ok? ==> r.value == Response(s.plaintext, s.contentType))
  {
    hide Faithful, BuildEncrypt, Sign1HeaderBytes, SigStructure, VerifySign1, OpenPayload, ValidateResponseClaims, Sign1Value, Encodable;
    var header, payload := Sign1HeaderBytes(p.codec, s.signingKeyID), BuildEncrypt(p, s).value;
    var signature := p.sign(s.signingSeed, SigStructure(p.codec, header, payload));
    Sign1ReadsBack(p, s.signingKeyID, payload, signature, q.brokerKeyID, q.brokerPublic);
    assert p.verify(q.brokerPublic, SigStructure(p.codec, header, payload), signature);
    if s.signingKeyID == q.brokerKeyID {
      BuiltPayloadOpens(p, s, q);
    }
  }

  // ---------- times ----------

  /** The response is in date: issued, not expired, with a bounded lifetime, in unbounded arithmetic. */
  predicate InWindow(c: Claims, now: int, skew: int, ttl: int) {
    c.issuedAt - skew <= now <= c.expiresAt + skew && 0 < c.expiresAt - c.issuedAt <= ttl
  }

  /** The claims of a reply: both correlation claims and none that belong to a request. */
  predicate ReplyClaims(c: Claims) {
    && c.inReplyTo.Some? && c.requestHash.Some?
    && c.responseKeyID == [] && c.responseSubject == [] && c.freshnessChallenge.None?
  }

  predicate Fits(x: int) {
    MIN_INT64 <= x <= MAX_INT64
  }

  lemma WrapFits(x: int)
    requires -TWO_64 <= x <= TWO_64
    ensures Fits(x) ==> Wrap64(x) == x
    ensures x > MAX_INT64 ==> Wrap64(x) == x - TWO_64
    ensures x < MIN_INT64 ==> Wrap64(x) == x + TWO_64
  {
    var y := x - MIN_INT64;
    if y < 0 {
      assert y == -1 * TWO_64 + (y + TWO_64);
    } else if y >= TWO_64 {
      assert y == 1 * TWO_64 + (y - TWO_64);
    } else {
      ModSmall(y, TWO_64);
    }
  }

  /** Where no sum or difference wraps, the check is the interval test, for every skew and lifetime. */
  lemma TimesWithoutWrap(c: Claims, now: int64, skew: int, ttl: int)
    requires Fits(now + skew) && Fits(c.expiresAt + skew) && Fits(c.expiresAt - c.issuedAt)
    ensures ValidateResponseClaims(c, now, skew, ttl).None? <==> InWindow(c, now, skew, ttl) && ReplyClaims(c)
  {
    WrapFits(now + skew);
    WrapFits(c.expiresAt + skew);
    WrapFits(c.expiresAt - c.issuedAt);
    hide Wrap64;
  }

  /** Exactly which claims pass, wrap-around included, for every skew and limit a duration can give: those
      in date whose sums with the skew fit an int64; those whose lifetime is at least 2^63 seconds, under any
      non-negative limit; and, under a negative skew, those with a sum that falls below -2^63. */
  lemma TimesExactly(c: Claims, now: int64, skew: int, ttl: int)
    requires -(MAX_INT64 / SECOND) <= skew <= MAX_INT64 / SECOND
    requires -(MAX_INT64 / SECOND) <= ttl <= MAX_INT64 / SECOND
    ensures var lifetime := c.expiresAt - c.issuedAt;
            var compared := c.issuedAt <= Wrap64(now + skew) && now <= Wrap64(c.expiresAt + skew);
            ValidateResponseClaims(c, now, skew, ttl).None? <==>
              && ReplyClaims(c)
              && ((InWindow(c, now, skew, ttl) && Fits(now + skew) && Fits(c.expiresAt + skew))
                  || (compared && lifetime > MAX_INT64 && lifetime - TWO_64 <= ttl)
                  || (compared && 0 < lifetime <= ttl && (now + skew < MIN_INT64 || c.expiresAt + skew < MIN_INT64)))
  {
    WrapFits(now + skew);
    WrapFits(c.expiresAt + skew);
    WrapFits(c.expiresAt - c.issuedAt);
    hide Wrap64;
  }

  /** When the check is the interval test at every time, told from the claims, the skew and the limit alone:
      a lifetime of at most the limit must not meet a negative skew nor end within twice the skew of the
      largest int64, and one of at least 2^63 seconds must be so long that it never passes. */
  lemma AlwaysWindow(c: Claims, skew: int, ttl: int)
    requires -(MAX_INT64 / SECOND) <= skew <= MAX_INT64 / SECOND
    requires -(MAX_INT64 / SECOND) <= ttl <= MAX_INT64 / SECOND && ReplyClaims(c)
    ensures var lifetime := c.expiresAt - c.issuedAt;
            (forall now: int64 :: ValidateResponseClaims(c, now, skew, ttl).None? <==> InWindow(c, now, skew, ttl))
            <==> (if lifetime > MAX_INT64
                  then lifetime - TWO_64 > ttl || (c.expiresAt + skew > MAX_INT64 && lifetime + 2 * skew < TWO_64)
                  else lifetime <= 0 || lifetime > ttl || (skew >= 0 && c.expiresAt + 2 * skew <= MAX_INT64))
  {
    hide ValidateResponseClaims, Wrap64, ReplyClaims;
    var lifetime := c.expiresAt - c.issuedAt;
    forall now: int64
      ensures WindowAt(c, now, skew, ttl) <==> AgreesAt(c, now, skew, ttl)
    {
      TimesExactly(c, now, skew, ttl);
    }
    if lifetime > MAX_INT64 {
      OverlongWindow(c, skew, ttl);
    } else if 0 < lifetime <= ttl {
      BoundedWindow(c, skew, ttl);
    } else {
      assert forall now: int64 :: AgreesAt(c, now, skew, ttl);
    }
    assert forall now: int64 ::
      (WindowAt(c, now, skew, ttl) <==> (ValidateResponseClaims(c, now, skew, ttl).None? <==> InWindow(c, now, skew, ttl)));
  }

  /** What TimesExactly leaves of the claim that the check is the interval test at `now`. */
  ghost predicate AgreesAt(c: Claims, now: int64, skew: int, ttl: int) {
    var lifetime := c.expiresAt - c.issuedAt;
    var compared := c.issuedAt <= Wrap64(now + skew) && now <= Wrap64(c.expiresAt + skew);
    && (InWindow(c, now, skew, ttl) ==> Fits(now + skew) && Fits(c.expiresAt + skew))
    && !(compared && lifetime > MAX_INT64 && lifetime - TWO_64 <= ttl)
    && !(compared && 0 < lifetime <= ttl && (now + skew < MIN_INT64 || c.expiresAt + skew < MIN_INT64)
         && !InWindow(c, now, skew, ttl))
  }

  lemma OverlongWindow(c: Claims, skew: int, ttl: int)
    requires -(MAX_INT64 / SECOND) <= skew <= MAX_INT64 / SECOND
    requires -(MAX_INT64 / SECOND) <= ttl <= MAX_INT64 / SECOND && c.expiresAt - c.issuedAt > MAX_INT64
    ensures var lifetime := c.expiresAt - c.issuedAt;
            (forall now: int64 :: AgreesAt(c, now, skew, ttl))
            <==> lifetime - TWO_64 > ttl || (c.expiresAt + skew > MAX_INT64 && lifetime + 2 * skew < TWO_64)
  {
    hide Wrap64;
    var lifetime := c.expiresAt - c.issuedAt;
    WrapFits(c.expiresAt + skew);
    if lifetime - TWO_64 <= ttl && !(c.expiresAt + skew > MAX_INT64 && lifetime + 2 * skew < TWO_64) {
      var now := if c.expiresAt + skew > MAX_INT64 then c.expiresAt + skew - TWO_64
                 else if skew >= 0 then c.issuedAt else c.expiresAt + skew;
      WrapFits(now + skew);
      assert !AgreesAt(c, now, skew, ttl);
    } else {
      forall now: int64
        ensures AgreesAt(c, now, skew, ttl)
      {
        WrapFits(now + skew);
      }
    }
  }

  lemma BoundedWindow(c: Claims, skew: int, ttl: int)
    requires -(MAX_INT64 / SECOND) <= skew <= MAX_INT64 / SECOND
    requires ttl <= MAX_INT64 / SECOND && 0 < c.expiresAt - c.issuedAt <= ttl
    ensures (forall now: int64 :: AgreesAt(c, now, skew, ttl)) <==> skew >= 0 && c.expiresAt + 2 * skew <= MAX_INT64
  {
    hide Wrap64;
    WrapFits(c.expiresAt + skew);
    if skew < 0 {
      // Just above -2^63 the difference with the skew wraps around to a time far in the future.
      var now := if c.issuedAt <= MIN_INT64 + skew + TWO_64 then MIN_INT64 else MIN_INT64 - skew - 1;
      WrapFits(now + skew);
      assert !AgreesAt(c, now, skew, ttl);
    } else if c.expiresAt + 2 * skew > MAX_INT64 {
      var now := if c.expiresAt + skew > MAX_INT64 then MAX_INT64 else c.expiresAt + skew;
      assert !AgreesAt(c, now, skew, ttl);
    } else {
      assert forall now: int64 :: AgreesAt(c, now, skew, ttl);
    }
  }

  ghost predicate WindowAt(c: Claims, now: int64, skew: int, ttl: int) {
    ValidateResponseClaims(c, now, skew, ttl).None? <==> InWindow(c, now, skew, ttl)
  }

  /** The lifetime limit is not kept for every pair of timestamps: a lifetime of 2^63 seconds passes. */
  lemma OverlongLifetimePasses() returns (c: Claims, now: int64)
    ensures ValidateResponseClaims(c, now, 60, 300).None?
    ensures c.expiresAt - c.issuedAt == MAX_INT64 + 1 > 300 && now == 0
  {
    c := Claims([], [], 0, MIN_INT64, Some([]), [], [], [], Some([]), Some([]), None);
    now := 0;
    TimesExactly(c, now, 60, 300);
  }

  /** And so an expected response with such a lifetime is opened, whatever limit the caller set. */
  lemma OverlongLifetimeOpens(p: Primitives, s: Sealing, q: ResponseParams)
    requires Agrees(p) && Verifies(p) && Built(p, s, q)
    requires q.message == BuildSealed(p, s).value && q.brokerPublic == p.signPublic(s.signingSeed)
    requires Matches(p, s, q) && ReplyClaims(s.claims)
    requires q.maxTtl >= 0 && s.claims.expiresAt - s.claims.issuedAt > MAX_INT64
    requires Fits(q.now + q.Skew()) && Fits(s.claims.expiresAt + q.Skew())
    requires s.claims.issuedAt - q.Skew() <= q.now <= s.claims.expiresAt + q.Skew()
    ensures OpenResponse(p, q) == Ok(Response(s.plaintext, s.contentType))
    ensures s.claims.expiresAt - s.claims.issuedAt > q.Ttl()
  {
    hide Agrees, Verifies, Built, Matches, BuildSealed, OpenResponse, ValidateResponseClaims, Wrap64;
    SecondsBounded(OrDefault(q.maxTtl, 300 * SECOND));
    SecondsBounded(OrDefault(q.maxClockSkew, 60 * SECOND));
    ResponseOpensExactly(p, s, q);
    TimesExactly(s.claims, q.now, q.Skew(), q.Ttl());
    WrapFits(q.now + q.Skew());
    WrapFits(s.claims.expiresAt + q.Skew());
  }

  /** The whole seconds of a duration: truncated towards zero, and below 2^63 / 10^9. */
  lemma SecondsBounded(d: int64)
    ensures -(MAX_INT64 / SECOND) <= Seconds(d) <= MAX_INT64 / SECOND
    ensures d >= 0 ==> Seconds(d) * SECOND <= d < (Seconds(d) + 1) * SECOND
    ensures d <= 0 ==> (Seconds(d) - 1) * SECOND < d <= Seconds(d) * SECOND
  {
  }

  /** Without wrap-around, an expected response with a lifetime in (0, maxTTL] opens to its plaintext at
      precisely the times in [iat - skew, exp + skew], and to nothing at any other. */
  lemma ResponseOpensInWindow(p: Primitives, s: Sealing, q: ResponseParams)
    requires Agrees(p) && Verifies(p) && Built(p, s, q)
    requires q.message == BuildSealed(p, s).value && q.brokerPublic == p.signPublic(s.signingSeed)
    requires Matches(p, s, q) && ReplyClaims(s.claims)
    requires Fits(q.now + q.Skew()) && Fits(s.claims.expiresAt + q.Skew())
    requires 0 < s.claims.expiresAt - s.claims.issuedAt <= q.Ttl()
    ensures var r := OpenResponse(p, q);
            if s.claims.issuedAt - q.Skew() <= q.now <= s.claims.expiresAt + q.Skew()
            then r == Ok(Response(s.plaintext, s.contentType)) else r.Err?
  {
    SecondsBounded(OrDefault(q.maxTtl, 300 * SECOND));
    ResponseOpensExactly(p, s, q);
    TimesWithoutWrap(s.claims, q.now, q.Skew(), q.Ttl());
    hide Agrees, Verifies, Built, Matches, BuildSealed, OpenResponse, ValidateResponseClaims;
  }

  /** What the durations of the caller come to: whole seconds truncated towards zero, a minute of skew and five
      minutes of lifetime where none is given. */
  lemma Tolerances(q: ResponseParams)
    ensures q.maxClockSkew == 0 ==> q.Skew() == 60
    ensures q.maxTtl == 0 ==> q.Ttl() == 300
    ensures q.maxClockSkew > 0 ==> q.Skew() * 1_000_000_000 <= q.maxClockSkew < (q.Skew() + 1) * 1_000_000_000
    ensures q.maxTtl > 0 ==> q.Ttl() * 1_000_000_000 <= q.maxTtl < (q.Ttl() + 1) * 1_000_000_000
    ensures q.maxClockSkew < 0 ==> (q.Skew() - 1) * 1_000_000_000 < q.maxClockSkew <= q.Skew() * 1_000_000_000
    ensures q.maxTtl < 0 ==> (q.Ttl() - 1) * 1_000_000_000 < q.maxTtl <= q.Ttl() * 1_000_000_000
  {
    SecondsBounded(OrDefault(q.maxClockSkew, 60_000_000_000));
    SecondsBounded(OrDefault(q.maxTtl, 300_000_000_000));
    hide Seconds;
  }

  /** The reason, if any, why these claims are not in date or not those of a reply: the first of six. */
  function Untimely(c: Claims, now: int, skew: int, ttl: int): Option<Reason> {
    if now < c.issuedAt - skew then Some(IssuedInFuture)
    else if c.issuedAt >= c.expiresAt then Some(NonPositiveTtl)
    else if c.issuedAt + ttl < c.expiresAt then Some(TtlTooLong)
    else if c.expiresAt + skew < now then Some(Expired)
    else if !(c.inReplyTo.Some? && c.requestHash.Some?) then Some(MissingCorrelation)
    else if !ReplyClaims(c) then Some(RequestOnlyClaims)
    else None
  }

  lemma UntimelyWithoutWrap(c: Claims, now: int64, skew: int, ttl: int)
    requires Fits(now + skew) && Fits(c.expiresAt + skew) && Fits(c.expiresAt - c.issuedAt)
    ensures ValidateResponseClaims(c, now, skew, ttl) == Untimely(c, now, skew, ttl)
  {
    WrapFits(now + skew);
    WrapFits(c.expiresAt + skew);
    WrapFits(c.expiresAt - c.issuedAt);
    hide Wrap64;
  }

  lemma PayloadResult(p: Primitives, s: Sealing, q: ResponseParams)
    requires Agrees(p) && Built(p, s, q) && s.signingKeyID == q.brokerKeyID
    ensures var r := OpenPayload(p, q, q.brokerKeyID, BuildEncrypt(p, s).value);
            if !Encodable(s.contentType, s.claims) then r.Err? && r.error.BadHeader?
            else
              match CheckResponse(p, q, q.brokerKeyID, Parsed(s.contentType, s.claims))
              case Some(e) => r == Err(e)
              case None => r == if s.recipientKeyID != q.recipientKeyID then Err(RecipientKid)
                                else Ok(Response(s.plaintext, s.contentType))
  {
    hide Faithful, Encodable, DecodeEncrypt, OpenEncrypt, CheckResponse, BuildEncrypt, EncodeProtected, ParseProtected;
    BuiltEncryptDecodes(p, s);
    if Encodable(s.contentType, s.claims) {
      BuiltEncryptOpens(p, s, q.recipientPrivate, q.recipientKeyID);
    } else {
      BadHeaderRefused(p, s);
    }
  }

  lemma BadHeaderRefused(p: Primitives, s: Sealing)
    requires Agrees(p) && s.Valid() && BuildEncrypt(p, s).Ok? && !Encodable(s.contentType, s.claims)
    ensures DecodeEncrypt(p.codec, BuildEncrypt(p, s).value).Err?
    ensures DecodeEncrypt(p.codec, BuildEncrypt(p, s).value).error.BadHeader?
  {
    hide Faithful, EncodeProtected, ParseProtected, DecodeEncrypt, EncryptValue, RecipientValue, RecipientHeaderBytes,
         Ciphertext, Encodable;
    var header := EncodeProtected(p.codec, s.contentType, s.claims);
    var shared := p.dh(s.ephemeral, s.recipientPublic).value;
    ProtectedRoundTrip(p.codec, s.contentType, s.claims);
    EncryptReadsBack(p.codec, header, s.nonce, Ciphertext(p, s, shared), s.recipientKeyID, p.dhPublic(s.ephemeral));
  }

  /** What comes of a built response, to the reason: the first thing about it that is not as expected, in the order
      signer, header, sender, request id, request hash, times, content type, recipient; or its plaintext. */
  lemma ResponseResult(p: Primitives, s: Sealing, q: ResponseParams)
    requires Agrees(p) && Verifies(p) && Built(p, s, q)
    requires q.message == BuildSealed(p, s).value && q.brokerPublic == p.signPublic(s.signingSeed)
    requires Fits(q.now + q.Skew()) && Fits(s.claims.expiresAt + q.Skew()) && Fits(s.claims.expiresAt - s.claims.issuedAt)
    ensures var r, late := OpenResponse(p, q), Untimely(s.claims, q.now, q.Skew(), q.Ttl());
            if s.signingKeyID != q.brokerKeyID then r == Err(Sign1Kid)
            else if !Encodable(s.contentType, s.claims) then r.Err? && r.error.BadHeader?
            else if s.claims.senderKeyID != q.brokerKeyID then r == Err(SenderMismatch)
            else if s.claims.inReplyTo != Some(q.requestMessageID) && !(s.claims.inReplyTo.None? && q.requestMessageID == [])
            then r == Err(InReplyToMismatch)
            else if s.claims.requestHash != Some(p.sha3(q.request)) && !(s.claims.requestHash.None? && p.sha3(q.request) == [])
            then r == Err(RequestHashMismatch)
            else if late.Some? then r == Err(late.value)
            else if q.expectedContentType !in {[], s.contentType} then r == Err(ContentTypeMismatch)
            else if s.recipientKeyID != q.recipientKeyID then r == Err(RecipientKid)
            else r == Ok(Response(s.plaintext, s.contentType))
  {
    hide Faithful, BuildEncrypt, Sign1HeaderBytes, SigStructure, VerifySign1, OpenPayload, ValidateResponseClaims, Sign1Value,
         Encodable, Untimely;
    var header, payload := Sign1HeaderBytes(p.codec, s.signingKeyID), BuildEncrypt(p, s).value;
    var signature := p.sign(s.signingSeed, SigStructure(p.codec, header, payload));
    Sign1ReadsBack(p, s.signingKeyID, payload, signature, q.brokerKeyID, q.brokerPublic);
    assert p.verify(q.brokerPublic, SigStructure(p.codec, header, payload), signature);
    UntimelyWithoutWrap(s.claims, q.now, q.Skew(), q.Ttl());
    if s.signingKeyID == q.brokerKeyID {
      PayloadResult(p, s, q);
    }
  }

  // ---------- any message at all ----------

  lemma OpenedFacts(p: Primitives, q: ResponseParams)
    requires OpenResponse(p, q).Ok?
    ensures var signed := VerifySign1(p, q.message, q.brokerKeyID, q.brokerPublic);
            && signed.Ok? && signed.value.kid == q.brokerKeyID
            && p.verify(q.brokerPublic, SigStructure(p.codec, signed.value.header, signed.value.payload), signed.value.signature)
            && OpenResponse(p, q) == OpenPayload(p, q, q.brokerKeyID, signed.value.payload)
  {
    hide TaggedBody, HeaderMap, OpenPayload, SigStructure, AsMap, AsBytes;
  }

  /** The fields of the outer message do not depend on who expects what of it. */
  lemma SignedFieldsFixed(p: Primitives, message: bytes, kid: bytes, public: bytes, kid': bytes, public': bytes)
    requires VerifySign1(p, message, kid, public).Ok? && VerifySign1(p, message, kid', public').Ok?
    ensures VerifySign1(p, message, kid, public) == VerifySign1(p, message, kid', public')
  {
  }

  lemma PayloadPinned(p: Primitives, q: ResponseParams, q': ResponseParams, kid: bytes, payload: bytes)
    requires OpenPayload(p, q, kid, payload).Ok? && OpenPayload(p, q', kid, payload).Ok?
    ensures q.requestMessageID == q'.requestMessageID && p.sha3(q.request) == p.sha3(q'.request)
    ensures q.recipientKeyID == q'.recipientKeyID
    ensures OpenPayload(p, q, kid, payload).value.contentType == OpenPayload(p, q', kid, payload).value.contentType
    ensures q.recipientPrivate == q'.recipientPrivate ==> OpenPayload(p, q, kid, payload) == OpenPayload(p, q', kid, payload)
  {
  }

  /** One message answers one request: whatever message is opened twice, the broker key id, the request id,
      the request hash, the recipient key id and the content type are the same both times, and under the
      same private key the plaintext too. So a changed expectation always rejects. */
  lemma ExpectationsPinned(p: Primitives, q: ResponseParams, q': ResponseParams)
    requires q.message == q'.message && OpenResponse(p, q).Ok? && OpenResponse(p, q').Ok?
    ensures q.brokerKeyID == q'.brokerKeyID && q.recipientKeyID == q'.recipientKeyID
    ensures q.requestMessageID == q'.requestMessageID && p.sha3(q.request) == p.sha3(q'.request)
    ensures OpenResponse(p, q).value.contentType == OpenResponse(p, q').value.contentType
    ensures q.recipientPrivate == q'.recipientPrivate ==> OpenResponse(p, q) == OpenResponse(p, q')
  {
    OpenedFacts(p, q);
    OpenedFacts(p, q');
    SignedFieldsFixed(p, q.message, q.brokerKeyID, q.brokerPublic, q'.brokerKeyID, q'.brokerPublic);
    var payload := VerifySign1(p, q.message, q.brokerKeyID, q.brokerPublic).value.payload;
    hide VerifySign1, OpenPayload, OpenResponse;
    PayloadPinned(p, q, q', q.brokerKeyID, payload);
  }

  // ---------- authenticity ----------

  lemma SigItemsPlain(header: bytes, payload: bytes)
    ensures Plain(Array(SigItems(header, payload)), 8) && TextsValid(Array(SigItems(header, payload)))
  {
    hide Utf8Valid, RuneLength;
    AsciiIsUtf8(SIGNATURE1);
    assert forall i :: 0 <= i < 4 ==> TextsValid(SigItems(header, payload)[i]);
  }

  lemma SigStructureInjective(codec: Codec, header: bytes, payload: bytes, header': bytes, payload': bytes)
    requires Faithful(codec) && SigStructure(codec, header, payload) == SigStructure(codec, header', payload')
    ensures header == header' && payload == payload'
  {
    SigItemsPlain(header, payload);
    SigItemsPlain(header', payload');
    hide Plain, TextsValid, Faithful;
    ReadsBack(codec, Array(SigItems(header, payload)));
    ReadsBack(codec, Array(SigItems(header', payload')));
    assert SigItems(header, payload)[1] == Bytes(header) && SigItems(header, payload)[3] == Bytes(payload);
    assert SigItems(header', payload')[1] == Bytes(header') && SigItems(header', payload')[3] == Bytes(payload');
  }

  /** The only signatures that verify under the broker's key are on the messages in `log`. */
  ghost predicate SignedOnly(p: Primitives, public: bytes, log: seq<Sealing>) {
    forall m, signature :: p.verify(public, m, signature) ==> exists j :: 0 <= j < |log| && SignedBy(p, log[j], m)
  }

  ghost predicate SignedBy(p: Primitives, s: Sealing, m: bytes) {
    BuildEncrypt(p, s).Ok? && m == SigStructure(p.codec, Sign1HeaderBytes(p.codec, s.signingKeyID), BuildEncrypt(p, s).value)
  }

  /** Whatever bytes a client opens as a response, they hold one that the broker built, for this request
      and this client, in date, and the client gets the very plaintext and content type that went in. */
  lemma ResponseAuthentic(p: Primitives, q: ResponseParams, log: seq<Sealing>) returns (s: Sealing)
    requires Agrees(p) && SignedOnly(p, q.brokerPublic, log)
    requires forall i :: 0 <= i < |log| ==> log[i].Valid() && BuildSealed(p, log[i]).Ok?
    requires |q.recipientPrivate| == X25519_LEN
    requires forall i :: 0 <= i < |log| && log[i].recipientKeyID == q.recipientKeyID ==>
               log[i].recipientPublic == p.dhPublic(q.recipientPrivate)
    requires OpenResponse(p, q).Ok?
    ensures s in log && Matches(p, s, q)
    ensures ValidateResponseClaims(s.claims, q.now, q.Skew(), q.Ttl()).None?
    ensures OpenResponse(p, q) == Ok(Response(s.plaintext, s.contentType))
  {
    hide Faithful, VerifySign1, OpenPayload, OpenResponse, BuildEncrypt, BuildSealed, SigStructure, Sign1HeaderBytes,
         Matches, ValidateResponseClaims;
    OpenedFacts(p, q);
    var signed := VerifySign1(p, q.message, q.brokerKeyID, q.brokerPublic).value;
    var m := SigStructure(p.codec, signed.header, signed.payload);
    var j :| 0 <= j < |log| && SignedBy(p, log[j], m);
    s := log[j];
    SigStructureInjective(p.codec, signed.header, signed.payload, Sign1HeaderBytes(p.codec, s.signingKeyID), BuildEncrypt(p, s).value);
    OpenedKid(p, q, s);
    OpenedRecipient(p, q, s);
    BuiltPayloadOpens(p, s, q);
  }

  /** The key id in the signed header is the expected one. */
  lemma OpenedKid(p: Primitives, q: ResponseParams, s: Sealing)
    requires Faithful(p.codec) && OpenResponse(p, q).Ok?
    requires VerifySign1(p, q.message, q.brokerKeyID, q.brokerPublic).value.header == Sign1HeaderBytes(p.codec, s.signingKeyID)
    ensures s.signingKeyID == q.brokerKeyID
  {
    Sign1HeaderReadsBack(p.codec, s.signingKeyID);
    hide Faithful, TaggedBody, HeaderMap, Sign1HeaderBytes, SigStructure, OpenPayload, AsMap, AsBytes;
  }

  /** The recipient key id in the payload is the client's. */
  lemma OpenedRecipient(p: Primitives, q: ResponseParams, s: Sealing)
    requires Agrees(p) && s.Valid() && BuildEncrypt(p, s).Ok?
    requires OpenPayload(p, q, q.brokerKeyID, BuildEncrypt(p, s).value).Ok?
    ensures s.recipientKeyID == q.recipientKeyID
  {
    BuiltEncryptDecodes(p, s);
    hide Agrees, Faithful, BuildEncrypt, DecodeEncrypt, CheckResponse, Encodable;
  }

  // ---------- requests ----------

  /** When a request can be built, and the first reason why not. */
  lemma RequestRefusals(p: Primitives, r: RequestParams, ephemeral: bytes, nonce: bytes)
    ensures var b := BuildRequest(p, r, ephemeral, nonce);
            if !(1 <= |r.messageID| <= 64) then b == Err(MessageIDLength)
            else if r.freshnessChallenge.Some? && |r.freshnessChallenge.value| != 32 then b == Err(ChallengeLength)
            else if |r.senderSeed| != 32 then b == Err(SeedLength)
            else if |r.recipientPublic| != 32 then b == Err(RecipientPublicLength)
            else if p.dh(ephemeral, r.recipientPublic).None? then b == Err(DhFailed)
            else b.Ok?
  {
  }

  lemma RequestFields(r: RequestParams)
    ensures var c := RequestClaims(r);
            && c.issuer == r.issuer && c.audience == r.audience && c.issuedAt == r.issuedAt && c.expiresAt == ExpiresAt(r)
            && c.messageID == Some(r.messageID) && c.senderKeyID == r.senderKeyID
            && c.responseKeyID == r.responseKeyID && c.responseSubject == r.responseSubject
            && c.freshnessChallenge == r.freshnessChallenge && c.inReplyTo.None? && c.requestHash.None?
  {
    hide ExpiresAt;
  }

  /** The recipient of a built request finds the caller's own fields in its claims, one by one, and nothing that
      belongs to a response, unless the content type is empty or some text is not UTF-8; and with its private
      key the plaintext. */
  lemma RequestDecodes(p: Primitives, r: RequestParams, ephemeral: bytes, nonce: bytes)
    requires Agrees(p) && Verifies(p) && |ephemeral| == X25519_LEN && |nonce| == NONCE_LEN
    requires BuildRequest(p, r, ephemeral, nonce).Ok?
    ensures var signed := VerifySign1(p, BuildRequest(p, r, ephemeral, nonce).value, r.senderKeyID, p.signPublic(r.senderSeed));
            && signed.Ok? && signed.value.kid == r.senderKeyID
            && var e := DecodeEncrypt(p.codec, signed.value.payload);
               && (e.Ok? <==>
                    && r.contentType != [] && Utf8Valid(r.contentType) && Utf8Valid(r.issuer) && Utf8Valid(r.audience)
                    && Utf8Valid(r.responseKeyID) && Utf8Valid(r.responseSubject))
               && (e.Ok? ==> RequestArrived(p, r, e.value))
  {
    hide Faithful, BuildEncrypt, Sign1HeaderBytes, SigStructure, VerifySign1, DecodeEncrypt, Sign1Value, Utf8Valid, RequestClaims,
         Ciphertext, EncodeProtected, RecipientHeaderBytes, OpenEncrypt;
    var s := RequestSealing(r, ephemeral, nonce);
    RequestFields(r);
    var header, payload := Sign1HeaderBytes(p.codec, s.signingKeyID), BuildEncrypt(p, s).value;
    var signature := p.sign(s.signingSeed, SigStructure(p.codec, header, payload));
    Sign1ReadsBack(p, s.signingKeyID, payload, signature, s.signingKeyID, p.signPublic(s.signingSeed));
    assert p.verify(p.signPublic(s.signingSeed), SigStructure(p.codec, header, payload), signature);
    BuiltEncryptDecodes(p, s);
    if DecodeEncrypt(p.codec, payload).Ok? {
      forall private: bytes | |private| == 32 && r.recipientPublic == p.dhPublic(private)
        ensures OpenEncrypt(p, DecodeEncrypt(p.codec, payload).value, r.recipientKeyID, private) == Ok(r.plaintext)
      {
        BuiltEncryptOpens(p, s, private, r.recipientKeyID);
      }
    }
  }

  /** What the recipient decoded is this request. */
  ghost predicate RequestArrived(p: Primitives, r: RequestParams, e: Encrypted) {
    var c := e.parsed.claims;
    && e.parsed.contentType == r.contentType && e.recipientKeyID == r.recipientKeyID
    && c.issuer == r.issuer && c.audience == r.audience
    && c.issuedAt == r.issuedAt && c.expiresAt == ExpiresAt(r)
    && c.messageID == Some(r.messageID) && c.senderKeyID == r.senderKeyID
    && c.responseKeyID == r.responseKeyID && c.responseSubject == r.responseSubject
    && c.freshnessChallenge == r.freshnessChallenge
    && c.inReplyTo.None? && c.requestHash.None?
    && (forall private: bytes :: |private| == 32 && r.recipientPublic == p.dhPublic(private) ==>
          OpenEncrypt(p, e, r.recipientKeyID, private) == Ok(r.plaintext))
  }

  /** A request lives for its lifetime in whole seconds, or one second more if the fractions of the time of
      issue and of the lifetime add up to one. So one below a second may expire when it is issued. */
  lemma RequestLifetime(r: RequestParams)
    requires r.nanos < SECOND && Fits(r.issuedAt + (r.nanos + OrDefault(r.ttl, 120 * SECOND)) / SECOND)
    ensures var lifetime, ttl := ExpiresAt(r) - r.issuedAt, if r.ttl == 0 then 120_000_000_000 else r.ttl;
            && lifetime * 1_000_000_000 <= r.nanos + ttl < (lifetime + 1) * 1_000_000_000
            && (lifetime > 0 <==> r.nanos + ttl >= 1_000_000_000)
  {
    WrapFits(r.issuedAt + (r.nanos + OrDefault(r.ttl, 120 * SECOND)) / SECOND);
  }
}
