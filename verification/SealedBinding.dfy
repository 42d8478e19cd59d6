/** What a sealed content is bound to: the key agreement, the recipient header and the protected header. */
module SealedBinding {
  import opened Wrappers
  import opened Bytes
  import opened Utf8
  import opened Cbor
  import opened ProtectedHeader
  import opened SealedInvocation
  import opened SealedOpening

  // ---------- the structures on the wire ----------

  lemma KdfContextPlain(alg: int64, recipientHeader: bytes)
    ensures var nobody := Array([Null, Null, Null]);
            var v := Array([Int(alg), nobody, nobody, Array([Int(256), Bytes(recipientHeader)])]);
            Plain(v, 8) && TextsValid(v)
  {
    var nobody := Array([Null, Null, Null]);
    assert Plain(nobody, 7) && TextsValid(nobody);
    var public := Array([Int(256), Bytes(recipientHeader)]);
    assert Plain(public, 7) && TextsValid(public);
  }

  lemma EncItemsPlain(header: bytes)
    ensures var v := Array([Text(ENCRYPT), Bytes(header), Bytes([])]); Plain(v, 8) && TextsValid(v)
  {
    hide Utf8Valid, RuneLength;
    AsciiIsUtf8(ENCRYPT);
  }

  lemma ContextNames()
    ensures Ascii("Signature1") == SIGNATURE1 && Ascii("Encrypt") == ENCRYPT
  {
  }

  /** What is signed, what is authenticated with the content, and what the content key is derived for: the
      structures of sections 4.4 and 5.3 of RFC 9052 and section 5.2 of RFC 9053, with nothing but the one header
      each is about, an empty external_aad, and a 256-bit key for AES-256-GCM. */
  lemma StructuresReadBack(codec: Codec, header: bytes, payload: bytes)
    requires Faithful(codec)
    ensures codec.decode(SigStructure(codec, header, payload))
            == Some(Array([Text(Ascii("Signature1")), Bytes(header), Bytes([]), Bytes(payload)]))
    ensures codec.decode(EncStructure(codec, header)) == Some(Array([Text(Ascii("Encrypt")), Bytes(header), Bytes([])]))
    ensures codec.decode(KdfContext(codec, ALG_A256GCM, header))
            == Some(Array([Int(3), Array([Null, Null, Null]), Array([Null, Null, Null]), Array([Int(256), Bytes(header)])]))
  {
    SigItemsPlain(header, payload);
    EncItemsPlain(header);
    KdfContextPlain(3, header);
    ContextNames();
    hide Plain, TextsValid, Faithful, Ascii;
    ReadsBack(codec, Array(SigItems(header, payload)));
    ReadsBack(codec, Array([Text(ENCRYPT), Bytes(header), Bytes([])]));
    var nobody := Array([Null, Null, Null]);
    ReadsBack(codec, Array([Int(3), nobody, nobody, Array([Int(256), Bytes(header)])]));
  }

  /** Equal structures are about the same header. */
  lemma StructuresInjective(codec: Codec, header: bytes, header': bytes)
    requires Faithful(codec)
    ensures EncStructure(codec, header) == EncStructure(codec, header') ==> header == header'
    ensures KdfContext(codec, ALG_A256GCM, header) == KdfContext(codec, ALG_A256GCM, header') ==> header == header'
  {
    hide EncStructure, KdfContext, SigStructure, Faithful, Ascii;
    StructuresReadBack(codec, header, []);
    StructuresReadBack(codec, header', []);
    assert EncHeader(codec.decode(EncStructure(codec, header))) == header;
    assert EncHeader(codec.decode(EncStructure(codec, header'))) == header';
    assert KdfHeader(codec.decode(KdfContext(codec, ALG_A256GCM, header))) == header;
    assert KdfHeader(codec.decode(KdfContext(codec, ALG_A256GCM, header'))) == header';
  }

  /** The header in a decoded Enc_structure, and in a decoded COSE_KDF_Context. */
  function EncHeader(v: Option<Value>): bytes {
    if v.Some? && v.value.Array? && |v.value.a| == 3 && v.value.a[1].Bytes? then v.value.a[1].b else []
  }

  function KdfHeader(v: Option<Value>): bytes {
    if v.Some? && v.value.Array? && |v.value.a| == 4
       && v.value.a[3].Array? && |v.value.a[3].a| == 2 && v.value.a[3].a[1].Bytes?
    then v.value.a[3].a[1].b else []
  }

  // ---------- a world of sealings ----------

  /** The key that a shared secret leads to: HKDF of the secret for AES-256-GCM and the header of the one recipient. */
  function KeyFrom(p: Primitives, secret: bytes): bytes {
    p.hkdf(secret, KdfContext(p.codec, ALG_A256GCM, RecipientHeaderBytes(p.codec)))
  }

  /** A sealing with a key agreement that succeeded, and its secret. */
  ghost predicate Agreed(p: Primitives, s: Sealing) {
    s.Valid() && p.dh(s.ephemeral, s.recipientPublic).Some?
  }

  function Secret(p: Primitives, s: Sealing): bytes
    requires Agreed(p, s)
  {
    p.dh(s.ephemeral, s.recipientPublic).value
  }

  /** The content of a sealing, as AES-256-GCM seals it. */
  function SealedContent(p: Primitives, s: Sealing): bytes
    requires Agreed(p, s)
  {
    p.seal(KeyFrom(p, Secret(p, s)), s.nonce, s.plaintext,
           EncStructure(p.codec, EncodeProtected(p.codec, s.contentType, s.claims)))
  }

  /** The tuple is what this sealing sealed. */
  ghost predicate SealedAs(p: Primitives, s: Sealing, key: bytes, nonce: bytes, ciphertext: bytes, aad: bytes, plaintext: bytes)
    requires Agreed(p, s)
  {
    && key == KeyFrom(p, Secret(p, s)) && nonce == s.nonce && plaintext == s.plaintext
    && aad == EncStructure(p.codec, EncodeProtected(p.codec, s.contentType, s.claims))
    && ciphertext == SealedContent(p, s)
  }

  ghost predicate SealedSomewhere(p: Primitives, log: seq<Sealing>,
                                  key: bytes, nonce: bytes, ciphertext: bytes, aad: bytes, plaintext: bytes)
    requires forall i :: 0 <= i < |log| ==> Agreed(p, log[i])
  {
    exists i :: 0 <= i < |log| && SealedAs(p, log[i], key, nonce, ciphertext, aad, plaintext)
  }

  /** A key that the holder of `private` can come to, from whatever public key and for whatever purpose. */
  ghost predicate Reaches(p: Primitives, private: bytes, public: bytes, info: bytes, key: bytes) {
    p.dh(private, public).Some? && key == p.hkdf(p.dh(private, public).value, info)
  }

  /** A finite log of sealings, which open; under the keys that the holder of `private` can come to nothing else
      does, and none of those keys has a second origin. Other keys are not spoken of. */
  ghost predicate OnlySealed(p: Primitives, private: bytes, log: seq<Sealing>) {
    && (forall i :: 0 <= i < |log| ==> Agreed(p, log[i]) && Reopens(p, log[i]))
    && (forall public, info, key, n, c, ad {:trigger Reaches(p, private, public, info, key), p.open(key, n, c, ad)} ::
          Reaches(p, private, public, info, key) && p.open(key, n, c, ad).Some? ==>
            SealedSomewhere(p, log, key, n, c, ad, p.open(key, n, c, ad).value))
    && (forall i, public, info :: 0 <= i < |log| && Reaches(p, private, public, info, KeyFrom(p, Secret(p, log[i]))) ==>
          && p.dh(private, public).value == Secret(p, log[i])
          && info == KdfContext(p.codec, ALG_A256GCM, RecipientHeaderBytes(p.codec)))
  }

  ghost predicate Reopens(p: Primitives, s: Sealing)
    requires Agreed(p, s)
  {
    p.open(KeyFrom(p, Secret(p, s)), s.nonce, SealedContent(p, s),
           EncStructure(p.codec, EncodeProtected(p.codec, s.contentType, s.claims))) == Some(s.plaintext)
  }

  /** The message carries this sealing, whole and unchanged, and its ephemeral key leads `private` to the secret
      the sealing was made with. */
  ghost predicate Carries(p: Primitives, s: Sealing, private: bytes, e: Encrypted) {
    && Agreed(p, s)
    && e.iv == s.nonce && e.ciphertext == SealedContent(p, s)
    && e.header == EncodeProtected(p.codec, s.contentType, s.claims)
    && e.recipientHeader == RecipientHeaderBytes(p.codec)
    && p.dh(private, e.ephemeral) == Some(Secret(p, s))
  }

  lemma CarriedOpens(p: Primitives, private: bytes, s: Sealing, e: Encrypted, kid: bytes)
    requires Carries(p, s, private, e) && Reopens(p, s)
    requires e.recipientKeyID == kid && |private| == 32 && |e.ephemeral| == 32
    ensures OpenEncrypt(p, e, kid, private) == Ok(s.plaintext)
  {
    hide EncStructure, KdfContext, EncodeProtected, RecipientHeaderBytes;
  }

  lemma OpenedIsCarried(p: Primitives, private: bytes, log: seq<Sealing>, e: Encrypted, kid: bytes) returns (i: nat)
    requires Faithful(p.codec) && OnlySealed(p, private, log) && OpenEncrypt(p, e, kid, private).Ok?
    ensures i < |log| && Carries(p, log[i], private, e) && OpenEncrypt(p, e, kid, private) == Ok(log[i].plaintext)
  {
    hide EncStructure, KdfContext, EncodeProtected, RecipientHeaderBytes, Faithful;
    var info := KdfContext(p.codec, ALG_A256GCM, e.recipientHeader);
    var key, aad := p.hkdf(p.dh(private, e.ephemeral).value, info), EncStructure(p.codec, e.header);
    assert Reaches(p, private, e.ephemeral, info, key);
    var plaintext := p.open(key, e.iv, e.ciphertext, aad).value;
    assert SealedSomewhere(p, log, key, e.iv, e.ciphertext, aad, plaintext);
    var j: nat :| j < |log| && SealedAs(p, log[j], key, e.iv, e.ciphertext, aad, plaintext);
    i := j;
    StructuresInjective(p.codec, e.header, EncodeProtected(p.codec, log[i].contentType, log[i].claims));
    StructuresInjective(p.codec, e.recipientHeader, RecipientHeaderBytes(p.codec));
  }

  /** What opening binds. The recipient gets a plaintext exactly out of a message that carries a logged sealing's
      nonce, ciphertext, protected header and recipient header under its own key id, with an ephemeral key that
      leads its private key to the secret of that very sealing: then it gets that sealing's plaintext. */
  lemma OpensExactly(p: Primitives, private: bytes, log: seq<Sealing>, e: Encrypted, kid: bytes, plaintext: bytes)
    requires Faithful(p.codec) && OnlySealed(p, private, log)
    ensures OpenEncrypt(p, e, kid, private) == Ok(plaintext) <==>
              && e.recipientKeyID == kid && |private| == 32 && |e.ephemeral| == 32
              && exists i :: 0 <= i < |log| && Carries(p, log[i], private, e) && plaintext == log[i].plaintext
  {
    if OpenEncrypt(p, e, kid, private) == Ok(plaintext) {
      var i := OpenedIsCarried(p, private, log, e, kid);
    }
    hide OpenEncrypt, Carries, Faithful;
    if e.recipientKeyID == kid && |private| == 32 && |e.ephemeral| == 32 {
      if i :| 0 <= i < |log| && Carries(p, log[i], private, e) && plaintext == log[i].plaintext {
        CarriedOpens(p, private, log[i], e, kid);
      }
    }
  }

  /** And why nothing comes out of any other message. */
  lemma OpenRefused(p: Primitives, private: bytes, log: seq<Sealing>, e: Encrypted, kid: bytes)
    requires Faithful(p.codec) && OnlySealed(p, private, log)
    ensures var r := OpenEncrypt(p, e, kid, private);
            if kid != e.recipientKeyID then r == Err(RecipientKid)
            else if |private| != 32 then r == Err(PrivateKeyLength)
            else if |e.ephemeral| != 32 then r == Err(BadEphemeral)
            else if p.dh(private, e.ephemeral) == None then r == Err(DhFailed)
            else if forall i :: 0 <= i < |log| ==> !Carries(p, log[i], private, e) then r == Err(OpenFailed)
            else r.Ok?
  {
    var r := OpenEncrypt(p, e, kid, private);
    if r.Ok? {
      var i := OpenedIsCarried(p, private, log, e, kid);
    }
    hide Carries, Faithful, OnlySealed, EncStructure, ContentKey;
    if e.recipientKeyID == kid && |private| == 32 && |e.ephemeral| == 32 {
      if i :| 0 <= i < |log| && Carries(p, log[i], private, e) {
        OpensExactly(p, private, log, e, kid, log[i].plaintext);
      }
    }
  }

  // ---------- whole payloads ----------

  lemma DecodedParts(codec: Codec, message: bytes)
    requires DecodeEncrypt(codec, message).Ok?
    ensures var e := DecodeEncrypt(codec, message).value;
            ParseProtected(codec, e.header) == Ok(e.parsed) && |e.iv| == 12 && |e.ephemeral| == 32
  {
    hide TaggedBody, HeaderMap, ParseProtected, AsMap, AsBytes, ToRecipients;
  }

  /** The payload decodes to a message that carries `s`, for this recipient, as the expected response. */
  ghost predicate Delivers(p: Primitives, s: Sealing, q: ResponseParams, kid: bytes, payload: bytes) {
    && DecodeEncrypt(p.codec, payload).Ok?
    && var e := DecodeEncrypt(p.codec, payload).value;
       && Carries(p, s, q.recipientPrivate, e) && e.recipientKeyID == q.recipientKeyID
       && CheckResponse(p, q, kid, Parsed(s.contentType, s.claims)).None?
  }

  /** Whatever payload is opened as a response, signed by whom it may be, it carries a logged sealing for this
      private key, claims and content type included: nothing of it can be changed or moved to another message. */
  lemma PayloadsExactly(p: Primitives, log: seq<Sealing>, q: ResponseParams, kid: bytes, payload: bytes, r: Response)
    requires Faithful(p.codec) && OnlySealed(p, q.recipientPrivate, log) && |q.recipientPrivate| == 32
    ensures OpenPayload(p, q, kid, payload) == Ok(r) <==>
              exists i :: 0 <= i < |log| && Delivers(p, log[i], q, kid, payload)
                          && r == Response(log[i].plaintext, log[i].contentType)
  {
    hide DecodeEncrypt, OpenEncrypt, OnlySealed, CheckResponse, Faithful, ParseProtected, EncodeProtected, Encodable,
         SealedContent, RecipientHeaderBytes;
    if DecodeEncrypt(p.codec, payload).Ok? {
      var e := DecodeEncrypt(p.codec, payload).value;
      DecodedParts(p.codec, payload);
      forall i | 0 <= i < |log| && Carries(p, log[i], q.recipientPrivate, e)
        ensures e.parsed == Parsed(log[i].contentType, log[i].claims)
      {
        ProtectedRoundTrip(p.codec, log[i].contentType, log[i].claims);
      }
      if OpenPayload(p, q, kid, payload) == Ok(r) {
        OpensExactly(p, q.recipientPrivate, log, e, q.recipientKeyID, r.plaintext);
        var i :| 0 <= i < |log| && Carries(p, log[i], q.recipientPrivate, e) && r.plaintext == log[i].plaintext;
        OpenedUnderKid(p, e, q.recipientKeyID, q.recipientPrivate);
        assert Delivers(p, log[i], q, kid, payload);
      }
      if i :| 0 <= i < |log| && Delivers(p, log[i], q, kid, payload) && r == Response(log[i].plaintext, log[i].contentType) {
        OpensExactly(p, q.recipientPrivate, log, e, q.recipientKeyID, r.plaintext);
      }
    }
  }

  lemma OpenedUnderKid(p: Primitives, e: Encrypted, kid: bytes, private: bytes)
    requires OpenEncrypt(p, e, kid, private).Ok?
    ensures e.recipientKeyID == kid
  {
  }

  /** The builder's message carries the sealing it was built from to whoever agrees on the secret. */
  lemma BuiltCarries(p: Primitives, s: Sealing, private: bytes)
    requires Faithful(p.codec) && s.Valid() && BuildEncrypt(p, s).Ok? && Encodable(s.contentType, s.claims)
    requires |p.dhPublic(s.ephemeral)| == 32 && p.dh(private, p.dhPublic(s.ephemeral)) == p.dh(s.ephemeral, s.recipientPublic)
    ensures var e := DecodeEncrypt(p.codec, BuildEncrypt(p, s).value);
            && e.Ok? && Carries(p, s, private, e.value) && e.value.recipientKeyID == s.recipientKeyID
  {
    hide Faithful, EncodeProtected, ParseProtected, DecodeEncrypt, EncryptValue, RecipientValue, RecipientHeaderBytes,
         Encodable, EncStructure, KdfContext;
    var header := EncodeProtected(p.codec, s.contentType, s.claims);
    ProtectedRoundTrip(p.codec, s.contentType, s.claims);
    EncryptReadsBack(p.codec, header, s.nonce, Ciphertext(p, s, Secret(p, s)), s.recipientKeyID, p.dhPublic(s.ephemeral));
  }
}
