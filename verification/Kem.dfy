/** ML-KEM containers: the content key wrapped once in an envelope behind the fixed header. */
module Kem {
  import opened Wrappers
  import opened Bytes
  import opened Format
  import opened Aead
  import opened Chunking
  import opened Records
  import opened Safety
  import opened Schedule
  import opened StreamIO
  import opened Stream
  import opened Container

  const ML_KEM_SEED_LEN := 64
  const WRAPPED_CEK_LEN := CEK_LEN + TAG_LEN

  /** "basil-ml-kem-envelope-v1" */
  const KEM_ENVELOPE_LABEL: bytes :=
    [0x62, 0x61, 0x73, 0x69, 0x6C, 0x2D, 0x6D, 0x6C, 0x2D, 0x6B, 0x65, 0x6D, 0x2D, 0x65, 0x6E, 0x76,
     0x65, 0x6C, 0x6F, 0x70, 0x65, 0x2D, 0x76, 0x31]

  /** "aes-256-gcm" */
  const ENV_TOKEN_AES_256_GCM: bytes := [0x61, 0x65, 0x73, 0x2D, 0x32, 0x35, 0x36, 0x2D, 0x67, 0x63, 0x6D]

  /** The key-encapsulation scheme of each suite (FIPS 203), kept abstract. */
  datatype KemScheme = KemScheme(
    derive: (byte, bytes) -> (bytes, bytes),              // suite, seed -> public key, private key
    canonical: (byte, bytes) -> Option<bytes>,            // suite, public key as given -> re-serialised
    encapsulate: (byte, bytes, bytes) -> (bytes, bytes),  // suite, public key, randomness -> ciphertext, secret
    decapsulate: (byte, bytes, bytes) -> bytes)           // suite, private key, ciphertext -> secret

  predicate IsMlKemSuite(suiteID: byte) {
    MlKemCiphertextLen(suiteID).Some?
  }

  /** Decapsulation inverts encapsulation, and ciphertexts have the length of their suite. */
  ghost predicate Correct(k: KemScheme) {
    forall suite: byte, seed: bytes, rnd: bytes {:trigger k.encapsulate(suite, k.derive(suite, seed).0, rnd)} ::
      IsMlKemSuite(suite) && |seed| == ML_KEM_SEED_LEN ==>
        var (pk, sk) := k.derive(suite, seed);
        var (ct, secret) := k.encapsulate(suite, pk, rnd);
        && k.canonical(suite, pk) == Some(pk)
        && |ct| == MlKemCiphertextLen(suite).value
        && k.decapsulate(suite, sk, ct) == secret
  }

  datatype KemEnvelope = KemEnvelope(encapsulatedKey: bytes, nonce: bytes, ciphertext: bytes) {
    predicate Valid(suiteID: byte) {
      && IsMlKemSuite(suiteID)
      && |encapsulatedKey| == MlKemCiphertextLen(suiteID).value
      && |nonce| == NONCE_LEN
      && |ciphertext| == WRAPPED_CEK_LEN
    }
  }

  /** The errors of a recovery are its own: not none, and not those of the stream's reader and writer. */
  type RecoveryError = e: Error | e !in {Nil, SourceFault, SinkFault} witness AuthFailed

  /** How a decryptor gets the content key out of an envelope and its additional data. */
  type Recovery = (KemEnvelope, bytes) -> Result<bytes, RecoveryError>

  // ---------- the envelope on the wire ----------

  function SerializeKemHeader(env: KemEnvelope): bytes {
    BigEndian(|env.encapsulatedKey| % TWO_32, 4) + env.encapsulatedKey + env.nonce
    + BigEndian(|env.ciphertext| % TWO_32, 4) + env.ciphertext
  }

  /** The envelope at the head of `data`, and what follows it. */
  function ParseKemEnvelope(data: bytes, suiteID: byte): Result<(KemEnvelope, bytes), Error> {
    match MlKemCiphertextLen(suiteID)
    case None => Err(SuiteMismatch)
    case Some(expected) =>
      match NextLen(data)
      case Torn => Err(Truncated)
      case End => Err(ShortHeader)
      case Len(kemCtLen, rest) =>
        if kemCtLen != expected then Err(BadKemCiphertext)
        else if |rest| < expected + NONCE_LEN then Err(Truncated)
        else
          match NextLen(rest[expected + NONCE_LEN..])
          case Torn => Err(Truncated)
          case End => Err(ShortHeader)
          case Len(wrappedLen, tail) =>
            if wrappedLen != WRAPPED_CEK_LEN then Err(BadKemCiphertext)
            else if |tail| < WRAPPED_CEK_LEN then Err(Truncated)
            else
              Ok((KemEnvelope(rest[..expected], rest[expected..expected + NONCE_LEN], tail[..WRAPPED_CEK_LEN]),
                  tail[WRAPPED_CEK_LEN..]))
  }

  /** Every envelope of the suite is read back from its own bytes, and nothing more is consumed. */
  lemma EnvelopeRoundTrip(env: KemEnvelope, suiteID: byte, rest: bytes)
    requires env.Valid(suiteID)
    ensures ParseKemEnvelope(SerializeKemHeader(env) + rest, suiteID) == Ok((env, rest))
  {
    hide BigEndian, NextLen, ParseKemEnvelope;
    var ek, ct := env.encapsulatedKey, env.ciphertext;
    var second := BigEndian(|ct| % TWO_32, 4) + ct + rest;
    PrefixReads(ct, rest);
    PrefixReads(ek, env.nonce + second);
    var data := SerializeKemHeader(env) + rest;
    assert data == BigEndian(|ek| % TWO_32, 4) + ek + (env.nonce + second);
    EnvelopeSteps(data, suiteID, env, second, rest);
  }

  /** The parser on an envelope whose two lengths it has found. */
  lemma EnvelopeSteps(data: bytes, suiteID: byte, env: KemEnvelope, second: bytes, rest: bytes)
    requires env.Valid(suiteID)
    requires NextLen(data) == Len(|env.encapsulatedKey|, env.encapsulatedKey + (env.nonce + second))
    requires NextLen(second) == Len(|env.ciphertext|, env.ciphertext + rest)
    ensures ParseKemEnvelope(data, suiteID) == Ok((env, rest))
  {
    hide NextLen;
    var ek, ct := env.encapsulatedKey, env.ciphertext;
    var body := ek + (env.nonce + second);
    assert body[..|ek|] == ek && body[|ek|..|ek| + NONCE_LEN] == env.nonce && body[|ek| + NONCE_LEN..] == second;
    assert (ct + rest)[..|ct|] == ct && (ct + rest)[|ct|..] == rest;
  }

  lemma EnvelopeFront(data: bytes, n: nat) returns (ek: bytes, nonce: bytes, second: bytes)
    requires NextLen(data).Len? && NextLen(data).length == n && n + NONCE_LEN <= |NextLen(data).rest|
    ensures var rest := NextLen(data).rest;
            ek == rest[..n] && nonce == rest[n..n + NONCE_LEN] && second == rest[n + NONCE_LEN..]
    ensures |ek| == n && |nonce| == NONCE_LEN
    ensures data == BigEndian(|ek| % TWO_32, 4) + ek + (nonce + second)
  {
    var body;
    ek, body := PrefixFound(data);
    hide NextLen, BigEndian;
    var rest := ek + body;
    nonce, second := body[..NONCE_LEN], body[NONCE_LEN..];
    assert rest[..n] == ek && rest[n..n + NONCE_LEN] == nonce && rest[n + NONCE_LEN..] == second;
    assert body == nonce + second;
  }

  lemma EnvelopeBack(second: bytes, n: nat) returns (ct: bytes, tail: bytes)
    requires NextLen(second).Len? && NextLen(second).length == n <= |NextLen(second).rest|
    ensures ct == NextLen(second).rest[..n] && tail == NextLen(second).rest[n..] && |ct| == n
    ensures second == BigEndian(|ct| % TWO_32, 4) + ct + tail
  {
    ct, tail := PrefixFound(second);
    hide NextLen, BigEndian;
    var rest := ct + tail;
    assert rest[..n] == ct && rest[n..] == tail;
  }

  /** Conversely, an accepted envelope re-serialises to exactly the bytes it was read from. */
  lemma EnvelopeCanonical(data: bytes, suiteID: byte)
    requires ParseKemEnvelope(data, suiteID).Ok?
    ensures var (env, rest) := ParseKemEnvelope(data, suiteID).value;
            env.Valid(suiteID) && data == SerializeKemHeader(env) + rest
  {
    hide NextLen, BigEndian, FromBigEndian;
    var ek, nonce, second := EnvelopeFront(data, MlKemCiphertextLen(suiteID).value);
    var ct, tail := EnvelopeBack(second, WRAPPED_CEK_LEN);
    assert ParseKemEnvelope(data, suiteID).value == (KemEnvelope(ek, nonce, ct), tail);
  }

  // ---------- wrapping and recovering the content key ----------

  function KemToken(suiteID: byte): bytes
    requires IsMlKemSuite(suiteID)
  {
    [0x6D, 0x6C, 0x2D, 0x6B, 0x65, 0x6D, 0x2D]                        // "ml-kem-"
    + if suiteID == SUITE_ML_KEM_512 then [0x35, 0x31, 0x32]          // "512"
      else if suiteID == SUITE_ML_KEM_768 then [0x37, 0x36, 0x38]     // "768"
      else [0x31, 0x30, 0x32, 0x34]                                   // "1024"
  }

  function KemInfo(suiteID: byte, encapsulatedKey: bytes, publicKey: bytes): bytes
    requires IsMlKemSuite(suiteID)
  {
    KEM_ENVELOPE_LABEL + KemToken(suiteID) + ENV_TOKEN_AES_256_GCM + encapsulatedKey + publicKey
  }

  function DeriveKemAeadKey(a: Primitives, suiteID: byte, secret: bytes, encapsulatedKey: bytes, publicKey: bytes): bytes
    requires IsMlKemSuite(suiteID)
  {
    a.hkdf(secret, Zeros(32), KemInfo(suiteID, encapsulatedKey, publicKey))
  }

  /** The wrap's KDF info determines suite, encapsulated key and public key, although no lengths are
      written: the token fixes the suite, and the suite the length of the encapsulated key. */
  lemma KemInfoInjective(s: byte, ek: bytes, pk: bytes, s': byte, ek': bytes, pk': bytes)
    requires IsMlKemSuite(s) && |ek| == MlKemCiphertextLen(s).value
    requires IsMlKemSuite(s') && |ek'| == MlKemCiphertextLen(s').value
    requires KemInfo(s, ek, pk) == KemInfo(s', ek', pk')
    ensures (s, ek, pk) == (s', ek', pk')
  {
    var i, i' := KemInfo(s, ek, pk), KemInfo(s', ek', pk');
    assert i[31] == KemToken(s)[7] && i'[31] == KemToken(s')[7];
    assert s == s';
    var n := 24 + |KemToken(s)| + 11;
    assert i[n..] == ek + pk && i'[n..] == ek' + pk';
    SplitEqual(ek, pk, ek', pk');
  }

  /** The two uses of the KDF never share an info string. */
  lemma InfosSeparate(s: byte, id: bytes, s': byte, ek: bytes, pk: bytes)
    requires IsMlKemSuite(s')
    ensures MessageKeyInfo(s, id) != KemInfo(s', ek, pk)
  {
    assert MessageKeyInfo(s, id)[6] == 0x73 && KemInfo(s', ek, pk)[6] == 0x6D;
  }

  /** Wraps `cek` for the holder of `publicKey`. The randomness of the scheme and the nonce are drawn. */
  function WrapCek(a: Primitives, k: KemScheme, publicKey: bytes, suiteID: byte, cek: bytes, aad: bytes,
                   rnd: bytes, nonce: bytes): Result<KemEnvelope, Error>
  {
    if !IsMlKemSuite(suiteID) then Err(SuiteMismatch)
    else
      match k.canonical(suiteID, publicKey)
      case None => Err(BadPublicKey)
      case Some(pk) =>
        var (encapsulatedKey, secret) := k.encapsulate(suiteID, pk, rnd);
        var key := DeriveKemAeadKey(a, suiteID, secret, encapsulatedKey, pk);
        Ok(KemEnvelope(encapsulatedKey, nonce, a.seal(Aes256Gcm, key, nonce, cek, aad)))
  }

  function OpenCekLocal(a: Primitives, k: KemScheme, seed: bytes, suiteID: byte, env: KemEnvelope, aad: bytes)
    : Result<bytes, RecoveryError>
  {
    if !IsMlKemSuite(suiteID) then Err(SuiteMismatch)
    else if |seed| != ML_KEM_SEED_LEN then Err(BadKemCiphertext)
    else if |env.encapsulatedKey| != MlKemCiphertextLen(suiteID).value then Err(BadKemCiphertext)
    else
      var (pk, sk) := k.derive(suiteID, seed);
      var secret := k.decapsulate(suiteID, sk, env.encapsulatedKey);
      var key := DeriveKemAeadKey(a, suiteID, secret, env.encapsulatedKey, pk);
      match a.open(Aes256Gcm, key, env.nonce, env.ciphertext, aad)
      case None => Err(AuthFailed)
      case Some(cek) => Ok(cek)
  }

  /** LocalSeedCEKRecovery as a recovery. */
  function LocalSeed(a: Primitives, k: KemScheme, seed: bytes, suiteID: byte): Recovery {
    (env, aad) => OpenCekLocal(a, k, seed, suiteID, env, aad)
  }

  /** The holder of the seed recovers the very key that was wrapped: both sides rebuild the same KDF
      info and additional data. */
  lemma WrapRoundTrip(a: Primitives, k: KemScheme, seed: bytes, suiteID: byte, cek: bytes, aad: bytes,
                      rnd: bytes, nonce: bytes)
    requires Tidy(a) && Correct(k) && IsMlKemSuite(suiteID)
    requires |seed| == ML_KEM_SEED_LEN && |cek| == CEK_LEN && |nonce| == NONCE_LEN
    ensures var wrapped := WrapCek(a, k, k.derive(suiteID, seed).0, suiteID, cek, aad, rnd, nonce);
            && wrapped.Ok? && wrapped.value.Valid(suiteID)
            && OpenCekLocal(a, k, seed, suiteID, wrapped.value, aad) == Ok(cek)
  {
    var (pk, sk) := k.derive(suiteID, seed);
    var (ct, secret) := k.encapsulate(suiteID, k.derive(suiteID, seed).0, rnd);
    var key := DeriveKemAeadKey(a, suiteID, secret, ct, pk);
    assert a.open(Aes256Gcm, key, nonce, a.seal(Aes256Gcm, key, nonce, cek, aad), aad) == Some(cek);
  }

  // ---------- whole containers ----------

  function MlKemContainer(a: Primitives, h: Header, env: KemEnvelope, cek: bytes, p: bytes): bytes
    requires h.Valid()
  {
    SealedMlKem(a, h, env, cek, Chunks(p, h.chunkSize))
  }

  /** The header and the envelope, then the records of any chunks. */
  function SealedMlKem(a: Primitives, h: Header, env: KemEnvelope, cek: bytes, chs: seq<bytes>): bytes
    requires h.Valid()
  {
    WriteFixedHeader(h) + SerializeKemHeader(env) + Frames(a, ContextFor(a, h, cek), 0, chs)
  }

  /** What ML-KEM decryption makes of any bytes. */
  function DecryptMlKemBytes(a: Primitives, recover: Recovery, data: bytes): Outcome {
    match ParseFixedHeader(data)
    case Err(e) => Outcome([], e)
    case Ok(h) =>
      if !IsMlKemSuite(h.suiteID) then Outcome([], SuiteMismatch)
      else
        match ParseKemEnvelope(data[FIXED_HEADER_LEN..], h.suiteID)
        case Err(e) => Outcome([], e)
        case Ok((env, rest)) =>
          match recover(env, CekWrapAad(h.suiteID, h.streamID))
          case Err(e) => Outcome([], e)
          case Ok(cek) =>
            if |cek| != CEK_LEN then Outcome([], BadCekLength)
            else ReadBody(a, ContextFor(a, h, cek), rest)
  }

  /** The content key that ML-KEM decryption of the bytes comes to, if it gets that far. */
  function RecoveredKey(recover: Recovery, data: bytes): Option<bytes> {
    match ParseFixedHeader(data)
    case Err(_) => None
    case Ok(h) =>
      match ParseKemEnvelope(data[FIXED_HEADER_LEN..], h.suiteID)
      case Err(_) => None
      case Ok((env, _)) =>
        match recover(env, CekWrapAad(h.suiteID, h.streamID))
        case Err(_) => None
        case Ok(cek) => Some(cek)
  }

  /** ML-KEM round trip: sealed to the public key of `seed`, the container decrypts with `seed` to the
      plaintext, in the very chunks that were sealed. */
  lemma MlKemRoundTrip(a: Primitives, k: KemScheme, seed: bytes, h: Header, cek: bytes, p: bytes,
                       rnd: bytes, nonce: bytes)
    requires Tidy(a) && Correct(k) && h.Valid() && IsMlKemSuite(h.suiteID)
    requires |seed| == ML_KEM_SEED_LEN && |cek| == CEK_LEN && |nonce| == NONCE_LEN
    ensures var aad := CekWrapAad(h.suiteID, h.streamID);
            var wrapped := WrapCek(a, k, k.derive(h.suiteID, seed).0, h.suiteID, cek, aad, rnd, nonce);
            && wrapped.Ok?
            && DecryptMlKemBytes(a, LocalSeed(a, k, seed, h.suiteID), MlKemContainer(a, h, wrapped.value, cek, p))
               == Outcome(Chunks(p, h.chunkSize), Nil)
    ensures Flatten(Chunks(p, h.chunkSize)) == p
  {
    var c, chs := ContextFor(a, h, cek), Chunks(p, h.chunkSize);
    var aad := CekWrapAad(h.suiteID, h.streamID);
    WrapRoundTrip(a, k, seed, h.suiteID, cek, aad, rnd, nonce);
    var env := WrapCek(a, k, k.derive(h.suiteID, seed).0, h.suiteID, cek, aad, rnd, nonce).value;
    ChunksWellChunked(p, h.chunkSize);
    AcceptedLanguage(a, c, Frames(a, c, 0, chs), chs);
    RecoveredBody(a, LocalSeed(a, k, seed, h.suiteID), h, env, cek, Frames(a, c, 0, chs));
  }

  lemma RecoveredBody(a: Primitives, recover: Recovery, h: Header, env: KemEnvelope, cek: bytes, body: bytes)
    requires h.Valid() && env.Valid(h.suiteID) && |cek| == CEK_LEN
    requires recover(env, CekWrapAad(h.suiteID, h.streamID)) == Ok(cek)
    ensures DecryptMlKemBytes(a, recover, WriteFixedHeader(h) + SerializeKemHeader(env) + body)
            == ReadBody(a, ContextFor(a, h, cek), body)
  {
    hide SerializeKemHeader, ParseKemEnvelope, ReadBody, CekWrapAad, DeriveMessageKey;
    var rest := SerializeKemHeader(env) + body;
    var data := WriteFixedHeader(h) + SerializeKemHeader(env) + body;
    assert data == WriteFixedHeader(h) + rest;
    HeaderRoundTrip(h, rest);
    assert data[FIXED_HEADER_LEN..] == rest;
    EnvelopeRoundTrip(env, h.suiteID, body);
  }

  // ---------- the entry points ----------

  /** The random bytes drawn by one ML-KEM encryption. */
  datatype KemEntropy = KemEntropy(stream: Entropy, encapsulation: bytes, nonce: bytes) {
    predicate Valid() {
      stream.Valid() && |nonce| == NONCE_LEN
    }
  }

  lemma WrapFailure(a: Primitives, k: KemScheme, publicKey: bytes, suiteID: byte, cek: bytes, aad: bytes,
                    rnd: bytes, nonce: bytes)
    requires IsMlKemSuite(suiteID)
    ensures var r := WrapCek(a, k, publicKey, suiteID, cek, aad, rnd, nonce);
            && (r.Err? <==> k.canonical(suiteID, publicKey).None?)
            && (r.Err? ==> r.error == BadPublicKey)
  {
  }

  method EncryptMLKEM(a: Primitives, k: KemScheme, dst: Sink, src: Source, suite: byte, publicKey: bytes,
                      chunkSize: int, entropy: KemEntropy)
    returns (err: Error, ghost h: Header, ghost env: KemEnvelope, ghost chs: seq<bytes>)
    requires entropy.Valid()
    modifies dst`writes, src`data, src`calls, src`peak
    ensures err == SuiteMismatch <==> !(3 <= suite <= 5)
    ensures err == BadChunkSize <==> 3 <= suite <= 5 && !(1 <= chunkSize <= 1048576)
    ensures err == BadPublicKey <==> 3 <= suite <= 5 && 1 <= chunkSize <= 1048576
                                     && k.canonical(suite, publicKey) == None
    ensures err in {SuiteMismatch, BadChunkSize, BadPublicKey} ==>
              dst.writes == old(dst.writes) && src.data == old(src.data)
    ensures err !in {SuiteMismatch, BadChunkSize, BadPublicKey} ==>
              && h == Header(suite, chunkSize, entropy.stream.streamID, entropy.stream.streamSalt) && h.Valid()
              && WrapCek(a, k, publicKey, suite, entropy.stream.cek, CekWrapAad(suite, h.streamID),
                         entropy.encapsulation, entropy.nonce) == Ok(env)
              && Wrote(a, ContextFor(a, h, entropy.stream.cek),
                       old(dst.Contents()) + (WriteFixedHeader(h) + SerializeKemHeader(env)), old(src.data),
                       src.reliable, src.data, dst.Contents(), err, chs)
    ensures err in {Nil, SuiteMismatch, BadChunkSize, BadPublicKey}
            || (err == SourceFault && !src.reliable) || (err == SinkFault && !dst.reliable)
    ensures err in {Nil, SourceFault} ==>
              var intake := IntakeOf(old(src.data), src.turns, old(src.calls), chunkSize);
              && (err == Nil ==> intake == Intake(chs, src.data, src.calls, false))
              && (err == SourceFault ==> intake.fault)
    ensures err == Nil && src.reliable ==>
              h.Valid()
              && dst.Contents() == old(dst.Contents()) + MlKemContainer(a, h, env, entropy.stream.cek, old(src.data))
  {
    hide WriteFixedHeader, SerializeKemHeader, DeriveMessageKey, Frames, Sized, Flatten, Chunks, CekWrapAad, WrapCek, IntakeOf;
    h, env, chs := Header(suite, 1, [], []), KemEnvelope([], [], []), [];
    if MlKemCiphertextLen(suite).None? {
      err := SuiteMismatch;
      return;
    }
    if chunkSize <= 0 || chunkSize > MAX_CHUNK_SIZE {
      err := BadChunkSize;
      return;
    }
    var cek, streamID, streamSalt := entropy.stream.cek, entropy.stream.streamID, entropy.stream.streamSalt;
    var cekwrapAAD := CekWrapAad(suite, streamID);
    var envelope := WrapCek(a, k, publicKey, suite, cek, cekwrapAAD, entropy.encapsulation, entropy.nonce);
    WrapFailure(a, k, publicKey, suite, cek, cekwrapAAD, entropy.encapsulation, entropy.nonce);
    if envelope.Err? {
      err := envelope.error;
      return;
    }
    h, env := Header(suite, chunkSize, streamID, streamSalt), envelope.value;
    var header := WriteFixedHeader(Header(suite, chunkSize, streamID, streamSalt)) + SerializeKemHeader(envelope.value);
    var messageKey := DeriveMessageKey(a, streamSalt, cek, suite, streamID);
    var c := ChunkCrypto(suite, Aes256Gcm, chunkSize, streamID, messageKey);
    err, chs := WriteChunks(a, dst, src, header, c);
    assert old(dst.Contents()) + header + Frames(a, c, 0, chs)
        == old(dst.Contents()) + (header + Frames(a, c, 0, chs));
  }

  /** Reads an envelope from a source, exactly as ParseKemEnvelope reads it from bytes. */
  method ReadKemEnvelope(src: Source, suiteID: byte) returns (r: Result<KemEnvelope, Error>)
    modifies src`data, src`calls, src`peak
    ensures src.reliable ==>
              match ParseKemEnvelope(old(src.data), suiteID)
              case Err(e) => r == Err(e)
              case Ok((env, rest)) => r == Ok(env) && src.data == rest
    ensures r.Ok? ==> r.value.Valid(suiteID)
    ensures r.Err? ==> r.error !in {Nil, SinkFault} && (r.error == SourceFault ==> !src.reliable)
    ensures src.peak <= old(src.peak) || src.peak <= 1568
  {
    hide NextLen;
    ghost var data := src.data;
    if MlKemCiphertextLen(suiteID).None? {
      return Err(SuiteMismatch);
    }
    var expected := MlKemCiphertextLen(suiteID).value;
    var kemCtLen, present, e := ReadLenPrefix(src);
    if e != Nil {
      return Err(e);
    }
    if !present {
      return Err(ShortHeader);
    }
    if kemCtLen != expected {
      return Err(BadKemCiphertext);
    }
    ghost var rest := src.data;
    var encapsulatedKey, e1 := ReadRecordExact(src, expected);
    if e1 != Nil {
      return Err(e1);
    }
    var nonce, e2 := ReadRecordExact(src, NONCE_LEN);
    if e2 != Nil {
      return Err(e2);
    }
    ghost var second := src.data;
    assert rest == encapsulatedKey + (nonce + second);
    assert rest[..expected] == encapsulatedKey && rest[expected..expected + NONCE_LEN] == nonce;
    assert rest[expected + NONCE_LEN..] == second;
    var wrappedLen, present', e3 := ReadLenPrefix(src);
    if e3 != Nil {
      return Err(e3);
    }
    if !present' {
      return Err(ShortHeader);
    }
    if wrappedLen != WRAPPED_CEK_LEN {
      return Err(BadKemCiphertext);
    }
    ghost var tail := src.data;
    var ciphertext, e4 := ReadRecordExact(src, WRAPPED_CEK_LEN);
    if e4 != Nil {
      return Err(e4);
    }
    assert tail[..WRAPPED_CEK_LEN] == ciphertext && tail[WRAPPED_CEK_LEN..] == src.data;
    return Ok(KemEnvelope(encapsulatedKey, nonce, ciphertext));
  }

  /** Decrypts `src` into `dst`, recovering the content key once through `recover`, whose errors are
      returned as they are. */
  method DecryptMLKEM(a: Primitives, dst: Sink, src: Source, recover: Recovery)
    returns (err: Error, ghost h: Header, ghost cek: bytes, ghost pts: seq<bytes>)
    modifies dst`writes, src`data, src`calls, src`peak
    ensures DecryptedSafely(a, cek, h, pts, err) && (err == Nil ==> IsMlKemSuite(h.suiteID))
    ensures err == Nil || pts != [] ==>
              exists env: KemEnvelope :: env.Valid(h.suiteID) && recover(env, CekWrapAad(h.suiteID, h.streamID)) == Ok(cek)
    ensures src.reliable && (err == Nil || pts != []) ==> RecoveredKey(recover, old(src.data)) == Some(cek)
    ensures Delivered(old(dst.writes), dst.writes, pts, err)
    ensures src.reliable && err != SinkFault ==> DecryptMlKemBytes(a, recover, old(src.data)) == Outcome(pts, err)
    ensures (err == SourceFault ==> !src.reliable) && (err == SinkFault ==> !dst.reliable)
    ensures src.peak <= old(src.peak) || src.peak <= 1568 || src.peak <= h.chunkSize + TAG_LEN
  {
    hide ParseFixedHeader, ParseKemEnvelope, ReadBody, Authentic, DeriveMessageKey, CekWrapAad;
    h, cek, pts := Header(1, 1, [], []), [], [];
    var header := ReadFixedHeader(src);
    if header.Err? {
      err := header.error;
      return;
    }
    h := header.value;
    var suiteID := header.value.suiteID;
    if MlKemCiphertextLen(suiteID).None? {
      err := SuiteMismatch;
      return;
    }
    var envelope := ReadKemEnvelope(src, suiteID);
    if envelope.Err? {
      err := envelope.error;
      return;
    }
    var cekwrapAAD := CekWrapAad(suiteID, header.value.streamID);
    var recovered := recover(envelope.value, cekwrapAAD);
    if recovered.Err? {
      err := recovered.error;
      return;
    }
    if |recovered.value| != CEK_LEN {
      err := BadCekLength;
      return;
    }
    cek := recovered.value;
    var messageKey := DeriveMessageKey(a, header.value.streamSalt, recovered.value, suiteID, header.value.streamID);
    var c := ChunkCrypto(suiteID, Aes256Gcm, header.value.chunkSize, header.value.streamID, messageKey);
    err, pts := ReadChunks(a, dst, src, c);
  }

  /** A caller's ML-KEM round trip: encrypt what any source delivers into memory, decrypt the result again.
      The encryption succeeds unless the source fails, and gives the source's bytes back exactly on a steady
      schedule. */
  method SealAndOpenMlKemFrom(a: Primitives, k: KemScheme, seed: bytes, src: Source, suite: byte, chunkSize: int,
                              entropy: KemEntropy, turns: seq<Turn>)
    returns (out: bytes, sealErr: Error, err: Error)
    requires Tidy(a) && Correct(k) && entropy.Valid() && |seed| == ML_KEM_SEED_LEN && AllHonest(turns)
    requires IsMlKemSuite(suite) && 1 <= chunkSize <= MAX_CHUNK_SIZE
    modifies src`data, src`calls, src`peak
    ensures var intake := IntakeOf(old(src.data), src.turns, old(src.calls), chunkSize);
            && sealErr == (if intake.fault then SourceFault else Nil)
            && (sealErr == Nil ==> err == if WellChunked(intake.chunks, chunkSize) then Nil else AuthFailed)
            && (sealErr == Nil && err == Nil ==> out == Flatten(intake.chunks))
    ensures sealErr == Nil ==>
              (err == Nil && out == old(src.data) <==> Steady(|old(src.data)|, src.turns, old(src.calls), chunkSize))
  {
    hide IntakeOf, Steady, WellChunked, Flatten, Frames, ReadBody, Sized, Tidy, AllHonest, Correct, WrapCek,
         OpenCekLocal, CekWrapAad, SerializeKemHeader, DecryptMlKemBytes;
    ghost var data, calls := src.data, src.calls;
    out, err := [], Nil;
    var box := new Sink(true);
    var publicKey := k.derive(suite, seed).0;
    ghost var aad := CekWrapAad(suite, entropy.stream.streamID);
    WrapRoundTrip(a, k, seed, suite, entropy.stream.cek, aad, entropy.encapsulation, entropy.nonce);
    WrapFailure(a, k, publicKey, suite, entropy.stream.cek, aad, entropy.encapsulation, entropy.nonce);
    var e, h, env, chs := EncryptMLKEM(a, k, box, src, suite, publicKey, chunkSize, entropy);
    sealErr := e;
    if sealErr != Nil {
      return;
    }
    var sealedBytes := box.Contents();
    ghost var c := ContextFor(a, h, entropy.stream.cek);
    NoContents();
    assert sealedBytes == WriteFixedHeader(h) + SerializeKemHeader(env) + Frames(a, c, 0, chs);
    RecoveredBody(a, LocalSeed(a, k, seed, suite), h, env, entropy.stream.cek, Frames(a, c, 0, chs));
    RoundTripExactly(a, c, data, src.turns, calls);
    IntakeWhole(data, src.turns, calls, chunkSize);
    SealedDecrypts(a, c, chs);
    var cipher := new Source(sealedBytes, turns);
    var plainAgain := new Sink(true);
    ghost var cek, pts;
    err, h, cek, pts := DecryptMLKEM(a, plainAgain, cipher, LocalSeed(a, k, seed, suite));
    DeliveredPrefix([], plainAgain.writes, pts, err);
    out := plainAgain.Contents();
  }

  /** The ML-KEM round trip of a plaintext in memory, with reads split in any honest way on both sides. */
  method SealAndOpenMlKem(a: Primitives, k: KemScheme, seed: bytes, p: bytes, suite: byte, chunkSize: int,
                          entropy: KemEntropy, plainTurns: seq<Turn>, cipherTurns: seq<Turn>)
    returns (out: bytes, err: Error)
    requires Tidy(a) && Correct(k) && entropy.Valid() && |seed| == ML_KEM_SEED_LEN
    requires AllHonest(plainTurns) && AllHonest(cipherTurns)
    requires IsMlKemSuite(suite) && 1 <= chunkSize <= MAX_CHUNK_SIZE
    ensures err == Nil && out == p
  {
    hide IntakeOf, Steady, AllHonest, Flatten, WellChunked;
    var plain := new Source(p, plainTurns);
    HonestSteady(|p|, plainTurns, 0, chunkSize);
    IntakeExactly(p, plainTurns, 0, chunkSize);
    var sealErr;
    out, sealErr, err := SealAndOpenMlKemFrom(a, k, seed, plain, suite, chunkSize, entropy, cipherTurns);
  }
}
