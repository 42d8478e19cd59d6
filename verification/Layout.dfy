/** Where everything stands in a container, and which cipher and key its records are sealed under: stated without
    the suite table and without the functions the code builds its messages from. */
module Layout {
  import opened Wrappers
  import opened Bytes
  import opened Format
  import opened Aead
  import opened Chunking
  import opened Records
  import opened Container
  import opened Kem

  // ---------- records ----------

  /** Suite 2 is ChaCha20-Poly1305; the other suites seal their chunks with AES-256-GCM. */
  function CipherOf(suiteID: byte): ChunkAead {
    if suiteID == 2 then ChaCha20Poly1305 else Aes256Gcm
  }

  /** The additional data of chunk `k` of a stream. */
  function RecordAad(h: Header, k: nat, last: bool, length: nat): bytes {
    Ascii("BSLA") + [1, h.suiteID] + h.streamID + BigEndian(k, 8) + [if last then 1 else 0]
    + BigEndian(length, 4) + BigEndian(h.chunkSize, 4)
  }

  /** Chunk `k` sealed: under the key drawn from content key and salt for this suite and stream, and a nonce of
      four zero bytes and its number. */
  function RecordOf(a: Primitives, h: Header, cek: bytes, k: nat, last: bool, chunk: bytes): bytes {
    a.seal(CipherOf(h.suiteID),
           a.hkdf(cek, h.streamSalt, Ascii("basil-stream-cek-v1") + [h.suiteID] + h.streamID),
           [0, 0, 0, 0] + BigEndian(k, 8),
           chunk,
           RecordAad(h, k, last, |chunk|))
  }

  lemma StreamLabels()
    ensures Ascii("basil-stream-cek-v1") == STREAM_CEK_LABEL && Ascii("BSLA") == CHUNK_AAD_MAGIC
    ensures Zeros(4) == [0, 0, 0, 0]
  {
  }

  lemma RecordSealed(a: Primitives, h: Header, cek: bytes, k: nat, last: bool, chunk: bytes)
    requires h.Valid() && k < TWO_64 && |chunk| <= h.chunkSize
    ensures SealChunk(a, ContextFor(a, h, cek), k, last, chunk) == RecordOf(a, h, cek, k, last, chunk)
  {
    ModSmall(k, TWO_64);
    ModSmall(|chunk|, TWO_32);
    ModSmall(h.chunkSize, TWO_32);
    StreamLabels();
    assert [1] + [h.suiteID] == [1, h.suiteID];
    hide BigEndian, Ascii, Zeros;
    assert Aad(ContextFor(a, h, cek), k, last, |chunk|) == RecordAad(h, k, last, |chunk|);
  }

  lemma {:induction false} EmittedLength(a: Primitives, c: ChunkCrypto, chs: seq<bytes>)
    requires Tidy(a) && forall i :: 0 <= i < |chs| ==> |chs[i]| == c.chunkSize
    ensures |Emitted(a, c, chs)| == |chs| * (c.chunkSize + 20)
  {
    hide SealChunk, Tidy, BigEndian;
    if chs != [] {
      var j, size := |chs| - 1, c.chunkSize + 20;
      EmittedLength(a, c, chs[..j]);
      SealedLength(a, c, j, false, chs[j]);
      assert |Frame(a, c, j, false, chs[j])| == size;
      assert |Emitted(a, c, chs)| == j * size + size;
    }
  }

  lemma SealedLength(a: Primitives, c: ChunkCrypto, index: nat, last: bool, p: bytes)
    requires Tidy(a)
    ensures |SealChunk(a, c, index, last, p)| == |p| + 16
  {
  }

  /** Where the records stand: number `k` at k times the chunk size plus 20, its length first, then the seal of
      chunk `k`. Behind the last there is nothing. */
  lemma BodyLayout(a: Primitives, h: Header, cek: bytes, chs: seq<bytes>, k: nat)
    requires Tidy(a) && h.Valid() && WellChunked(chs, h.chunkSize) && k < |chs| && k < TWO_64
    ensures var body, at, last := Frames(a, ContextFor(a, h, cek), 0, chs), k * (h.chunkSize + 20), k == |chs| - 1;
            && at + 20 + |chs[k]| <= |body|
            && body[at..at + 4] == BigEndian(|chs[k]| + 16, 4)
            && body[at + 4..at + 20 + |chs[k]|] == RecordOf(a, h, cek, k, last, chs[k])
            && (last <==> at + 20 + |chs[k]| == |body|)
  {
    hide RecordOf, SealChunk, WellChunked, Tidy, BigEndian;
    var c, last := ContextFor(a, h, cek), k == |chs| - 1;
    ChunkLengths(chs, h.chunkSize, k);
    var record, rest := SealChunk(a, c, k, last, chs[k]), Frames(a, c, k + 1, chs[k + 1..]);
    EmittedSplit(a, c, chs, k);
    EmittedLength(a, c, chs[..k]);
    SealedLength(a, c, k, last, chs[k]);
    RecordSealed(a, h, cek, k, last, chs[k]);
    ModSmall(|record|, TWO_32);
    var front, prefix := Emitted(a, c, chs[..k]), BigEndian(|record|, 4);
    assert chs[k..][1..] == chs[k + 1..];
    assert Frames(a, c, 0, chs) == front + (prefix + record + rest);
    RestEmpty(a, c, chs, k);
    Sliced(front, prefix, record, rest);
  }

  lemma ChunkLengths(chs: seq<bytes>, size: nat, k: nat)
    requires WellChunked(chs, size) && k < |chs|
    ensures |chs[k]| <= size
    ensures forall i :: 0 <= i < k ==> |chs[..k][i]| == size
  {
  }

  lemma RestEmpty(a: Primitives, c: ChunkCrypto, chs: seq<bytes>, k: nat)
    requires k < |chs|
    ensures Frames(a, c, k + 1, chs[k + 1..]) == [] <==> k == |chs| - 1
  {
  }

  lemma Sliced(front: bytes, prefix: bytes, record: bytes, rest: bytes)
    ensures var s, n, m := front + (prefix + record + rest), |front|, |front| + |prefix|;
            && s[n..m] == prefix && s[m..m + |record|] == record
            && (rest == [] <==> m + |record| == |s|)
  {
  }

  // ---------- which cipher a suite means ----------

  /** The two sets of primitives seal and open alike with cipher `alg` and derive the same keys. With the other
      cipher they may do anything. */
  ghost predicate AgreeOn(a: Primitives, b: Primitives, alg: ChunkAead) {
    && (forall key, nonce, p, ad :: a.seal(alg, key, nonce, p, ad) == b.seal(alg, key, nonce, p, ad))
    && (forall key, nonce, r, ad :: a.open(alg, key, nonce, r, ad) == b.open(alg, key, nonce, r, ad))
    && (forall secret, salt, info :: a.hkdf(secret, salt, info) == b.hkdf(secret, salt, info))
  }

  lemma SameContext(a: Primitives, b: Primitives, h: Header, cek: bytes)
    requires h.Valid() && AgreeOn(a, b, CipherOf(h.suiteID))
    ensures ContextFor(a, h, cek) == ContextFor(b, h, cek)
    ensures ContextFor(a, h, cek).aead == CipherOf(h.suiteID)
  {
  }

  lemma {:induction false} SameFrames(a: Primitives, b: Primitives, c: ChunkCrypto, base: nat, chs: seq<bytes>)
    requires AgreeOn(a, b, c.aead)
    ensures Frames(a, c, base, chs) == Frames(b, c, base, chs)
    decreases |chs|
  {
    if chs != [] {
      SameFrames(a, b, c, base + 1, chs[1..]);
    }
  }

  lemma {:induction false} SameReading(a: Primitives, b: Primitives, c: ChunkCrypto, index: nat, current: bytes, data: bytes)
    requires AgreeOn(a, b, c.aead)
    ensures ReadFrom(a, c, index, current, data) == ReadFrom(b, c, index, current, data)
    decreases |data|
  {
    var next := NextLen(data);
    assert forall last :: OpenRecord(a, c, index, last, current) == OpenRecord(b, c, index, last, current);
    hide OpenRecord, AgreeOn;
    if next.Len? && next.length <= |next.rest| {
      SameReading(a, b, c, index + 1, next.rest[..next.length], next.rest[next.length..]);
    }
  }

  lemma SameBody(a: Primitives, b: Primitives, c: ChunkCrypto, data: bytes)
    requires AgreeOn(a, b, c.aead)
    ensures ReadBody(a, c, data) == ReadBody(b, c, data)
  {
    hide AgreeOn, ReadFrom;
    var next := NextLen(data);
    if next.Len? && next.length <= |next.rest| {
      SameReading(a, b, c, 0, next.rest[..next.length], next.rest[next.length..]);
    }
  }

  /** A container is sealed and opened with the cipher of its suite and no other: who changes the other cipher
      changes neither what is written nor what any bytes decrypt to. */
  lemma SuiteCipherOnly(a: Primitives, b: Primitives, h: Header, cek: bytes, chs: seq<bytes>, data: bytes)
    requires h.Valid() && AgreeOn(a, b, CipherOf(h.suiteID))
    ensures SealedContainer(a, h, cek, chs) == SealedContainer(b, h, cek, chs)
    ensures ParseFixedHeader(data) == Ok(h) ==> DecryptAeadBytes(a, cek, data) == DecryptAeadBytes(b, cek, data)
    ensures forall recover :: ParseFixedHeader(data) == Ok(h) ==>
              DecryptMlKemBytes(a, recover, data) == DecryptMlKemBytes(b, recover, data)
  {
    hide Frames, ReadBody, AgreeOn, ParseFixedHeader, ParseKemEnvelope, DeriveMessageKey, WriteFixedHeader;
    forall key: bytes, body: bytes
      ensures ContextFor(a, h, key) == ContextFor(b, h, key)
      ensures ReadBody(a, ContextFor(a, h, key), body) == ReadBody(b, ContextFor(b, h, key), body)
    {
      SameContext(a, b, h, key);
      SameBody(a, b, ContextFor(a, h, key), body);
    }
    if ParseFixedHeader(data) == Ok(h) {
      assert |data| >= FIXED_HEADER_LEN by {
        HeaderRefusals(data);
      }
      assert ReadBody(a, ContextFor(a, h, cek), data[FIXED_HEADER_LEN..]) == ReadBody(b, ContextFor(b, h, cek), data[FIXED_HEADER_LEN..]);
    }
    SameContext(a, b, h, cek);
    SameFrames(a, b, ContextFor(a, h, cek), 0, chs);
  }

  /** The content key is wrapped with AES-256-GCM in every ML-KEM suite. */
  lemma WrapCipherOnly(a: Primitives, b: Primitives, k: KemScheme, publicKey: bytes, seed: bytes, suiteID: byte,
                       cek: bytes, aad: bytes, rnd: bytes, nonce: bytes, env: KemEnvelope)
    requires AgreeOn(a, b, Aes256Gcm)
    ensures WrapCek(a, k, publicKey, suiteID, cek, aad, rnd, nonce) == WrapCek(b, k, publicKey, suiteID, cek, aad, rnd, nonce)
    ensures OpenCekLocal(a, k, seed, suiteID, env, aad) == OpenCekLocal(b, k, seed, suiteID, env, aad)
  {
    if IsMlKemSuite(suiteID) {
      forall secret, ek, pk
        ensures DeriveKemAeadKey(a, suiteID, secret, ek, pk) == DeriveKemAeadKey(b, suiteID, secret, ek, pk)
      {
        assert a.hkdf(secret, Zeros(32), KemInfo(suiteID, ek, pk)) == b.hkdf(secret, Zeros(32), KemInfo(suiteID, ek, pk));
      }
      hide DeriveKemAeadKey;
      if k.canonical(suiteID, publicKey).Some? {
        var pk := k.canonical(suiteID, publicKey).value;
        var (ek, secret) := k.encapsulate(suiteID, pk, rnd);
        var key := DeriveKemAeadKey(a, suiteID, secret, ek, pk);
        assert key == DeriveKemAeadKey(b, suiteID, secret, ek, pk);
        assert a.seal(Aes256Gcm, key, nonce, cek, aad) == b.seal(Aes256Gcm, key, nonce, cek, aad);
      }
      var (pk, sk) := k.derive(suiteID, seed);
      var secret := k.decapsulate(suiteID, sk, env.encapsulatedKey);
      var key := DeriveKemAeadKey(a, suiteID, secret, env.encapsulatedKey, pk);
      assert key == DeriveKemAeadKey(b, suiteID, secret, env.encapsulatedKey, pk);
      assert a.open(Aes256Gcm, key, env.nonce, env.ciphertext, aad) == b.open(Aes256Gcm, key, env.nonce, env.ciphertext, aad);
    }
  }

  /** Sealing with a tag of sixteen bytes `t` under cipher `alg`, and of zeros under the other. */
  function Marked(alg: ChunkAead, t: byte): Primitives {
    Primitives(
      (x, key, nonce, p, ad) => p + seq(16, _ => if x == alg then t else 0),
      (x, key, nonce, r: bytes, ad) =>
        if |r| >= 16 && r[|r| - 16..] == seq(16, _ => if x == alg then t else 0) then Some(r[..|r| - 16]) else None,
      (secret, salt, info) => Zeros(32))
  }

  /** And the cipher of its suite matters: for every header and key there are primitives that differ in that
      cipher alone, each inverting its own seals, and write different containers. */
  lemma SuiteCipherMatters(h: Header, cek: bytes) returns (a: Primitives, b: Primitives)
    requires h.Valid()
    ensures Tidy(a) && Tidy(b)
    ensures AgreeOn(a, b, if h.suiteID == 2 then Aes256Gcm else ChaCha20Poly1305)
    ensures SealedContainer(a, h, cek, [[]]) != SealedContainer(b, h, cek, [[]])
  {
    a, b := Marked(CipherOf(h.suiteID), 1), Marked(CipherOf(h.suiteID), 2);
    MarkedTidy(CipherOf(h.suiteID), 1);
    MarkedTidy(CipherOf(h.suiteID), 2);
    var c, d := ContextFor(a, h, cek), ContextFor(b, h, cek);
    MarkedFrame(h, cek, 1);
    MarkedFrame(h, cek, 2);
    hide Frames, Marked;
    var head := WriteFixedHeader(h);
    assert (head + Frames(a, c, 0, [[]]))[|head| + 4] == 1;
    assert (head + Frames(b, d, 0, [[]]))[|head| + 4] == 2;
  }

  lemma MarkedTidy(alg: ChunkAead, t: byte)
    ensures Tidy(Marked(alg, t))
  {
    var a := Marked(alg, t);
    forall x, k, n, p: bytes, ad
      ensures |a.seal(x, k, n, p, ad)| == |p| + TAG_LEN && a.open(x, k, n, a.seal(x, k, n, p, ad), ad) == Some(p)
    {
      var r := a.seal(x, k, n, p, ad);
      assert r[..|r| - 16] == p && r[|r| - 16..] == seq(16, _ => if x == alg then t else 0);
    }
    forall x, k, n, r: bytes, ad | a.open(x, k, n, r, ad).Some?
      ensures a.seal(x, k, n, a.open(x, k, n, r, ad).value, ad) == r
    {
      assert r == r[..|r| - 16] + r[|r| - 16..];
    }
  }

  lemma MarkedFrame(h: Header, cek: bytes, t: byte)
    requires h.Valid()
    ensures var a := Marked(CipherOf(h.suiteID), t);
            var f := Frames(a, ContextFor(a, h, cek), 0, [[]]);
            |f| >= 5 && f[4] == t
  {
    var a := Marked(CipherOf(h.suiteID), t);
    var c := ContextFor(a, h, cek);
    var record := SealChunk(a, c, 0, true, []);
    assert record[0] == t;
    assert Frames(a, c, 0, [[]]) == Frame(a, c, 0, true, []) + Frames(a, c, 1, []);
    assert Frame(a, c, 0, true, [])[4] == record[0];
  }

  // ---------- the envelope ----------

  /** The ciphertext lengths of ML-KEM-512, 768 and 1024 (section 8 of FIPS 203). */
  function EncapsulatedLength(suiteID: byte): nat {
    if suiteID == 3 then 768 else if suiteID == 4 then 1088 else 1568
  }

  /** Where the parts of the envelope stand. */
  lemma EnvelopeLayout(env: KemEnvelope, suiteID: byte)
    requires env.Valid(suiteID)
    ensures 3 <= suiteID <= 5
    ensures var b, n := SerializeKemHeader(env), EncapsulatedLength(suiteID);
            && |b| == n + 68
            && b[..4] == BigEndian(n, 4) && b[4..n + 4] == env.encapsulatedKey
            && b[n + 4..n + 16] == env.nonce
            && b[n + 16..n + 20] == BigEndian(48, 4) && b[n + 20..] == env.ciphertext
  {
    hide BigEndian;
  }

  /** Which bytes are refused as an envelope of an ML-KEM suite, and with which error. */
  lemma EnvelopeRefusals(data: bytes, suiteID: byte)
    requires 3 <= suiteID <= 5
    ensures var r, n := ParseKemEnvelope(data, suiteID), EncapsulatedLength(suiteID);
            if |data| == 0 then r == Err(ShortHeader)
            else if |data| < 4 then r == Err(Truncated)
            else if FromBigEndian(data[..4]) != n then r == Err(BadKemCiphertext)
            else if |data| == n + 16 then r == Err(ShortHeader)
            else if |data| < n + 20 then r == Err(Truncated)
            else if FromBigEndian(data[n + 16..n + 20]) != 48 then r == Err(BadKemCiphertext)
            else if |data| < n + 68 then r == Err(Truncated)
            else r.Ok?
  {
    hide FromBigEndian;
    var n := EncapsulatedLength(suiteID);
    if |data| >= n + 16 {
      assert data[4..][n + NONCE_LEN..] == data[n + 16..];
      if |data| >= n + 20 {
        assert data[n + 16..][..4] == data[n + 16..n + 20];
      }
    }
  }

  /** What decryption refuses before it reads any record: a content key of the wrong length, a bad header, a suite
      of the other kind, a bad envelope, a key that cannot be recovered or has the wrong length. In all of these
      nothing is handed out. */
  lemma EntryRefusals(a: Primitives, cek: bytes, recover: Recovery, data: bytes)
    ensures var h, r := ParseFixedHeader(data), DecryptAeadBytes(a, cek, data);
            && (|cek| != 32 ==> r == Outcome([], BadCekLength))
            && (|cek| == 32 && h.Err? ==> r == Outcome([], h.error))
            && (|cek| == 32 && h.Ok? && h.value.suiteID !in {1, 2} ==> r == Outcome([], SuiteMismatch))
    ensures var h, r := ParseFixedHeader(data), DecryptMlKemBytes(a, recover, data);
            && (h.Err? ==> r == Outcome([], h.error))
            && (h.Ok? && h.value.suiteID !in {3, 4, 5} ==> r == Outcome([], SuiteMismatch))
            && (h.Ok? && h.value.suiteID in {3, 4, 5} ==>
                 && |data| >= 61
                 && var env := ParseKemEnvelope(data[61..], h.value.suiteID);
                    && (env.Err? ==> r == Outcome([], env.error))
                    && (env.Ok? ==>
                         var key := recover(env.value.0, CekWrapAad(h.value.suiteID, h.value.streamID));
                         && (key.Err? ==> r == Outcome([], key.error))
                         && (key.Ok? && |key.value| != 32 ==> r == Outcome([], BadCekLength))))
  {
    HeaderRefusals(data);
    hide ReadBody, ParseKemEnvelope, CekWrapAad;
  }

  /** What the holder of a seed is refused, and what the wrapping party. */
  lemma RecoveryRefusals(a: Primitives, k: KemScheme, seed: bytes, publicKey: bytes, suiteID: byte, env: KemEnvelope,
                         cek: bytes, aad: bytes, rnd: bytes, nonce: bytes)
    ensures var r := OpenCekLocal(a, k, seed, suiteID, env, aad);
            if suiteID !in {3, 4, 5} then r == Err(SuiteMismatch)
            else if |seed| != 64 || |env.encapsulatedKey| != EncapsulatedLength(suiteID) then r == Err(BadKemCiphertext)
            else r.Ok? || r == Err(AuthFailed)
    ensures var w := WrapCek(a, k, publicKey, suiteID, cek, aad, rnd, nonce);
            if suiteID !in {3, 4, 5} then w == Err(SuiteMismatch)
            else if k.canonical(suiteID, publicKey) == None then w == Err(BadPublicKey)
            else w.Ok? && w.value.nonce == nonce
  {
    hide DeriveKemAeadKey;
  }

  /** The name of an ML-KEM suite. */
  function SuiteName(suiteID: byte): string {
    if suiteID == 3 then "ml-kem-512" else if suiteID == 4 then "ml-kem-768" else "ml-kem-1024"
  }

  lemma SuiteToken(suiteID: byte)
    requires 3 <= suiteID <= 5
    ensures IsMlKemSuite(suiteID) && Ascii(SuiteName(suiteID)) == KemToken(suiteID)
  {
  }

  lemma KemLabels()
    ensures Ascii("basil-ml-kem-envelope-v1") == KEM_ENVELOPE_LABEL && Ascii("aes-256-gcm") == ENV_TOKEN_AES_256_GCM
  {
  }

  /** The key a content key is wrapped under: drawn from the shared secret alone, with 32 zero bytes of salt, for
      the suite's name, the encapsulated key and the public key in this order. */
  lemma WrapKeyLayout(a: Primitives, suiteID: byte, secret: bytes, ek: bytes, pk: bytes)
    requires 3 <= suiteID <= 5
    ensures IsMlKemSuite(suiteID)
    ensures DeriveKemAeadKey(a, suiteID, secret, ek, pk)
            == a.hkdf(secret, seq(32, _ => 0),
                      Ascii("basil-ml-kem-envelope-v1") + Ascii(SuiteName(suiteID)) + Ascii("aes-256-gcm") + ek + pk)
  {
    assert Zeros(32) == seq(32, _ => 0);
    SuiteToken(suiteID);
    KemLabels();
    hide Ascii, Zeros, SuiteName, KemToken;
  }
}
