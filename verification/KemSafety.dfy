/** ML-KEM containers in a world of several encryptions and wrapped keys: what is accepted, what every cut
    and every extension gives, and what is handed out. */
module KemSafety {
  import opened Wrappers
  import opened Bytes
  import opened Format
  import opened Aead
  import opened Records
  import opened Safety
  import opened StreamIO
  import opened Stream
  import opened Container
  import opened Kem

  /** One wrapped content key, with the additional data it was wrapped under. */
  datatype Wrap = Wrap(env: KemEnvelope, aad: bytes, cek: bytes)

  /** The recovery opens exactly the logged envelopes, each under its own additional data. */
  ghost predicate RecoversExactly(recover: Recovery, wraps: seq<Wrap>) {
    forall env, aad, cek :: |aad| == CEK_WRAP_AAD_LEN ==> (recover(env, aad) == Ok(cek) <==> Wrap(env, aad, cek) in wraps)
  }

  // ---------- from the primitives to the recovery ----------

  /** Who can open envelopes: a suite and the seed of its key pair. */
  datatype Recipient = Recipient(suiteID: byte, seed: bytes) {
    predicate Valid() {
      IsMlKemSuite(suiteID) && |seed| == ML_KEM_SEED_LEN
    }

    /** An encapsulated key of the suite's length. */
    predicate Fits(encapsulatedKey: bytes)
      requires Valid()
    {
      |encapsulatedKey| == MlKemCiphertextLen(suiteID).value
    }
  }

  /** The key the recipient opens an envelope with. */
  function WrapKey(a: Primitives, k: KemScheme, r: Recipient, encapsulatedKey: bytes): bytes
    requires r.Valid()
  {
    var (pk, sk) := k.derive(r.suiteID, r.seed);
    DeriveKemAeadKey(a, r.suiteID, k.decapsulate(r.suiteID, sk, encapsulatedKey), encapsulatedKey, pk)
  }

  /** What the recipient can open of nonce, ciphertext and data, by way of the encapsulated key. */
  function OpenWrap(a: Primitives, k: KemScheme, r: Recipient, env: KemEnvelope, aad: bytes): Option<bytes>
    requires r.Valid()
  {
    a.open(Aes256Gcm, WrapKey(a, k, r, env.encapsulatedKey), env.nonce, env.ciphertext, aad)
  }

  ghost predicate WrappedAs(a: Primitives, k: KemScheme, r: Recipient, w: Wrap, env: KemEnvelope, aad: bytes, cek: bytes)
    requires r.Valid()
  {
    && WrapKey(a, k, r, env.encapsulatedKey) == WrapKey(a, k, r, w.env.encapsulatedKey)
    && env.nonce == w.env.nonce && env.ciphertext == w.env.ciphertext && aad == w.aad && cek == w.cek
  }

  /** Under the keys this recipient can come to, what opens with additional data of a wrapped key's length is
      one of its logged wraps, and each of those opens. Other recipients' keys are not spoken of. */
  ghost predicate OnlyWraps(a: Primitives, k: KemScheme, r: Recipient, wraps: seq<Wrap>)
    requires r.Valid()
  {
    && (forall env: KemEnvelope, aad: bytes :: r.Fits(env.encapsulatedKey) && |aad| == CEK_WRAP_AAD_LEN && OpenWrap(a, k, r, env, aad).Some? ==>
          exists w :: w in wraps && WrappedAs(a, k, r, w, env, aad, OpenWrap(a, k, r, env, aad).value))
    && (forall w :: w in wraps ==> r.Fits(w.env.encapsulatedKey) && OpenWrap(a, k, r, w.env, w.aad) == Some(w.cek))
  }

  /** No other encapsulated key leads this recipient to the key of one of its logged wraps. */
  ghost predicate WrapKeysUnique(a: Primitives, k: KemScheme, r: Recipient, wraps: seq<Wrap>)
    requires r.Valid()
  {
    forall w, ek :: w in wraps && r.Fits(ek) && WrapKey(a, k, r, ek) == WrapKey(a, k, r, w.env.encapsulatedKey)
      ==> ek == w.env.encapsulatedKey
  }

  /** With the seed at hand exactly the recipient's logged envelopes are opened: nonce, ciphertext and
      additional data because nothing else opens, the encapsulated key because the key derivation binds it. */
  lemma LocalSeedExactly(a: Primitives, k: KemScheme, r: Recipient, wraps: seq<Wrap>)
    requires r.Valid() && OnlyWraps(a, k, r, wraps) && WrapKeysUnique(a, k, r, wraps)
    ensures RecoversExactly(LocalSeed(a, k, r.seed, r.suiteID), wraps)
  {
    var recover := LocalSeed(a, k, r.seed, r.suiteID);
    forall env: KemEnvelope, aad: bytes, cek: bytes | |aad| == CEK_WRAP_AAD_LEN
      ensures recover(env, aad) == Ok(cek) <==> Wrap(env, aad, cek) in wraps
    {
      LocalSeedOpens(a, k, r, env, aad, cek);
      hide OpenWrap, WrapKey, OpenCekLocal;
      if r.Fits(env.encapsulatedKey) && OpenWrap(a, k, r, env, aad) == Some(cek) {
        var w :| w in wraps && WrappedAs(a, k, r, w, env, aad, cek);
        assert w == Wrap(env, aad, cek);
      }
      if Wrap(env, aad, cek) in wraps {
        var w := Wrap(env, aad, cek);
        assert OpenWrap(a, k, r, w.env, w.aad) == Some(w.cek);
      }
    }
  }

  lemma LocalSeedOpens(a: Primitives, k: KemScheme, r: Recipient, env: KemEnvelope, aad: bytes, cek: bytes)
    requires r.Valid()
    ensures LocalSeed(a, k, r.seed, r.suiteID)(env, aad) == Ok(cek)
            <==> r.Fits(env.encapsulatedKey) && OpenWrap(a, k, r, env, aad) == Some(cek)
  {
    hide DeriveKemAeadKey;
  }

  // ---------- unique acceptance ----------

  /** The bytes are, one for one, what this encryption wrote with this wrap of its content key. */
  ghost predicate MlKemContainerOf(a: Primitives, e: Encryption, w: Wrap, data: bytes) {
    && e.h.Valid() && IsMlKemSuite(e.h.suiteID) && e.Whole()
    && w.env.Valid(e.h.suiteID) && w.aad == CekWrapAad(e.h.suiteID, e.h.streamID) && w.cek == e.cek
    && data == SealedMlKem(a, e.h, w.env, e.cek, e.chs)
  }

  ghost predicate LoggedMlKem(a: Primitives, log: seq<Encryption>, wraps: seq<Wrap>, data: bytes) {
    exists e, w :: e in log && w in wraps && MlKemContainerOf(a, e, w, data)
  }

  lemma WrapAadLength(h: Header)
    requires h.Valid()
    ensures |CekWrapAad(h.suiteID, h.streamID)| == CEK_WRAP_AAD_LEN
  {
  }

  /** The parsers' errors are errors. */
  lemma ParseErrors(data: bytes, rest: bytes, suiteID: byte)
    ensures ParseFixedHeader(data) != Err(Nil) && ParseKemEnvelope(rest, suiteID) != Err(Nil)
  {
  }

  /** An accepted container, taken apart. */
  lemma MlKemFound(a: Primitives, recover: Recovery, data: bytes) returns (h: Header, env: KemEnvelope, cek: bytes, body: bytes)
    requires DecryptMlKemBytes(a, recover, data).error == Nil
    ensures h.Valid() && IsMlKemSuite(h.suiteID) && env.Valid(h.suiteID) && |cek| == CEK_LEN
    ensures recover(env, CekWrapAad(h.suiteID, h.streamID)) == Ok(cek) && RecoveredKey(recover, data) == Some(cek)
    ensures data == WriteFixedHeader(h) + SerializeKemHeader(env) + body
    ensures ReadBody(a, ContextFor(a, h, cek), body).error == Nil
  {
    hide ReadBody, ParseFixedHeader, ParseKemEnvelope, SerializeKemHeader, WriteFixedHeader, DeriveMessageKey, CekWrapAad;
    ParseErrors(data, [], 0);
    h := HeaderFound(data);
    var rest := data[FIXED_HEADER_LEN..];
    ParseErrors(data, rest, h.suiteID);
    EnvelopeCanonical(rest, h.suiteID);
    var found := ParseKemEnvelope(rest, h.suiteID).value;
    env, body := found.0, found.1;
    cek := recover(env, CekWrapAad(h.suiteID, h.streamID)).value;
    assert WriteFixedHeader(h) + (SerializeKemHeader(env) + body) == WriteFixedHeader(h) + SerializeKemHeader(env) + body;
  }

  /** Unique acceptance: anyone can wrap a key of their own for a recipient, but under a content key of the
      log exactly the bytes of a finished encryption with full chunks are accepted, behind a logged wrap of
      that key, bound to its suite and stream. */
  lemma MlKemUniqueAcceptance(a: Primitives, ceks: iset<bytes>, log: seq<Encryption>,
                              recover: Recovery, wraps: seq<Wrap>, data: bytes)
    requires World(a, ceks, log) && RecoversExactly(recover, wraps)
    ensures DecryptMlKemBytes(a, recover, data).error == Nil && Known(ceks, RecoveredKey(recover, data))
            <==> LoggedMlKem(a, log, wraps, data)
  {
    hide World, DecryptMlKemBytes, ReadBody, SerializeKemHeader, WriteFixedHeader, CekWrapAad, Frames, RecoveredKey;
    if DecryptMlKemBytes(a, recover, data).error == Nil && Known(ceks, RecoveredKey(recover, data)) {
      var h, env, cek, body := MlKemFound(a, recover, data);
      WrapAadLength(h);
      var w := Wrap(env, CekWrapAad(h.suiteID, h.streamID), cek);
      assert w in wraps;
      LoggedBodyExactly(a, ceks, log, h, cek, body);
      var i :| 0 <= i < |log| && BodyOf(a, log[i], h, cek, body);
      assert MlKemContainerOf(a, log[i], w, data);
    }
    if LoggedMlKem(a, log, wraps, data) {
      var e, w :| e in log && w in wraps && MlKemContainerOf(a, e, w, data);
      WrapAadLength(e.h);
      LoggedValid(a, ceks, log, e);
      assert recover(w.env, w.aad) == Ok(w.cek);
      var body := Frames(a, ContextFor(a, e.h, e.cek), 0, e.chs);
      RecoveredBody(a, recover, e.h, w.env, e.cek, body);
      OwnKey(recover, e.h, w.env, e.cek, body);
      var i :| 0 <= i < |log| && log[i] == e;
      assert BodyOf(a, log[i], e.h, e.cek, body);
      LoggedBodyExactly(a, ceks, log, e.h, e.cek, body);
    }
  }

  ghost predicate Known(ceks: iset<bytes>, cek: Option<bytes>) {
    cek.Some? && cek.value in ceks
  }

  lemma OwnKey(recover: Recovery, h: Header, env: KemEnvelope, cek: bytes, body: bytes)
    requires h.Valid() && env.Valid(h.suiteID) && recover(env, CekWrapAad(h.suiteID, h.streamID)) == Ok(cek)
    ensures RecoveredKey(recover, WriteFixedHeader(h) + SerializeKemHeader(env) + body) == Some(cek)
  {
    hide SerializeKemHeader, ParseKemEnvelope, ParseFixedHeader, WriteFixedHeader, CekWrapAad;
    var rest := SerializeKemHeader(env) + body;
    var data := WriteFixedHeader(h) + SerializeKemHeader(env) + body;
    assert data == WriteFixedHeader(h) + rest;
    HeaderRoundTrip(h, rest);
    assert data[FIXED_HEADER_LEN..] == rest;
    EnvelopeRoundTrip(env, h.suiteID, body);
  }

  lemma LoggedValid(a: Primitives, ceks: iset<bytes>, log: seq<Encryption>, e: Encryption)
    requires World(a, ceks, log) && e in log
    ensures e.Valid() && e.cek in ceks
  {
    var i :| 0 <= i < |log| && log[i] == e;
    assert log[i].Valid();
  }

  // ---------- cut and extended containers ----------

  /** Every proper prefix of an envelope is truncated, except where a length is due and nothing follows. */
  lemma EnvelopeCut(env: KemEnvelope, suiteID: byte, j: nat)
    requires env.Valid(suiteID) && j < |SerializeKemHeader(env)|
    ensures ParseKemEnvelope(SerializeKemHeader(env)[..j], suiteID)
            == Err(if j == 0 || j == 4 + |env.encapsulatedKey| + NONCE_LEN then ShortHeader else Truncated)
  {
    hide BigEndian, FromBigEndian;
    var ek, ct := env.encapsulatedKey, env.ciphertext;
    var n := |ek|;
    var second := BigEndian(|ct| % TWO_32, 4) + ct;
    var rest := ek + (env.nonce + second);
    var data := SerializeKemHeader(env);
    assert data == BigEndian(n % TWO_32, 4) + ek + (env.nonce + second);
    if j >= 4 {
      PrefixReads(ek, env.nonce + second);
      CutPrefix(data, j);
      assert NextLen(data[..j]) == Len(n, rest[..j - 4]);
      if j - 4 >= n + NONCE_LEN {
        var j' := j - 4 - n - NONCE_LEN;
        assert rest[..j - 4][n + NONCE_LEN..] == second[..j'];
        if j' >= 4 {
          assert second == second + [] && ct + [] == ct;
          PrefixReads(ct, []);
          CutPrefix(second, j');
        }
      }
    }
  }

  /** What an ML-KEM decryption makes of the printed header and anything behind it. */
  lemma BehindMlKemHeader(a: Primitives, recover: Recovery, h: Header, rest: bytes)
    requires h.Valid() && IsMlKemSuite(h.suiteID)
    ensures DecryptMlKemBytes(a, recover, WriteFixedHeader(h) + rest)
            == match ParseKemEnvelope(rest, h.suiteID)
               case Err(e) => Outcome([], e)
               case Ok((env, body)) =>
                 match recover(env, CekWrapAad(h.suiteID, h.streamID))
                 case Err(e) => Outcome([], e)
                 case Ok(cek) =>
                   if |cek| != CEK_LEN then Outcome([], BadCekLength) else ReadBody(a, ContextFor(a, h, cek), body)
  {
    hide ParseFixedHeader, ParseKemEnvelope, WriteFixedHeader, ReadBody, DeriveMessageKey, CekWrapAad;
    HeaderRoundTrip(h, rest);
    assert (WriteFixedHeader(h) + rest)[FIXED_HEADER_LEN..] == rest;
  }

  /** The error of a container cut at `k`: in the header, in the envelope, or in the body. */
  ghost function CutError(h: Header, env: KemEnvelope, chs: seq<bytes>, k: nat): Error {
    var body := FIXED_HEADER_LEN + |SerializeKemHeader(env)|;
    if k <= FIXED_HEADER_LEN || k == FIXED_HEADER_LEN + 4 + |env.encapsulatedKey| + NONCE_LEN then ShortHeader
    else if k >= body && AtBoundary(chs, k - body) then AuthFailed
    else Truncated
  }

  /** Every proper prefix of an ML-KEM container fails with the error its cut point determines, and what was
      written out is a proper prefix of the chunks. */
  lemma CutMlKemContainer(a: Primitives, ceks: iset<bytes>, log: seq<Encryption>, e: Encryption,
                          recover: Recovery, env: KemEnvelope, k: nat)
    requires World(a, ceks, log) && e in log && e.h.Valid() && e.Whole() && IsMlKemSuite(e.h.suiteID)
    requires env.Valid(e.h.suiteID) && recover(env, CekWrapAad(e.h.suiteID, e.h.streamID)) == Ok(e.cek)
    requires k < |SealedMlKem(a, e.h, env, e.cek, e.chs)|
    ensures var chs := e.chs;
            var o := DecryptMlKemBytes(a, recover, SealedMlKem(a, e.h, env, e.cek, e.chs)[..k]);
            && o.chunks < chs
            && o.error == CutError(e.h, env, chs, k)
  {
    hide World, DecryptMlKemBytes, ParseKemEnvelope, SerializeKemHeader, WriteFixedHeader, ReadBody, Frames, AtBoundary, CekWrapAad;
    var c, chs := ContextFor(a, e.h, e.cek), e.chs;
    LoggedValid(a, ceks, log, e);
    var head, envelope, body := WriteFixedHeader(e.h), SerializeKemHeader(env), Frames(a, c, 0, chs);
    var data := SealedMlKem(a, e.h, env, e.cek, e.chs);
    HeaderRoundTrip(e.h, []);
    EnvelopeSize(env);
    if k < FIXED_HEADER_LEN {
      ShortMlKem(a, recover, data[..k]);
    } else {
      var j := k - FIXED_HEADER_LEN;
      if j < |envelope| {
        assert data[..k] == head + envelope[..j];
        EnvelopeCut(env, e.h.suiteID, j);
        BehindMlKemHeader(a, recover, e.h, envelope[..j]);
      } else {
        var k' := j - |envelope|;
        assert data[..k] == head + envelope + body[..k'];
        RecoveredBody(a, recover, e.h, env, e.cek, body[..k']);
        LoggedBodyCut(a, ceks, log, e, k');
      }
    }
  }

  lemma ShortMlKem(a: Primitives, recover: Recovery, data: bytes)
    requires |data| < FIXED_HEADER_LEN
    ensures DecryptMlKemBytes(a, recover, data) == Outcome([], ShortHeader)
  {
  }

  lemma EnvelopeSize(env: KemEnvelope)
    ensures |SerializeKemHeader(env)| == 4 + |env.encapsulatedKey| + |env.nonce| + 4 + |env.ciphertext|
  {
  }

  /** Bytes behind an ML-KEM container do what they do behind an AEAD container. */
  lemma ExtendMlKemContainer(a: Primitives, ceks: iset<bytes>, log: seq<Encryption>, e: Encryption,
                             recover: Recovery, env: KemEnvelope, extra: bytes)
    requires World(a, ceks, log) && e in log && e.h.Valid() && e.Whole() && IsMlKemSuite(e.h.suiteID) && extra != []
    requires env.Valid(e.h.suiteID) && recover(env, CekWrapAad(e.h.suiteID, e.h.streamID)) == Ok(e.cek)
    ensures var chs := e.chs;
            DecryptMlKemBytes(a, recover, SealedMlKem(a, e.h, env, e.cek, e.chs) + extra)
            == Outcome(chs[..|chs| - 1], if |extra| < 4 then Truncated else AuthFailed)
  {
    hide World, DecryptMlKemBytes, SerializeKemHeader, WriteFixedHeader, ReadBody, Frames, CekWrapAad;
    LoggedValid(a, ceks, log, e);
    var front := WriteFixedHeader(e.h) + SerializeKemHeader(env);
    var body := Frames(a, ContextFor(a, e.h, e.cek), 0, e.chs);
    assert front + body + extra == front + (body + extra);
    RecoveredBody(a, recover, e.h, env, e.cek, body + extra);
    LoggedBodyExtended(a, ceks, log, e, extra);
  }

  // ---------- decryption in the world of the log ----------

  /** As DecryptLogged, with the content key out of an envelope. Where that is a content key of the log, in
      every run nothing but a first part of one encryption's plaintext is added to the destination. */
  method DecryptMlKemLogged(a: Primitives, dst: Sink, src: Source, recover: Recovery,
                            ghost ceks: iset<bytes>, ghost log: seq<Encryption>, ghost wraps: seq<Wrap>)
    returns (err: Error, ghost cek: bytes, ghost e: Encryption)
    requires World(a, ceks, log) && RecoversExactly(recover, wraps)
    modifies dst`writes, src`data, src`calls, src`peak
    ensures old(dst.Contents()) <= dst.Contents()
    ensures err == Nil || dst.Contents() != old(dst.Contents()) ==> exists w :: w in wraps && w.cek == cek
    ensures cek in ceks ==>
              && dst.Contents() <= old(dst.Contents()) + e.Plaintext()
              && (err == Nil || dst.Contents() != old(dst.Contents()) ==> e in log && e.cek == cek)
              && (err == Nil ==> dst.Contents() == old(dst.Contents()) + e.Plaintext())
    ensures src.reliable && err != SinkFault ==> (err == Nil && cek in ceks <==> LoggedMlKem(a, log, wraps, old(src.data)))
  {
    hide World, Delivered, DecryptedSafely, DecryptMlKemBytes, LoggedMlKem, Flatten, CekWrapAad, RecoveredKey;
    ghost var data, before := src.data, dst.writes;
    e := Encryption(Header(1, 1, [], []), [], [], false);
    ghost var h, pts;
    err, h, cek, pts := DecryptMLKEM(a, dst, src, recover);
    DeliveredPrefix(before, dst.writes, pts, err);
    MlKemUniqueAcceptance(a, ceks, log, recover, wraps, data);
    if err == Nil || pts != [] {
      ghost var env: KemEnvelope :| env.Valid(h.suiteID) && recover(env, CekWrapAad(h.suiteID, h.streamID)) == Ok(cek);
      SafeHeader(a, cek, h, pts, err);
      WrapAadLength(h);
      assert Wrap(env, CekWrapAad(h.suiteID, h.streamID), cek) in wraps;
      if cek in ceks {
        DecryptionIsSafe(a, ceks, log, cek, h, pts, err);
        e :| e in log && FirstChunksOf(e, h, cek, pts, err);
        PrefixAppend(Flatten(before), Flatten(pts), e.Plaintext());
      }
    } else {
      NoContents();
    }
  }

  lemma SafeHeader(a: Primitives, cek: bytes, h: Header, pts: seq<bytes>, err: Error)
    requires DecryptedSafely(a, cek, h, pts, err) && (err == Nil || pts != [])
    ensures h.Valid()
  {
  }
}
