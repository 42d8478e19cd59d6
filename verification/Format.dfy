/** Container format v1: constants, suite tables, the fixed header, the additional data and the nonces. */
module Format {
  import opened Wrappers
  import opened Bytes

  const FORMAT_VERSION: byte := 1
  const FIXED_HEADER_LEN := 61
  const TAG_LEN := 16
  const NONCE_LEN := 12
  const CHUNK_AAD_LEN := 39
  const CEK_WRAP_AAD_LEN := 22
  const CEK_LEN := 32
  const STREAM_ID_LEN := 16
  const STREAM_SALT_LEN := 32
  const MAX_CHUNK_SIZE := 1024 * 1024

  const MAGIC: bytes := [0x42, 0x53, 0x4C, 0x53, 0x54, 0x52]      // "BSLSTR"
  const CHUNK_AAD_MAGIC: bytes := [0x42, 0x53, 0x4C, 0x41]        // "BSLA"
  const CEK_WRAP_AAD_MAGIC: bytes := [0x42, 0x53, 0x4C, 0x4B]     // "BSLK"

  const SUITE_AES_256_GCM: byte := 1
  const SUITE_CHACHA20_POLY1305: byte := 2
  const SUITE_ML_KEM_512: byte := 3
  const SUITE_ML_KEM_768: byte := 4
  const SUITE_ML_KEM_1024: byte := 5

  /** The sentinel errors; `Nil` is the absence of an error. */
  datatype Error =
    | Nil
    | BadMagic
    | UnsupportedVersion
    | UnsupportedSuite
    | ReservedFlags
    | ShortHeader
    | BadChunkSize
    | ChunkTooLarge
    | SuiteMismatch
    | BadPublicKey
    | BadCekLength
    | BadKemCiphertext
    | Truncated
    | AuthFailed
    | SourceFault
    | SinkFault

  datatype ChunkAead = Aes256Gcm | ChaCha20Poly1305

  datatype Header = Header(suiteID: byte, chunkSize: u32, streamID: bytes, streamSalt: bytes) {
    predicate Valid() {
      && 1 <= suiteID <= 5
      && 1 <= chunkSize <= MAX_CHUNK_SIZE
      && |streamID| == STREAM_ID_LEN
      && |streamSalt| == STREAM_SALT_LEN
    }
  }

  function ChunkAeadForSuite(suiteID: byte): Option<ChunkAead> {
    match suiteID
    case 1 => Some(Aes256Gcm)
    case 3 => Some(Aes256Gcm)
    case 4 => Some(Aes256Gcm)
    case 5 => Some(Aes256Gcm)
    case 2 => Some(ChaCha20Poly1305)
    case _ => None
  }

  function MlKemCiphertextLen(suiteID: byte): Option<nat> {
    if suiteID == SUITE_ML_KEM_512 then Some(768)
    else if suiteID == SUITE_ML_KEM_768 then Some(1088)
    else if suiteID == SUITE_ML_KEM_1024 then Some(1568)
    else None
  }

  predicate IsAeadSuite(suiteID: byte) {
    suiteID == SUITE_AES_256_GCM || suiteID == SUITE_CHACHA20_POLY1305
  }

  function WriteFixedHeader(h: Header): bytes {
    MAGIC + [FORMAT_VERSION] + [h.suiteID] + [0] + BigEndian(h.chunkSize, 4) + h.streamID + h.streamSalt
  }

  function ParseFixedHeader(buf: bytes): Result<Header, Error> {
    if |buf| < FIXED_HEADER_LEN then Err(ShortHeader)
    else if buf[0..6] != MAGIC then Err(BadMagic)
    else if buf[6] != FORMAT_VERSION then Err(UnsupportedVersion)
    else if buf[8] != 0 then Err(ReservedFlags)
    else if ChunkAeadForSuite(buf[7]).None? then Err(UnsupportedSuite)
    else
      var chunkSize := FromBigEndian(buf[9..13]);
      if chunkSize < 1 || chunkSize > MAX_CHUNK_SIZE then Err(BadChunkSize)
      else Ok(Header(buf[7], chunkSize, buf[13..29], buf[29..61]))
  }

  /** Every valid header is read back from its own 61 bytes. */
  lemma HeaderRoundTrip(h: Header, rest: bytes)
    requires h.Valid()
    ensures |WriteFixedHeader(h)| == FIXED_HEADER_LEN
    ensures ParseFixedHeader(WriteFixedHeader(h) + rest) == Ok(h)
  {
    var buf := WriteFixedHeader(h) + rest;
    Widths();
    BigEndianRoundTrip(h.chunkSize, 4);
    assert buf[0..6] == MAGIC;
    assert buf[9..13] == BigEndian(h.chunkSize, 4);
    assert buf[13..29] == h.streamID;
    assert buf[29..61] == h.streamSalt;
  }

  /** Only the printed form of a valid header is accepted: with HeaderRoundTrip, a bijection. */
  lemma HeaderCanonical(buf: bytes)
    requires |buf| == FIXED_HEADER_LEN && ParseFixedHeader(buf).Ok?
    ensures ParseFixedHeader(buf).value.Valid()
    ensures WriteFixedHeader(ParseFixedHeader(buf).value) == buf
  {
    FromBigEndianRoundTrip(buf[9..13]);
    assert buf == buf[0..6] + [buf[6]] + [buf[7]] + [buf[8]] + buf[9..13] + buf[13..29] + buf[29..61];
  }

  /** Where each part of the header stands. */
  lemma HeaderLayout(h: Header)
    requires |h.streamID| == 16 && |h.streamSalt| == 32
    ensures var b := WriteFixedHeader(h);
            && |b| == 61
            && b[..6] == Ascii("BSLSTR") && b[6] == 1 && b[7] == h.suiteID && b[8] == 0
            && b[9..13] == BigEndian(h.chunkSize, 4)
            && b[13..29] == h.streamID && b[29..] == h.streamSalt
  {
  }

  /** Which bytes are refused as a header, and with which error. */
  lemma HeaderRefusals(buf: bytes)
    ensures var r := ParseFixedHeader(buf);
            if |buf| < 61 then r == Err(ShortHeader)
            else if buf[..6] != Ascii("BSLSTR") then r == Err(BadMagic)
            else if buf[6] != 1 then r == Err(UnsupportedVersion)
            else if buf[8] != 0 then r == Err(ReservedFlags)
            else if !(1 <= buf[7] <= 5) then r == Err(UnsupportedSuite)
            else if !(1 <= FromBigEndian(buf[9..13]) <= 1048576) then r == Err(BadChunkSize)
            else r.Ok?
  {
    assert Ascii("BSLSTR") == MAGIC;
    if |buf| >= 61 {
      assert buf[0..6] == buf[..6];
    }
  }

  /** "BSLA" | version | suite | stream id | index | final flag | plaintext length | chunk size. */
  function ChunkAad(suiteID: byte, streamID: bytes, index: u64, isFinal: bool, plaintextLen: u32, chunkSize: u32)
    : bytes
  {
    CHUNK_AAD_MAGIC + [FORMAT_VERSION] + [suiteID] + streamID + BigEndian(index, 8)
    + [if isFinal then 1 else 0] + BigEndian(plaintextLen, 4) + BigEndian(chunkSize, 4)
  }

  /** "BSLK" | version | suite | stream id. */
  function CekWrapAad(suiteID: byte, streamID: bytes): bytes {
    CEK_WRAP_AAD_MAGIC + [FORMAT_VERSION] + [suiteID] + streamID
  }

  function ChunkNonce(index: u64): bytes {
    Zeros(4) + BigEndian(index, 8)
  }

  /** Where each part of a chunk's additional data and nonce stands. */
  lemma ChunkLayout(s: byte, id: bytes, i: u64, f: bool, n: u32, cs: u32)
    requires |id| == 16
    ensures var ad := ChunkAad(s, id, i, f, n, cs);
            && |ad| == 39
            && ad[..4] == Ascii("BSLA") && ad[4] == 1 && ad[5] == s && ad[6..22] == id
            && ad[22..30] == BigEndian(i, 8) && ad[30] == (if f then 1 else 0)
            && ad[31..35] == BigEndian(n, 4) && ad[35..] == BigEndian(cs, 4)
    ensures |ChunkNonce(i)| == 12
    ensures ChunkNonce(i)[..4] == [0, 0, 0, 0] && ChunkNonce(i)[4..] == BigEndian(i, 8)
  {
  }

  lemma CekWrapLayout(s: byte, id: bytes)
    requires |id| == 16
    ensures var ad := CekWrapAad(s, id);
            |ad| == 22 && ad[..4] == Ascii("BSLK") && ad[4] == 1 && ad[5] == s && ad[6..] == id
  {
  }

  /** The chunk additional data is 39 bytes long and determines all six of its inputs. */
  lemma ChunkAadInjective(s: byte, id: bytes, i: u64, f: bool, n: u32, cs: u32,
                          s': byte, id': bytes, i': u64, f': bool, n': u32, cs': u32)
    requires |id| == |id'| == STREAM_ID_LEN
    ensures |ChunkAad(s, id, i, f, n, cs)| == CHUNK_AAD_LEN
    ensures ChunkAad(s, id, i, f, n, cs) == ChunkAad(s', id', i', f', n', cs')
            <==> (s, id, i, f, n, cs) == (s', id', i', f', n', cs')
  {
    var a, a' := ChunkAad(s, id, i, f, n, cs), ChunkAad(s', id', i', f', n', cs');
    if a == a' {
      Widths();
      assert a[5] == s && a'[5] == s';
      assert a[6..22] == id && a'[6..22] == id';
      assert a[22..30] == BigEndian(i, 8) && a'[22..30] == BigEndian(i', 8);
      BigEndianInjective(i, i', 8);
      assert a[30] == (if f then 1 else 0) && a'[30] == (if f' then 1 else 0);
      assert a[31..35] == BigEndian(n, 4) && a'[31..35] == BigEndian(n', 4);
      BigEndianInjective(n, n', 4);
      assert a[35..39] == BigEndian(cs, 4) && a'[35..39] == BigEndian(cs', 4);
      BigEndianInjective(cs, cs', 4);
    }
  }

  /** The additional data of a wrapped key is 22 bytes long, injective, and never that of a chunk. */
  lemma CekWrapAadSeparate(s: byte, id: bytes, s': byte, id': bytes, i: u64, f: bool, n: u32, cs: u32)
    requires |id| == |id'| == STREAM_ID_LEN
    ensures |CekWrapAad(s, id)| == CEK_WRAP_AAD_LEN
    ensures CekWrapAad(s, id) == CekWrapAad(s', id') <==> (s, id) == (s', id')
    ensures CekWrapAad(s, id) != ChunkAad(s', id', i, f, n, cs)
  {
    var a, a' := CekWrapAad(s, id), CekWrapAad(s', id');
    assert a[5] == s && a'[5] == s';
    assert a[6..22] == id && a'[6..22] == id';
  }

  lemma ChunkNonceInjective(i: u64, j: u64)
    ensures |ChunkNonce(i)| == NONCE_LEN
    ensures ChunkNonce(i) == ChunkNonce(j) <==> i == j
  {
    if ChunkNonce(i) == ChunkNonce(j) {
      assert ChunkNonce(i)[4..] == BigEndian(i, 8) && ChunkNonce(j)[4..] == BigEndian(j, 8);
      Widths();
      BigEndianInjective(i, j, 8);
    }
  }
}
