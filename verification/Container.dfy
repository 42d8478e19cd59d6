/** Whole AEAD containers: the encrypting and decrypting entry points and their end-to-end properties. */
module Container {
  import opened Wrappers
  import opened Bytes
  import opened Format
  import opened Aead
  import opened Chunking
  import opened Records
  import opened Safety
  import opened Schedule
  import opened StreamIO
  import opened Stream

  /** "basil-stream-cek-v1" */
  const STREAM_CEK_LABEL: bytes :=
    [0x62, 0x61, 0x73, 0x69, 0x6C, 0x2D, 0x73, 0x74, 0x72, 0x65, 0x61, 0x6D, 0x2D, 0x63, 0x65, 0x6B, 0x2D, 0x76, 0x31]

  function MessageKeyInfo(suiteID: byte, streamID: bytes): bytes {
    STREAM_CEK_LABEL + [suiteID] + streamID
  }

  function DeriveMessageKey(a: Primitives, streamSalt: bytes, cek: bytes, suiteID: byte, streamID: bytes): bytes {
    a.hkdf(cek, streamSalt, MessageKeyInfo(suiteID, streamID))
  }

  lemma MessageKeyInfoInjective(s: byte, id: bytes, s': byte, id': bytes)
    requires MessageKeyInfo(s, id) == MessageKeyInfo(s', id')
    ensures s == s' && id == id'
  {
    var i, i' := MessageKeyInfo(s, id), MessageKeyInfo(s', id');
    assert i[19] == s && i'[19] == s';
    assert i[20..] == id && i'[20..] == id';
  }

  /** What the chunks of a container with header `h` are sealed under. */
  function ContextFor(a: Primitives, h: Header, cek: bytes): ChunkCrypto
    requires ChunkAeadForSuite(h.suiteID).Some?
  {
    ChunkCrypto(h.suiteID, ChunkAeadForSuite(h.suiteID).value, h.chunkSize, h.streamID,
                DeriveMessageKey(a, h.streamSalt, cek, h.suiteID, h.streamID))
  }

  // ---------- whole containers as functions ----------

  /** The container of plaintext `p`: the header, then each chunk's length and record, only the last
      marked final. */
  function AeadContainer(a: Primitives, h: Header, cek: bytes, p: bytes): bytes
    requires h.Valid() && IsAeadSuite(h.suiteID)
  {
    SealedContainer(a, h, cek, Chunks(p, h.chunkSize))
  }

  /** The header, then the records of any chunks. */
  function SealedContainer(a: Primitives, h: Header, cek: bytes, chs: seq<bytes>): bytes
    requires h.Valid()
  {
    WriteFixedHeader(h) + Frames(a, ContextFor(a, h, cek), 0, chs)
  }

  /** What decryption makes of any bytes. */
  function DecryptAeadBytes(a: Primitives, cek: bytes, data: bytes): Outcome {
    if |cek| != CEK_LEN then Outcome([], BadCekLength)
    else
      match ParseFixedHeader(data)
      case Err(e) => Outcome([], e)
      case Ok(h) =>
        if !IsAeadSuite(h.suiteID) then Outcome([], SuiteMismatch)
        else ReadBody(a, ContextFor(a, h, cek), data[FIXED_HEADER_LEN..])
  }

  lemma ParseIgnoresRest(data: bytes)
    requires |data| >= FIXED_HEADER_LEN
    ensures ParseFixedHeader(data[..FIXED_HEADER_LEN]) == ParseFixedHeader(data)
  {
    var buf := data[..FIXED_HEADER_LEN];
    assert buf[0..6] == data[0..6] && buf[9..13] == data[9..13];
    assert buf[13..29] == data[13..29] && buf[29..61] == data[29..61];
  }

  /** A parsed header is valid and the bytes start with its printed form. */
  lemma HeaderFound(data: bytes) returns (h: Header)
    requires ParseFixedHeader(data).Ok?
    ensures h == ParseFixedHeader(data).value && h.Valid() && |data| >= FIXED_HEADER_LEN
    ensures data == WriteFixedHeader(h) + data[FIXED_HEADER_LEN..]
  {
    h := ParseFixedHeader(data).value;
    ParseIgnoresRest(data);
    HeaderCanonical(data[..FIXED_HEADER_LEN]);
    assert data == data[..FIXED_HEADER_LEN] + data[FIXED_HEADER_LEN..];
  }

  /** Decryption behind a valid AEAD header is the reading of the rest. */
  lemma DecryptBehindHeader(a: Primitives, h: Header, cek: bytes, body: bytes)
    requires h.Valid() && IsAeadSuite(h.suiteID) && |cek| == CEK_LEN
    ensures DecryptAeadBytes(a, cek, WriteFixedHeader(h) + body) == ReadBody(a, ContextFor(a, h, cek), body)
  {
    HeaderRoundTrip(h, body);
    assert (WriteFixedHeader(h) + body)[FIXED_HEADER_LEN..] == body;
  }

  // ---------- end-to-end properties ----------

  /** Round trip: for every plaintext, header and key, decrypting the container gives the plaintext,
      in the very chunks that were sealed. */
  lemma AeadRoundTrip(a: Primitives, h: Header, cek: bytes, p: bytes)
    requires Tidy(a) && h.Valid() && IsAeadSuite(h.suiteID) && |cek| == CEK_LEN
    ensures DecryptAeadBytes(a, cek, AeadContainer(a, h, cek, p)) == Outcome(Chunks(p, h.chunkSize), Nil)
    ensures Flatten(Chunks(p, h.chunkSize)) == p
  {
    var c, chs := ContextFor(a, h, cek), Chunks(p, h.chunkSize);
    ChunksWellChunked(p, h.chunkSize);
    AcceptedLanguage(a, c, Frames(a, c, 0, chs), chs);
    DecryptBehindHeader(a, h, cek, Frames(a, c, 0, chs));
  }

  // ---------- a world of several encryptions ----------

  /** One encryption, finished or broken off, from whatever reader: its header, its content key, the chunks it
      sealed, and whether it sealed the last of them as final. */
  datatype Encryption = Encryption(h: Header, cek: bytes, chs: seq<bytes>, done: bool) {
    ghost predicate Valid() {
      h.Valid() && |cek| == CEK_LEN && (|chs| < TWO_64 || (done && |chs| == TWO_64))
    }

    /** It finished, and its reader let all chunks but the last come out full. */
    ghost predicate Whole() {
      done && WellChunked(chs, h.chunkSize)
    }

    /** What it sealed of its reader's bytes. */
    function Plaintext(): bytes {
      Flatten(chs)
    }
  }

  /** The encryption of a plaintext from a reader on a steady schedule. */
  lemma WholeEncryption(h: Header, cek: bytes, p: bytes)
    requires h.Valid()
    ensures Encryption(h, cek, Chunks(p, h.chunkSize), true).Whole()
    ensures Encryption(h, cek, Chunks(p, h.chunkSize), true).Plaintext() == p
  {
    ChunksWellChunked(p, h.chunkSize);
  }

  function RunOf(a: Primitives, e: Encryption): Run
    requires e.h.Valid()
  {
    Run(ContextFor(a, e.h, e.cek), e.chs, e.done)
  }

  ghost predicate AllValid(log: seq<Encryption>) {
    forall i :: 0 <= i < |log| ==> log[i].Valid()
  }

  function Runs(a: Primitives, log: seq<Encryption>): seq<Run>
    requires forall i :: 0 <= i < |log| ==> log[i].h.Valid()
  {
    seq(|log|, i requires 0 <= i < |log| => RunOf(a, log[i]))
  }

  /** A message key that some content key of `ceks` leads to, under any valid header. */
  ghost predicate Derived(a: Primitives, ceks: iset<bytes>, key: bytes) {
    exists h: Header, cek :: cek in ceks && |cek| == CEK_LEN && h.Valid() && key == ContextFor(a, h, cek).messageKey
  }

  ghost function MessageKeys(a: Primitives, ceks: iset<bytes>): iset<bytes> {
    iset key: bytes | Derived(a, ceks, key)
  }

  /** No other salt or content key of `ceks` leads to the message key of this stream. */
  ghost predicate KeyUnique(a: Primitives, ceks: iset<bytes>, h: Header, cek: bytes) {
    forall salt: bytes, cek': bytes {:trigger DeriveMessageKey(a, salt, cek', h.suiteID, h.streamID)} ::
      && |salt| == STREAM_SALT_LEN && |cek'| == CEK_LEN && cek' in ceks
      && DeriveMessageKey(a, salt, cek', h.suiteID, h.streamID)
         == DeriveMessageKey(a, h.streamSalt, cek, h.suiteID, h.streamID)
      ==> salt == h.streamSalt && cek' == cek
  }

  /** A finite log of encryptions under content keys of `ceks`, whose chunks are all that was ever sealed
      under message keys of those content keys. Who else holds other content keys may seal what they like. */
  ghost predicate World(a: Primitives, ceks: iset<bytes>, log: seq<Encryption>) {
    && AllValid(log)
    && (forall i :: 0 <= i < |log| ==> log[i].cek in ceks && KeyUnique(a, ceks, log[i].h, log[i].cek))
    && Ideal(a, MessageKeys(a, ceks), Runs(a, log))
  }

  lemma WorldKey(a: Primitives, ceks: iset<bytes>, h: Header, cek: bytes)
    requires h.Valid() && cek in ceks && |cek| == CEK_LEN
    ensures ContextFor(a, h, cek).messageKey in MessageKeys(a, ceks)
    ensures ContextFor(a, h, cek).Valid()
  {
    assert Derived(a, ceks, ContextFor(a, h, cek).messageKey);
  }

  /** A logged context leads back to the header and the content key. */
  lemma ContextPins(a: Primitives, ceks: iset<bytes>, log: seq<Encryption>, h: Header, cek: bytes, run: Run)
    returns (i: nat)
    requires World(a, ceks, log) && h.Valid() && cek in ceks && |cek| == CEK_LEN
    requires run in Runs(a, log) && run.c == ContextFor(a, h, cek)
    ensures i < |log| && RunOf(a, log[i]) == run && log[i].h == h && log[i].cek == cek
  {
    i :| 0 <= i < |log| && RunOf(a, log[i]) == run;
    var e := log[i];
    assert KeyUnique(a, ceks, e.h, e.cek);
    assert DeriveMessageKey(a, h.streamSalt, cek, e.h.suiteID, e.h.streamID)
        == DeriveMessageKey(a, e.h.streamSalt, e.cek, e.h.suiteID, e.h.streamID);
  }

  /** Behind header `h` and under content key `cek` exactly the bodies logged under them are accepted. */
  lemma LoggedBodyExactly(a: Primitives, ceks: iset<bytes>, log: seq<Encryption>, h: Header, cek: bytes, body: bytes)
    requires World(a, ceks, log) && h.Valid() && cek in ceks && |cek| == CEK_LEN
    ensures ReadBody(a, ContextFor(a, h, cek), body).error == Nil
            <==> exists i :: 0 <= i < |log| && BodyOf(a, log[i], h, cek, body)
  {
    hide ReadBody, Ideal, WellChunked, Frames, KeyUnique;
    WorldKey(a, ceks, h, cek);
    var c, runs := ContextFor(a, h, cek), Runs(a, log);
    BodyUnique(a, MessageKeys(a, ceks), runs, c, body);
    if LoggedBody(a, runs, c, body) {
      var run :| run in runs && run.c == c && run.done && WellChunked(run.chs, c.chunkSize) && body == Frames(a, c, 0, run.chs);
      var i := ContextPins(a, ceks, log, h, cek, run);
      assert BodyOf(a, log[i], h, cek, body);
    }
    if i :| 0 <= i < |log| && BodyOf(a, log[i], h, cek, body) {
      assert runs[i] in runs && runs[i].c == c;
    }
  }

  ghost predicate BodyOf(a: Primitives, e: Encryption, h: Header, cek: bytes, body: bytes) {
    && h.Valid() && e.h == h && e.cek == cek && e.Whole()
    && body == Frames(a, ContextFor(a, h, cek), 0, e.chs)
  }

  /** The bytes are, one for one, what this encryption wrote under `cek` and an AEAD suite. */
  ghost predicate ContainerOf(a: Primitives, e: Encryption, cek: bytes, data: bytes) {
    && e.h.Valid() && IsAeadSuite(e.h.suiteID) && e.cek == cek && e.Whole()
    && data == SealedContainer(a, e.h, cek, e.chs)
  }

  /** Unique acceptance: under a content key of the log exactly the bytes some finished encryption with full
      chunks wrote under that very key. Every reordered, duplicated, truncated, extended or re-headed stream
      is rejected, and so is every splice of two of them, and what a broken off or stalled encryption wrote. */
  lemma UniqueAcceptance(a: Primitives, ceks: iset<bytes>, log: seq<Encryption>, cek: bytes, data: bytes)
    requires World(a, ceks, log) && cek in ceks
    ensures DecryptAeadBytes(a, cek, data).error == Nil <==> exists i :: 0 <= i < |log| && ContainerOf(a, log[i], cek, data)
  {
    hide ReadBody, Ideal, KeyUnique, Frames;
    if DecryptAeadBytes(a, cek, data).error == Nil {
      var h := HeaderFound(data);
      LoggedBodyExactly(a, ceks, log, h, cek, data[FIXED_HEADER_LEN..]);
      var i :| 0 <= i < |log| && BodyOf(a, log[i], h, cek, data[FIXED_HEADER_LEN..]);
      assert ContainerOf(a, log[i], cek, data);
    }
    if i :| 0 <= i < |log| && ContainerOf(a, log[i], cek, data) {
      var h, body := log[i].h, Frames(a, ContextFor(a, log[i].h, cek), 0, log[i].chs);
      assert log[i].Valid();
      DecryptBehindHeader(a, h, cek, body);
      assert BodyOf(a, log[i], h, cek, body);
      LoggedBodyExactly(a, ceks, log, h, cek, body);
    }
  }

  lemma LoggedExclusive(a: Primitives, ceks: iset<bytes>, log: seq<Encryption>, e: Encryption)
    requires World(a, ceks, log) && e in log && e.done
    ensures e.Valid()
    ensures Exclusive(a, ContextFor(a, e.h, e.cek), e.chs)
    ensures OpensOwn(a, ContextFor(a, e.h, e.cek), 0, e.chs)
  {
    var i :| 0 <= i < |log| && log[i] == e;
    var runs := Runs(a, log);
    assert runs[i] == RunOf(a, e) && runs[i] in runs;
    assert log[i].Valid();
    hide Ideal, Exclusive, OpensOwn, KeyUnique;
    WorldKey(a, ceks, e.h, e.cek);
    LoggedOpensOwn(a, MessageKeys(a, ceks), runs, runs[i]);
    IdealExclusive(a, MessageKeys(a, ceks), runs, runs[i]);
  }

  /** A cut or extended body of a logged encryption. */
  lemma LoggedBodyCut(a: Primitives, ceks: iset<bytes>, log: seq<Encryption>, e: Encryption, k: nat)
    requires World(a, ceks, log) && e in log && e.h.Valid() && e.Whole()
    requires k < |Frames(a, ContextFor(a, e.h, e.cek), 0, e.chs)|
    ensures var c, chs := ContextFor(a, e.h, e.cek), e.chs;
            CutAt(chs, k, ReadBody(a, c, Frames(a, c, 0, chs)[..k]))
  {
    hide World, Exclusive, OpensOwn, ReadBody, Frames, CutAt;
    LoggedExclusive(a, ceks, log, e);
    var c, chs := ContextFor(a, e.h, e.cek), e.chs;
    BodyLength(a, c, chs);
    BodyCut(a, c, chs, k);
  }

  lemma LoggedBodyExtended(a: Primitives, ceks: iset<bytes>, log: seq<Encryption>, e: Encryption, extra: bytes)
    requires World(a, ceks, log) && e in log && e.h.Valid() && e.Whole() && extra != []
    ensures var c, chs := ContextFor(a, e.h, e.cek), e.chs;
            ReadBody(a, c, Frames(a, c, 0, chs) + extra)
            == Outcome(chs[..|chs| - 1], if |extra| < 4 then Truncated else AuthFailed)
  {
    hide World, Exclusive, OpensOwn, ReadBody, Frames;
    LoggedExclusive(a, ceks, log, e);
    BodyExtended(a, ContextFor(a, e.h, e.cek), e.chs, extra);
  }

  /** Every proper prefix of a container fails, with the error its cut point determines, and what was
      written out is a proper prefix of the chunks. */
  lemma CutContainer(a: Primitives, ceks: iset<bytes>, log: seq<Encryption>, e: Encryption, k: nat)
    requires World(a, ceks, log) && e in log && e.h.Valid() && e.Whole()
    requires IsAeadSuite(e.h.suiteID) && k < |SealedContainer(a, e.h, e.cek, e.chs)|
    ensures var chs := e.chs;
            var o := DecryptAeadBytes(a, e.cek, SealedContainer(a, e.h, e.cek, e.chs)[..k]);
            && o.chunks < chs
            && o.error == if k < FIXED_HEADER_LEN then ShortHeader
                          else if AtBoundary(chs, k - FIXED_HEADER_LEN) then AuthFailed
                          else Truncated
  {
    hide World, Exclusive, OpensOwn, ReadBody, Frames, AtBoundary;
    var c, chs := ContextFor(a, e.h, e.cek), e.chs;
    LoggedExclusive(a, ceks, log, e);
    var head, body := WriteFixedHeader(e.h), Frames(a, c, 0, chs);
    HeaderRoundTrip(e.h, []);
    if k >= FIXED_HEADER_LEN {
      var k' := k - FIXED_HEADER_LEN;
      assert (head + body)[..k] == head + body[..k'];
      DecryptBehindHeader(a, e.h, e.cek, body[..k']);
      LoggedBodyCut(a, ceks, log, e, k');
    }
  }

  /** Bytes behind a container: one to three leave a torn length prefix, more turn its final record into
      one that is not the last. Either way everything but the final chunk has been written out. */
  lemma ExtendContainer(a: Primitives, ceks: iset<bytes>, log: seq<Encryption>, e: Encryption, extra: bytes)
    requires World(a, ceks, log) && e in log && e.h.Valid() && e.Whole() && IsAeadSuite(e.h.suiteID) && extra != []
    ensures var chs := e.chs;
            DecryptAeadBytes(a, e.cek, SealedContainer(a, e.h, e.cek, e.chs) + extra)
            == Outcome(chs[..|chs| - 1], if |extra| < 4 then Truncated else AuthFailed)
  {
    hide World, Exclusive, OpensOwn, ReadBody, Frames;
    LoggedExclusive(a, ceks, log, e);
    var head := WriteFixedHeader(e.h);
    var body := Frames(a, ContextFor(a, e.h, e.cek), 0, e.chs);
    assert head + body + extra == head + (body + extra);
    DecryptBehindHeader(a, e.h, e.cek, body + extra);
    LoggedBodyExtended(a, ceks, log, e, extra);
  }

  /** Conservation: 61 bytes of header, the plaintext, and 20 bytes for each of max(1, ceil) chunks. */
  lemma ContainerLength(a: Primitives, h: Header, cek: bytes, p: bytes)
    requires h.Valid() && IsAeadSuite(h.suiteID)
    requires OpensOwn(a, ContextFor(a, h, cek), 0, Chunks(p, h.chunkSize))
    ensures |AeadContainer(a, h, cek, p)| == FIXED_HEADER_LEN + |p| + 20 * ChunkCount(|p|, h.chunkSize)
  {
    HeaderRoundTrip(h, []);
    FramesLength(a, ContextFor(a, h, cek), 0, Chunks(p, h.chunkSize));
    ChunksWellChunked(p, h.chunkSize);
    ChunksCount(p, h.chunkSize);
  }

  /** No two seals of a run share a nonce exactly if the run has at most 2^64 chunks. */
  lemma NoncesDistinct(n: nat)
    ensures (forall i: nat, j: nat :: i < j < n ==> ChunkNonce(i % TWO_64) != ChunkNonce(j % TWO_64)) <==> n <= TWO_64
  {
    if n <= TWO_64 {
      forall i: nat, j: nat | i < j < n
        ensures ChunkNonce(i % TWO_64) != ChunkNonce(j % TWO_64)
      {
        ModSmall(i, TWO_64);
        ModSmall(j, TWO_64);
        ChunkNonceInjective(i, j);
      }
    } else {
      assert 0 < TWO_64 < n && ChunkNonce(0 % TWO_64) == ChunkNonce(TWO_64 % TWO_64);
    }
  }

  // ---------- sealed chunk lists and stalling readers ----------

  lemma {:induction false} ReadSealed(a: Primitives, c: ChunkCrypto, index: nat, chs: seq<bytes>)
    requires c.Valid() && chs != [] && Sized(chs, c.chunkSize) && OpensOwn(a, c, index, chs)
    ensures ReadFrom(a, c, index, SealChunk(a, c, index, |chs| == 1, chs[0]), Frames(a, c, index + 1, chs[1..])).error
            == if WellChunked(chs, c.chunkSize) then Nil else AuthFailed
    decreases |chs|
  {
    OpensOwnHead(a, c, index, chs);
    if |chs| > 1 {
      var current, tail := SealChunk(a, c, index, false, chs[0]), chs[1..];
      OpensOwnTail(a, c, index, chs);
      OpensOwnHead(a, c, index + 1, tail);
      FramesRead(a, c, index + 1, tail);
      WellChunkedTail(chs, c.chunkSize);
      if |chs[0]| == c.chunkSize {
        ReadSealed(a, c, index + 1, tail);
        var record := SealChunk(a, c, index + 1, |tail| == 1, tail[0]);
        ReadFromStep(a, c, index, current, Frames(a, c, index + 1, tail), chs[0],
                     record, Frames(a, c, index + 2, tail[1..]));
      }
    }
  }

  lemma FirstSized(chs: seq<bytes>, size: nat)
    requires chs != [] && Sized(chs, size)
    ensures |chs[0]| <= size
  {
  }

  lemma SealedReads(a: Primitives, c: ChunkCrypto, chs: seq<bytes>)
    requires c.Valid() && chs != [] && Sized(chs, c.chunkSize) && OpensOwn(a, c, 0, chs)
    ensures ReadBody(a, c, Frames(a, c, 0, chs)).error == if WellChunked(chs, c.chunkSize) then Nil else AuthFailed
  {
    hide SealChunk, OpenChunk, OpensOwn, Frames, WellChunked, Sized, ReadBody, ReadFrom;
    FirstSized(chs, c.chunkSize);
    OpensOwnHead(a, c, 0, chs);
    BodyStart(a, c, chs);
    ReadSealed(a, c, 0, chs);
  }

  /** What becomes of a body sealed from any chunks of at most the chunk size: it decrypts, to all of them,
      exactly if all but the last are full. */
  lemma SealedDecrypts(a: Primitives, c: ChunkCrypto, chs: seq<bytes>)
    requires Tidy(a) && c.Valid() && chs != [] && Sized(chs, c.chunkSize)
    ensures var o := ReadBody(a, c, Frames(a, c, 0, chs));
            && o.error == (if WellChunked(chs, c.chunkSize) then Nil else AuthFailed)
            && (o.error == Nil ==> o.chunks == chs)
  {
    hide ReadBody, Frames, WellChunked, Sized, Tidy;
    TidyOpensOwn(a, c, 0, chs);
    SealedReads(a, c, chs);
    if WellChunked(chs, c.chunkSize) {
      BodyComplete(a, c, chs);
    }
  }

  /** The round trip from any reader at all. A successful encryption decrypts to the reader's bytes exactly
      if the reader's schedule is steady: no readFull comes back short while bytes remain. Otherwise the
      container is refused, or decrypts without an error to a proper prefix of the bytes. */
  lemma RoundTripExactly(a: Primitives, c: ChunkCrypto, data: bytes, turns: seq<Turn>, calls: nat)
    requires Tidy(a) && c.Valid() && !IntakeOf(data, turns, calls, c.chunkSize).fault
    ensures var chs := IntakeOf(data, turns, calls, c.chunkSize).chunks;
            var o := ReadBody(a, c, Frames(a, c, 0, chs));
            && (o.error == Nil && Flatten(o.chunks) == data <==> Steady(|data|, turns, calls, c.chunkSize))
            && ((o.error == Nil && Flatten(o.chunks) <= data) || o.error == AuthFailed)
  {
    hide IntakeOf, Steady, ReadBody, Frames, Tidy, Flatten, WellChunked, Sized;
    var r := IntakeOf(data, turns, calls, c.chunkSize);
    IntakeWhole(data, turns, calls, c.chunkSize);
    IntakeExactly(data, turns, calls, c.chunkSize);
    SealedDecrypts(a, c, r.chunks);
    if r.rest == [] {
      assert Flatten(r.chunks) + r.rest == Flatten(r.chunks);
    } else {
      assert |data| == |Flatten(r.chunks)| + |r.rest|;
    }
  }

  /** Three bytes in chunks of two, delivered as one, none, two: the first chunk comes out short. */
  const REFUSED_TURNS: seq<Turn> := [Deliver(1, false), Deliver(0, false)]

  /** The same three bytes as two, none: the third is never asked for. */
  const TRUNCATED_TURNS: seq<Turn> := [Deliver(2, false), Deliver(0, false)]

  lemma RefusedIntake()
    ensures IntakeOf([1, 2, 3], REFUSED_TURNS, 0, 2) == Intake([[1], [2, 3]], [], 4, false)
    ensures !WellChunked([[1], [2, 3]], 2)
  {
    var data: bytes := [1, 2, 3];
    assert Fill(2, REFUSED_TURNS, 1, 1) == Filled(0, 2, false);
    assert Fill(3, REFUSED_TURNS, 0, 2) == Filled(1, 2, false);
    assert Fill(2, REFUSED_TURNS, 2, 2) == Filled(2, 3, false);
    assert Fill(0, REFUSED_TURNS, 3, 2) == Filled(0, 4, false);
    assert data[..1] == [1] && data[1..] == [2, 3] && data[1..][..2] == [2, 3] && data[1..][2..] == [];
    assert IntakeAfter([], REFUSED_TURNS, 3, 2) == Intake([], [], 4, false);
    assert IntakeAfter(data[1..], REFUSED_TURNS, 2, 2) == Intake([[2, 3]], [], 4, false);
    assert |[[1], [2, 3]][0]| == 1;
  }

  lemma TruncatedIntake()
    ensures IntakeOf([1, 2, 3], TRUNCATED_TURNS, 0, 2) == Intake([[1, 2]], [3], 2, false)
    ensures WellChunked([[1, 2]], 2) && Flatten([[1, 2]]) == [1, 2]
  {
    var data: bytes := [1, 2, 3];
    assert Fill(1, TRUNCATED_TURNS, 1, 0) == Filled(0, 1, false);
    assert Fill(3, TRUNCATED_TURNS, 0, 2) == Filled(2, 1, false);
    assert Fill(1, TRUNCATED_TURNS, 1, 2) == Filled(0, 2, false);
    assert data[..2] == [1, 2] && data[2..] == [3];
    assert IntakeAfter(data[2..], TRUNCATED_TURNS, 1, 2) == Intake([], [3], 2, false);
    assert |[[1, 2]][0]| == 2;
  }

  // ---------- safety from any source ----------

  /** What a decryption leaves behind, whatever the source did: the plaintexts handed to Write were all
      authentic under some valid header `h` and the content key `cek`. */
  ghost predicate DecryptedSafely(a: Primitives, cek: bytes, h: Header, pts: seq<bytes>, err: Error) {
    (err == Nil || pts != []) ==>
      && |cek| == CEK_LEN && h.Valid()
      && var c := ContextFor(a, h, cek);
         if err == SinkFault then Authentic(a, c, 0, pts, false) || Authentic(a, c, 0, pts, true)
         else Authentic(a, c, 0, pts, err == Nil)
  }

  /** Encryption `e` was made under this header and key, and `pts` are the first of its chunks; all of them,
      of an encryption that finished with full chunks, if the decryption succeeded. */
  ghost predicate FirstChunksOf(e: Encryption, h: Header, cek: bytes, pts: seq<bytes>, err: Error) {
    && h.Valid() && e.h == h && e.cek == cek
    && pts <= e.chs && Flatten(pts) <= e.Plaintext()
    && (err == Nil ==> pts == e.chs && e.done)
  }

  /** Authenticated-prefix safety over every run, those that fail included: what was handed to Write under
      a content key of the log is a prefix of the chunks of one single logged encryption, made with the very
      header and content key used, and decryption succeeds only with all of them. */
  lemma DecryptionIsSafe(a: Primitives, ceks: iset<bytes>, log: seq<Encryption>,
                         cek: bytes, h: Header, pts: seq<bytes>, err: Error)
    requires World(a, ceks, log) && cek in ceks && DecryptedSafely(a, cek, h, pts, err)
    ensures err == Nil || pts != [] ==> exists e :: e in log && FirstChunksOf(e, h, cek, pts, err)
  {
    hide Ideal, KeyUnique, Authentic, Flatten;
    if err == Nil || pts != [] {
      var d := ContextFor(a, h, cek);
      var done := err == Nil || (err == SinkFault && !Authentic(a, d, 0, pts, false));
      WorldKey(a, ceks, h, cek);
      AuthenticSome(a, d, pts, done);
      var run := AuthenticPrefix(a, MessageKeys(a, ceks), Runs(a, log), d, pts, done);
      var i := ContextPins(a, ceks, log, h, cek, run);
      FlattenPrefix(pts, run.chs);
      assert FirstChunksOf(log[i], h, cek, pts, err);
    }
  }

  lemma AuthenticSome(a: Primitives, c: ChunkCrypto, pts: seq<bytes>, done: bool)
    requires Authentic(a, c, 0, pts, done)
    ensures done ==> pts != []
  {
  }

  /** The destination never holds more than those plaintexts behind what it held before, and all of them
      unless a Write failed. */
  lemma DeliveredPrefix(base: seq<bytes>, writes: seq<bytes>, pts: seq<bytes>, err: Error)
    requires Delivered(base, writes, pts, err)
    ensures Flatten(base) <= Flatten(writes) <= Flatten(base) + Flatten(pts)
    ensures err != SinkFault ==> Flatten(writes) == Flatten(base) + Flatten(pts)
  {
    if err == SinkFault {
      var front, last := pts[..|pts| - 1], pts[|pts| - 1];
      var taken :| taken <= last && writes == base + front + [taken];
      DeliveredPart(base, front, taken, last);
      assert pts == front + [last];
    } else {
      FlattenConcat(base, pts);
    }
  }

  lemma DeliveredPart(base: seq<bytes>, front: seq<bytes>, taken: bytes, last: bytes)
    requires taken <= last
    ensures Flatten(base) <= Flatten(base + front + [taken]) <= Flatten(base) + Flatten(front + [last])
  {
    hide Flatten;
    FlattenSnoc(base + front, taken);
    FlattenConcat(base, front);
    FlattenSnoc(front, last);
    PrefixAppend(Flatten(base) + Flatten(front), taken, last);
    assert Flatten(base) + Flatten(front) + last == Flatten(base) + (Flatten(front) + last);
  }

  // ---------- the entry points ----------

  /** The random bytes drawn by one encryption. */
  datatype Entropy = Entropy(cek: bytes, streamID: bytes, streamSalt: bytes) {
    predicate Valid() {
      |cek| == CEK_LEN && |streamID| == STREAM_ID_LEN && |streamSalt| == STREAM_SALT_LEN
    }
  }

  /** Encrypts `src` into `dst`; `provided` is the caller's content key, if any. Given a reliable source
      and destination it writes exactly the container of the source's bytes and returns the key. */
  method EncryptAEAD(a: Primitives, dst: Sink, src: Source, suite: byte, provided: Option<bytes>,
                     chunkSize: int, entropy: Entropy)
    returns (key: bytes, err: Error, ghost h: Header, ghost chs: seq<bytes>)
    requires entropy.Valid()
    modifies dst`writes, src`data, src`calls, src`peak
    ensures err == SuiteMismatch <==> suite != 1 && suite != 2
    ensures err == BadChunkSize <==> (suite == 1 || suite == 2) && !(1 <= chunkSize <= 1048576)
    ensures err == BadCekLength <==> (suite == 1 || suite == 2) && 1 <= chunkSize <= 1048576
                                     && provided.Some? && |provided.value| != 32
    ensures err in {SuiteMismatch, BadChunkSize, BadCekLength} ==>
              dst.writes == old(dst.writes) && src.data == old(src.data)
    ensures err !in {SuiteMismatch, BadChunkSize, BadCekLength} ==>
              && h == Header(suite, chunkSize, entropy.streamID, entropy.streamSalt) && h.Valid()
              && |key| == 32 && key == (if provided.Some? then provided.value else entropy.cek)
              && Wrote(a, ContextFor(a, h, key), old(dst.Contents()) + WriteFixedHeader(h), old(src.data),
                       src.reliable, src.data, dst.Contents(), err, chs)
    ensures err in {Nil, SuiteMismatch, BadChunkSize, BadCekLength}
            || (err == SourceFault && !src.reliable) || (err == SinkFault && !dst.reliable)
    ensures err in {Nil, SourceFault} ==>
              var intake := IntakeOf(old(src.data), src.turns, old(src.calls), chunkSize);
              && (err == Nil ==> intake == Intake(chs, src.data, src.calls, false))
              && (err == SourceFault ==> intake.fault)
    ensures err == Nil && src.reliable ==>
              h.Valid() && IsAeadSuite(h.suiteID)
              && dst.Contents() == old(dst.Contents()) + AeadContainer(a, h, key, old(src.data))
  {
    hide WriteFixedHeader, DeriveMessageKey, Frames, Sized, Flatten, Chunks, IntakeOf;
    key, h, chs := entropy.cek, Header(suite, 1, entropy.streamID, entropy.streamSalt), [];
    if suite != SUITE_AES_256_GCM && suite != SUITE_CHACHA20_POLY1305 {
      err := SuiteMismatch;
      return;
    }
    if chunkSize <= 0 || chunkSize > MAX_CHUNK_SIZE {
      err := BadChunkSize;
      return;
    }
    if provided.Some? {
      if |provided.value| != CEK_LEN {
        err := BadCekLength;
        return;
      }
      key := provided.value;
    }
    h := Header(suite, chunkSize, entropy.streamID, entropy.streamSalt);
    var header := WriteFixedHeader(Header(suite, chunkSize, entropy.streamID, entropy.streamSalt));
    var alg := ChunkAeadForSuite(suite).value;
    var messageKey := DeriveMessageKey(a, entropy.streamSalt, key, suite, entropy.streamID);
    var c := ChunkCrypto(suite, alg, chunkSize, entropy.streamID, messageKey);
    err, chs := WriteChunks(a, dst, src, header, c);
    assert old(dst.Contents()) + header + Frames(a, c, 0, chs)
        == old(dst.Contents()) + (header + Frames(a, c, 0, chs));
  }

  /** The 61 header bytes from a source. */
  method ReadFixedHeader(src: Source) returns (h: Result<Header, Error>)
    modifies src`data, src`calls, src`peak
    ensures h.Ok? ==> h.value.Valid()
    ensures src.reliable ==> h == ParseFixedHeader(old(src.data))
    ensures src.reliable && h.Ok? ==> src.data == old(src.data)[FIXED_HEADER_LEN..]
    ensures h == Err(SourceFault) ==> !src.reliable
    ensures h != Err(Nil) && h != Err(SinkFault)
    ensures src.peak <= old(src.peak) || src.peak <= FIXED_HEADER_LEN
  {
    var buf := new byte[FIXED_HEADER_LEN];
    var got, e := ReadFull(src, buf);
    if e != Nil {
      return Err(e);
    }
    if got != FIXED_HEADER_LEN {
      return Err(ShortHeader);
    }
    assert buf[..] == buf[..FIXED_HEADER_LEN];
    ParseIgnoresRest(old(src.data));
    h := ParseFixedHeader(buf[..]);
    if h.Ok? {
      var _ := HeaderFound(buf[..]);
    }
  }

  /** Decrypts `src` into `dst`. From a reliable source into a reliable destination it does exactly what
      DecryptAeadBytes says of the source's bytes; from any source it is safe. */
  method DecryptAEAD(a: Primitives, dst: Sink, src: Source, cek: bytes)
    returns (err: Error, ghost h: Header, ghost pts: seq<bytes>)
    modifies dst`writes, src`data, src`calls, src`peak
    ensures DecryptedSafely(a, cek, h, pts, err) && (err == Nil ==> IsAeadSuite(h.suiteID))
    ensures Delivered(old(dst.writes), dst.writes, pts, err)
    ensures src.reliable && err != SinkFault ==> DecryptAeadBytes(a, cek, old(src.data)) == Outcome(pts, err)
    ensures (err == SourceFault ==> !src.reliable) && (err == SinkFault ==> !dst.reliable)
    ensures src.peak <= old(src.peak) || src.peak <= FIXED_HEADER_LEN || src.peak <= h.chunkSize + TAG_LEN
  {
    hide ParseFixedHeader, ReadBody, Authentic, DeriveMessageKey;
    h, pts := Header(1, 1, [], []), [];
    if |cek| != CEK_LEN {
      err := BadCekLength;
      return;
    }
    var header := ReadFixedHeader(src);
    if header.Err? {
      err := header.error;
      return;
    }
    h := header.value;
    if !IsAeadSuite(header.value.suiteID) {
      err := SuiteMismatch;
      return;
    }
    var alg := ChunkAeadForSuite(header.value.suiteID).value;
    var messageKey := DeriveMessageKey(a, header.value.streamSalt, cek, header.value.suiteID, header.value.streamID);
    var c := ChunkCrypto(header.value.suiteID, alg, header.value.chunkSize, header.value.streamID, messageKey);
    err, pts := ReadChunks(a, dst, src, c);
  }

  /** Decryption in the world of the log. In every run, from any source into any destination, failed ones
      included, nothing but a first part of one encryption's plaintext is added to the destination; all of
      it if the run succeeds, and from a reliable source it succeeds exactly on a logged container. */
  method DecryptLogged(a: Primitives, dst: Sink, src: Source, cek: bytes,
                       ghost ceks: iset<bytes>, ghost log: seq<Encryption>)
    returns (err: Error, ghost e: Encryption)
    requires World(a, ceks, log) && cek in ceks
    modifies dst`writes, src`data, src`calls, src`peak
    ensures old(dst.Contents()) <= dst.Contents() <= old(dst.Contents()) + e.Plaintext()
    ensures err == Nil || dst.Contents() != old(dst.Contents()) ==> e in log && e.cek == cek
    ensures err == Nil ==> dst.Contents() == old(dst.Contents()) + e.Plaintext()
    ensures src.reliable && err != SinkFault ==>
              (err == Nil <==> exists i :: 0 <= i < |log| && ContainerOf(a, log[i], cek, old(src.data)))
  {
    hide World, Delivered, DecryptedSafely, DecryptAeadBytes, ContainerOf, Flatten, Chunks;
    ghost var data, before := src.data, dst.writes;
    e := Encryption(Header(1, 1, [], []), cek, [], false);
    ghost var h, pts;
    err, h, pts := DecryptAEAD(a, dst, src, cek);
    DeliveredPrefix(before, dst.writes, pts, err);
    DecryptionIsSafe(a, ceks, log, cek, h, pts, err);
    UniqueAcceptance(a, ceks, log, cek, data);
    if err == Nil || pts != [] {
      e :| e in log && FirstChunksOf(e, h, cek, pts, err);
      PrefixAppend(Flatten(before), Flatten(pts), e.Plaintext());
    } else {
      NoContents();
    }
  }

  /** A caller's round trip: encrypt what any source delivers into memory, decrypt the result again. The
      encryption succeeds unless the source fails, and gives the source's bytes back exactly on a steady
      schedule. */
  method SealAndOpenFrom(a: Primitives, src: Source, suite: byte, provided: Option<bytes>, chunkSize: int,
                         entropy: Entropy, turns: seq<Turn>)
    returns (out: bytes, sealErr: Error, err: Error)
    requires Tidy(a) && entropy.Valid() && AllHonest(turns)
    requires IsAeadSuite(suite) && 1 <= chunkSize <= MAX_CHUNK_SIZE
    requires provided.Some? ==> |provided.value| == CEK_LEN
    modifies src`data, src`calls, src`peak
    ensures var intake := IntakeOf(old(src.data), src.turns, old(src.calls), chunkSize);
            && sealErr == (if intake.fault then SourceFault else Nil)
            && (sealErr == Nil ==> err == if WellChunked(intake.chunks, chunkSize) then Nil else AuthFailed)
            && (sealErr == Nil && err == Nil ==> out == Flatten(intake.chunks))
    ensures sealErr == Nil ==>
              (err == Nil && out == old(src.data) <==> Steady(|old(src.data)|, src.turns, old(src.calls), chunkSize))
    ensures sealErr == Nil && err == Nil ==> out <= old(src.data)
  {
    hide IntakeOf, Steady, WellChunked, Flatten, Frames, ReadBody, Sized, Tidy, AllHonest;
    ghost var data, calls := src.data, src.calls;
    out, err := [], Nil;
    var box := new Sink(true);
    var key, e, h, chs := EncryptAEAD(a, box, src, suite, provided, chunkSize, entropy);
    sealErr := e;
    if sealErr != Nil {
      return;
    }
    var sealedBytes := box.Contents();
    ghost var c := ContextFor(a, h, key);
    assert sealedBytes == WriteFixedHeader(h) + Frames(a, c, 0, chs) by {
      NoContents();
    }
    DecryptBehindHeader(a, h, key, Frames(a, c, 0, chs));
    RoundTripExactly(a, c, data, src.turns, calls);
    IntakeWhole(data, src.turns, calls, chunkSize);
    SealedDecrypts(a, c, chs);
    var cipher := new Source(sealedBytes, turns);
    var plainAgain := new Sink(true);
    ghost var pts;
    err, h, pts := DecryptAEAD(a, plainAgain, cipher, key);
    DeliveredPrefix([], plainAgain.writes, pts, err);
    NoContents();
    out := plainAgain.Contents();
  }

  lemma NoContents()
    ensures Flatten([]) == []
  {
  }

  /** The round trip of a plaintext in memory. Both readers may split their reads in any honest way, each
      its own. */
  method SealAndOpen(a: Primitives, p: bytes, suite: byte, provided: Option<bytes>, chunkSize: int, entropy: Entropy,
                     plainTurns: seq<Turn>, cipherTurns: seq<Turn>)
    returns (out: bytes, err: Error)
    requires Tidy(a) && entropy.Valid() && AllHonest(plainTurns) && AllHonest(cipherTurns)
    requires IsAeadSuite(suite) && 1 <= chunkSize <= MAX_CHUNK_SIZE
    requires provided.Some? ==> |provided.value| == CEK_LEN
    ensures err == Nil && out == p
  {
    hide IntakeOf, Steady, AllHonest, Flatten, WellChunked;
    var plain := new Source(p, plainTurns);
    HonestSteady(|p|, plainTurns, 0, chunkSize);
    IntakeExactly(p, plainTurns, 0, chunkSize);
    var sealErr;
    out, sealErr, err := SealAndOpenFrom(a, plain, suite, provided, chunkSize, entropy, cipherTurns);
  }

  /** Two readers of the bytes 1, 2, 3 that stall once, and what comes of them in chunks of two: a container
      that is refused, and one that silently lacks the third byte. */
  method StalledReaders(a: Primitives, suite: byte, entropy: Entropy)
    returns (refused: Error, truncated: bytes)
    requires Tidy(a) && entropy.Valid() && IsAeadSuite(suite)
    ensures refused == AuthFailed
    ensures truncated == [1, 2]
  {
    hide IntakeOf, Steady, Flatten, WellChunked;
    RefusedIntake();
    var first := new Source([1, 2, 3], REFUSED_TURNS);
    var _, sealErr, err := SealAndOpenFrom(a, first, suite, None, 2, entropy, []);
    refused := err;
    TruncatedIntake();
    var second := new Source([1, 2, 3], TRUNCATED_TURNS);
    truncated, sealErr, err := SealAndOpenFrom(a, second, suite, None, 2, entropy, []);
    assert sealErr == Nil && err == Nil;
  }
}
