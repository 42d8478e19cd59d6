/** The record sequence after the header: what the writer emits, what the reader does with any bytes,
    and the language the reader accepts. */
module Records {
  import opened Wrappers
  import opened Bytes
  import opened Format
  import opened Aead
  import opened Chunking

  // ---------- writing ----------

  /** One record with its 4-byte big-endian length. */
  function Frame(a: Primitives, c: ChunkCrypto, index: nat, isFinal: bool, plaintext: bytes): bytes {
    var record := SealChunk(a, c, index, isFinal, plaintext);
    BigEndian(|record| % TWO_32, 4) + record
  }

  /** The chunks `chs` as records numbered from `base` on, the last one marked final. */
  function Frames(a: Primitives, c: ChunkCrypto, base: nat, chs: seq<bytes>): bytes
    decreases |chs|
  {
    if chs == [] then []
    else Frame(a, c, base, |chs| == 1, chs[0]) + Frames(a, c, base + 1, chs[1..])
  }

  /** The records of chunks that have more to follow: numbered from 0, none marked final. */
  function Emitted(a: Primitives, c: ChunkCrypto, chs: seq<bytes>): bytes {
    if chs == [] then []
    else
      var j := |chs| - 1;
      Emitted(a, c, chs[..j]) + Frame(a, c, j, false, chs[j])
  }

  lemma {:induction false} EmittedSplit(a: Primitives, c: ChunkCrypto, chs: seq<bytes>, j: nat)
    requires j < |chs|
    ensures Frames(a, c, 0, chs) == Emitted(a, c, chs[..j]) + Frames(a, c, j, chs[j..])
  {
    hide Frame;
    if j == 0 {
      assert chs[0..] == chs;
    } else {
      EmittedSplit(a, c, chs, j - 1);
      assert chs[j - 1..][1..] == chs[j..];
      assert chs[..j][..j - 1] == chs[..j - 1];
    }
  }

  lemma EmittedContinue(a: Primitives, c: ChunkCrypto, sealed: seq<bytes>, current: bytes)
    ensures Emitted(a, c, sealed + [current]) == Emitted(a, c, sealed) + Frame(a, c, |sealed|, false, current)
  {
  }

  lemma EmittedFinish(a: Primitives, c: ChunkCrypto, sealed: seq<bytes>, current: bytes)
    ensures Frames(a, c, 0, sealed + [current]) == Emitted(a, c, sealed) + Frame(a, c, |sealed|, true, current)
  {
    var chs, j := sealed + [current], |sealed|;
    EmittedSplit(a, c, chs, j);
    assert chs[..j] == sealed && chs[j..] == [current];
    assert Frames(a, c, j, [current]) == Frame(a, c, j, true, current);
  }

  /** Whatever the writer has written is a prefix of the whole body. */
  lemma EmittedPrefix(a: Primitives, c: ChunkCrypto, chs: seq<bytes>, sealed: seq<bytes>)
    requires sealed < chs
    ensures Emitted(a, c, sealed) <= Frames(a, c, 0, chs)
  {
    EmittedSplit(a, c, chs, |sealed|);
    assert chs[..|sealed|] == sealed;
  }

  // ---------- reading ----------

  datatype LenPrefix = End | Torn | Len(length: nat, rest: bytes)

  function NextLen(data: bytes): LenPrefix {
    if data == [] then End
    else if |data| < 4 then Torn
    else Len(FromBigEndian(data[..4]), data[4..])
  }

  /** The plaintext chunks written out, and how the reader returned. */
  datatype Outcome = Outcome(chunks: seq<bytes>, error: Error)

  /** A record body of `length` bytes at the head of `data`, or why there is none. */
  function TakeRecord(data: bytes, length: nat, maxRecord: nat): Result<bytes, Error> {
    if length > maxRecord then Err(ChunkTooLarge)
    else if |data| < length then Err(Truncated)
    else Ok(data[..length])
  }

  /** The plaintext of a record standing as chunk `index`. A non-final chunk must be full. */
  function OpenRecord(a: Primitives, c: ChunkCrypto, index: nat, isFinal: bool, record: bytes): Result<bytes, Error> {
    if |record| < TAG_LEN then Err(AuthFailed)
    else
      match OpenChunk(a, c, index, isFinal, record)
      case None => Err(AuthFailed)
      case Some(pt) => if !isFinal && |record| - TAG_LEN != c.chunkSize then Err(AuthFailed) else Ok(pt)
  }

  /** Reading on with record `index` in hand and `data` still to come. */
  function ReadFrom(a: Primitives, c: ChunkCrypto, index: nat, current: bytes, data: bytes): Outcome
    decreases |data|
  {
    var next := NextLen(data);
    if next.Torn? then Outcome([], Truncated)
    else
      match OpenRecord(a, c, index, next.End?, current)
      case Err(e) => Outcome([], e)
      case Ok(pt) =>
        if next.End? then Outcome([pt], Nil)
        else
          match TakeRecord(next.rest, next.length, c.chunkSize + TAG_LEN)
          case Err(e) => Outcome([pt], e)
          case Ok(record) =>
            var r := ReadFrom(a, c, index + 1, record, next.rest[next.length..]);
            Outcome([pt] + r.chunks, r.error)
  }

  function ReadBody(a: Primitives, c: ChunkCrypto, data: bytes): Outcome {
    match NextLen(data)
    case End => Outcome([], Truncated)
    case Torn => Outcome([], Truncated)
    case Len(length, rest) =>
      match TakeRecord(rest, length, c.chunkSize + TAG_LEN)
      case Err(e) => Outcome([], e)
      case Ok(record) => ReadFrom(a, c, 0, record, rest[length..])
  }

  // ---------- the accepted language ----------

  /** No length conversion loses bits: a prefix is read back as the length of its record. */
  lemma PrefixReads(record: bytes, rest: bytes)
    requires |record| < TWO_32
    ensures NextLen(BigEndian(|record| % TWO_32, 4) + record + rest) == Len(|record|, record + rest)
  {
    Uint32RoundTrip(|record|);
    PrefixSplit(BigEndian(|record| % TWO_32, 4), record, rest);
  }

  lemma PrefixSplit(prefix: bytes, record: bytes, rest: bytes)
    requires |prefix| == 4
    ensures NextLen(prefix + record + rest) == Len(FromBigEndian(prefix), record + rest)
  {
    var data := prefix + record + rest;
    assert data[..4] == prefix && data[4..] == record + rest;
  }

  /** Conversely, a length prefix followed by that many bytes is the framing of those bytes. */
  lemma PrefixFound(data: bytes) returns (record: bytes, rest: bytes)
    requires NextLen(data).Len? && NextLen(data).length <= |NextLen(data).rest|
    ensures NextLen(data) == Len(|record|, record + rest) && |record| < TWO_32
    ensures data == BigEndian(|record| % TWO_32, 4) + record + rest
  {
    var next := NextLen(data);
    record, rest := next.rest[..next.length], next.rest[next.length..];
    Uint32Found(data[..4]);
    assert next.rest == record + rest;
    assert data == data[..4] + next.rest;
  }

  /** The reader's step over a complete record. */
  lemma ReadFromStep(a: Primitives, c: ChunkCrypto, index: nat, current: bytes, data: bytes,
                     pt: bytes, record: bytes, rest: bytes)
    requires NextLen(data) == Len(|record|, record + rest) && |record| <= c.chunkSize + TAG_LEN
    requires OpenRecord(a, c, index, false, current) == Ok(pt)
    ensures var r := ReadFrom(a, c, index + 1, record, rest);
            ReadFrom(a, c, index, current, data) == Outcome([pt] + r.chunks, r.error)
  {
  }

  lemma ReadBodyStep(a: Primitives, c: ChunkCrypto, data: bytes, record: bytes, rest: bytes)
    requires NextLen(data) == Len(|record|, record + rest) && |record| <= c.chunkSize + TAG_LEN
    ensures ReadBody(a, c, data) == ReadFrom(a, c, 0, record, rest)
  {
  }

  /** The first record of a frame sequence, as the reader sees it. */
  lemma FrameReads(a: Primitives, c: ChunkCrypto, index: nat, chs: seq<bytes>, extra: bytes)
    requires chs != [] && |SealChunk(a, c, index, |chs| == 1, chs[0])| == |chs[0]| + TAG_LEN
    requires |chs[0]| <= c.chunkSize <= MAX_CHUNK_SIZE
    ensures var record := SealChunk(a, c, index, |chs| == 1, chs[0]);
            NextLen(Frames(a, c, index, chs) + extra)
            == Len(|record|, record + (Frames(a, c, index + 1, chs[1..]) + extra))
  {
    var record := SealChunk(a, c, index, |chs| == 1, chs[0]);
    var rest := Frames(a, c, index + 1, chs[1..]) + extra;
    PrefixReads(record, rest);
    assert Frames(a, c, index, chs) + extra == BigEndian(|record| % TWO_32, 4) + record + rest;
  }

  lemma FramesRead(a: Primitives, c: ChunkCrypto, index: nat, chs: seq<bytes>)
    requires chs != [] && |SealChunk(a, c, index, |chs| == 1, chs[0])| == |chs[0]| + TAG_LEN
    requires |chs[0]| <= c.chunkSize <= MAX_CHUNK_SIZE
    ensures var record := SealChunk(a, c, index, |chs| == 1, chs[0]);
            NextLen(Frames(a, c, index, chs)) == Len(|record|, record + Frames(a, c, index + 1, chs[1..]))
  {
    FrameReads(a, c, index, chs, []);
    var data, rest := Frames(a, c, index, chs), Frames(a, c, index + 1, chs[1..]);
    assert data + [] == data && rest + [] == rest;
  }

  lemma OpensOwnTail(a: Primitives, c: ChunkCrypto, base: nat, chs: seq<bytes>)
    requires OpensOwn(a, c, base, chs) && |chs| > 1
    ensures OpensOwn(a, c, base + 1, chs[1..])
  {
    var next, tail := base + 1, chs[1..];
    forall k | 0 <= k < |tail|
      ensures OpensOwnAt(a, c, next, tail, k)
    {
      assert OpensOwnAt(a, c, base, chs, k + 1);
      assert next + k == base + (k + 1);
    }
  }

  lemma OpensOwnHead(a: Primitives, c: ChunkCrypto, base: nat, chs: seq<bytes>)
    requires OpensOwn(a, c, base, chs) && chs != []
    ensures var record := SealChunk(a, c, base, |chs| == 1, chs[0]);
            |record| == |chs[0]| + TAG_LEN && OpenChunk(a, c, base, |chs| == 1, record) == Some(chs[0])
  {
    assert OpensOwnAt(a, c, base, chs, 0);
  }

  /** Completeness: what the writer emits is read back chunk for chunk. */
  lemma {:induction false} ReadFromComplete(a: Primitives, c: ChunkCrypto, index: nat, chs: seq<bytes>)
    requires c.Valid() && WellChunked(chs, c.chunkSize) && OpensOwn(a, c, index, chs)
    ensures ReadFrom(a, c, index, SealChunk(a, c, index, |chs| == 1, chs[0]), Frames(a, c, index + 1, chs[1..]))
            == Outcome(chs, Nil)
    decreases |chs|
  {
    OpensOwnHead(a, c, index, chs);
    if |chs| > 1 {
      var current, tail := SealChunk(a, c, index, false, chs[0]), chs[1..];
      OpensOwnTail(a, c, index, chs);
      OpensOwnHead(a, c, index + 1, tail);
      ReadFromComplete(a, c, index + 1, tail);
      FramesRead(a, c, index + 1, tail);
      var data, rest := Frames(a, c, index + 1, tail), Frames(a, c, index + 2, tail[1..]);
      var record := SealChunk(a, c, index + 1, |tail| == 1, tail[0]);
      ReadFromStep(a, c, index, current, data, chs[0], record, rest);
      assert chs == [chs[0]] + tail;
    }
  }

  /** The reader's start on a frame sequence. */
  lemma BodyStart(a: Primitives, c: ChunkCrypto, chs: seq<bytes>)
    requires chs != [] && |SealChunk(a, c, 0, |chs| == 1, chs[0])| == |chs[0]| + TAG_LEN
    requires |chs[0]| <= c.chunkSize <= MAX_CHUNK_SIZE
    ensures ReadBody(a, c, Frames(a, c, 0, chs))
            == ReadFrom(a, c, 0, SealChunk(a, c, 0, |chs| == 1, chs[0]), Frames(a, c, 1, chs[1..]))
  {
    hide SealChunk, OpenRecord, Frames, ReadBody, ReadFrom;
    FramesRead(a, c, 0, chs);
    ReadBodyStep(a, c, Frames(a, c, 0, chs), SealChunk(a, c, 0, |chs| == 1, chs[0]), Frames(a, c, 1, chs[1..]));
  }

  lemma BodyComplete(a: Primitives, c: ChunkCrypto, chs: seq<bytes>)
    requires c.Valid() && WellChunked(chs, c.chunkSize) && OpensOwn(a, c, 0, chs)
    ensures ReadBody(a, c, Frames(a, c, 0, chs)) == Outcome(chs, Nil)
  {
    hide SealChunk, OpenRecord, OpensOwn, Frames, ReadBody, ReadFrom;
    OpensOwnHead(a, c, 0, chs);
    BodyStart(a, c, chs);
    ReadFromComplete(a, c, 0, chs);
  }

  lemma FramesFound(a: Primitives, c: ChunkCrypto, index: nat, chs: seq<bytes>, record: bytes, rest: bytes)
    requires chs != [] && record == SealChunk(a, c, index, |chs| == 1, chs[0])
    requires rest == Frames(a, c, index + 1, chs[1..])
    ensures BigEndian(|record| % TWO_32, 4) + record + rest == Frames(a, c, index, chs)
  {
  }

  /** An accepting step, taken apart. */
  lemma ReadFromFound(a: Primitives, c: ChunkCrypto, index: nat, current: bytes, data: bytes)
    returns (record: bytes, rest: bytes)
    requires Sound(a, c) && ReadFrom(a, c, index, current, data).error == Nil && data != []
    ensures |rest| < |data| && |record| <= c.chunkSize + TAG_LEN
    ensures data == BigEndian(|record| % TWO_32, 4) + record + rest
    ensures var o, r := ReadFrom(a, c, index, current, data), ReadFrom(a, c, index + 1, record, rest);
            && r.error == Nil
            && o.chunks != [] && |o.chunks[0]| == c.chunkSize
            && o.chunks[1..] == r.chunks
            && current == SealChunk(a, c, index, false, o.chunks[0])
  {
    assert SoundAt(a, c, index, false, current);
    record, rest := PrefixFound(data);
    ReadFromStep(a, c, index, current, data, OpenChunk(a, c, index, false, current).value, record, rest);
  }

  /** Soundness: accepted bytes are exactly the records of the chunks written out. */
  lemma {:induction false} ReadFromSound(a: Primitives, c: ChunkCrypto, index: nat, current: bytes, data: bytes)
    requires Sound(a, c) && |current| <= c.chunkSize + TAG_LEN
    requires ReadFrom(a, c, index, current, data).error == Nil
    ensures var chs := ReadFrom(a, c, index, current, data).chunks;
            && WellChunked(chs, c.chunkSize)
            && current == SealChunk(a, c, index, |chs| == 1, chs[0])
            && data == Frames(a, c, index + 1, chs[1..])
    decreases |data|
  {
    if data == [] {
      assert SoundAt(a, c, index, true, current);
    } else {
      var record, rest := ReadFromFound(a, c, index, current, data);
      ReadFromSound(a, c, index + 1, record, rest);
      FramesFound(a, c, index + 1, ReadFrom(a, c, index + 1, record, rest).chunks, record, rest);
    }
  }

  lemma ReadBodyFound(a: Primitives, c: ChunkCrypto, data: bytes) returns (record: bytes, rest: bytes)
    requires ReadBody(a, c, data).error == Nil
    ensures |record| <= c.chunkSize + TAG_LEN
    ensures data == BigEndian(|record| % TWO_32, 4) + record + rest
    ensures ReadBody(a, c, data) == ReadFrom(a, c, 0, record, rest)
  {
    record, rest := PrefixFound(data);
    ReadBodyStep(a, c, data, record, rest);
  }

  lemma FirstSound(a: Primitives, c: ChunkCrypto, data: bytes, record: bytes, rest: bytes)
    requires Sound(a, c) && |record| <= c.chunkSize + TAG_LEN
    requires data == BigEndian(|record| % TWO_32, 4) + record + rest
    requires ReadFrom(a, c, 0, record, rest).error == Nil
    ensures var chs := ReadFrom(a, c, 0, record, rest).chunks;
            WellChunked(chs, c.chunkSize) && data == Frames(a, c, 0, chs)
  {
    hide ReadFrom, SealChunk, Sound;
    ReadFromSound(a, c, 0, record, rest);
    FramesFound(a, c, 0, ReadFrom(a, c, 0, record, rest).chunks, record, rest);
  }

  lemma BodySound(a: Primitives, c: ChunkCrypto, data: bytes)
    requires Sound(a, c) && ReadBody(a, c, data).error == Nil
    ensures var chs := ReadBody(a, c, data).chunks;
            WellChunked(chs, c.chunkSize) && data == Frames(a, c, 0, chs)
  {
    var record, rest := ReadBodyFound(a, c, data);
    FirstSound(a, c, data, record, rest);
  }

  /** The accepted language under a tidy AEAD: exactly the framings of well-formed chunk lists, each
      chunk sealed at its own index and flag, and the output is that list. */
  lemma AcceptedLanguage(a: Primitives, c: ChunkCrypto, data: bytes, chs: seq<bytes>)
    requires Tidy(a) && c.Valid()
    ensures ReadBody(a, c, data) == Outcome(chs, Nil)
            <==> WellChunked(chs, c.chunkSize) && data == Frames(a, c, 0, chs)
  {
    TidySound(a, c);
    TidyOpensOwn(a, c, 0, chs);
    if ReadBody(a, c, data) == Outcome(chs, Nil) {
      BodySound(a, c, data);
    }
    if WellChunked(chs, c.chunkSize) && data == Frames(a, c, 0, chs) {
      BodyComplete(a, c, chs);
    }
  }

  /** Conservation: 20 bytes of framing for each chunk. */
  lemma {:induction false} FramesLength(a: Primitives, c: ChunkCrypto, base: nat, chs: seq<bytes>)
    requires OpensOwn(a, c, base, chs)
    ensures |Frames(a, c, base, chs)| == |Flatten(chs)| + 20 * |chs|
    decreases |chs|
  {
    if chs != [] {
      SealLength(a, c, base, chs, 0);
      if |chs| > 1 {
        OpensOwnTail(a, c, base, chs);
      } else {
        assert chs[1..] == [];
      }
      FramesLength(a, c, base + 1, chs[1..]);
    }
  }

  lemma LengthTells(a: Primitives, c: ChunkCrypto, chs: seq<bytes>)
    requires Tidy(a) && c.Valid() && WellChunked(chs, c.chunkSize)
    ensures var n := |Frames(a, c, 0, chs)|; TrailingEmpty(chs) <==> n > 20 && n % (c.chunkSize + 20) == 20
  {
    hide Frames, Tidy, OpensOwn;
    TidyOpensOwn(a, c, 0, chs);
    FramesLength(a, c, 0, chs);
    TrailingEmptyByLength(chs, c.chunkSize);
  }

  /** Writing the output of an accepted body again gives the same bytes, unless their number betrays an
      empty final record after at least one full chunk, which the writer never emits. */
  lemma ReencodeAccepted(a: Primitives, c: ChunkCrypto, data: bytes)
    requires Tidy(a) && c.Valid() && ReadBody(a, c, data).error == Nil
    ensures var again := Frames(a, c, 0, Chunks(Flatten(ReadBody(a, c, data).chunks), c.chunkSize));
            again == data <==> !(|data| > 20 && |data| % (c.chunkSize + 20) == 20)
  {
    hide ReadBody, Frames, Tidy, Flatten, Chunks, WellChunked;
    var chs := ReadBody(a, c, data).chunks;
    var again := Chunks(Flatten(chs), c.chunkSize);
    AcceptedLanguage(a, c, data, chs);
    ChunksUnique(chs, c.chunkSize);
    ChunksWellChunked(Flatten(chs), c.chunkSize);
    AcceptedLanguage(a, c, Frames(a, c, 0, again), again);
    LengthTells(a, c, chs);
  }

  /** For every context there is a body that is accepted and is not what its output is written as. */
  lemma ReencodeFails(a: Primitives, c: ChunkCrypto) returns (data: bytes)
    requires Tidy(a) && c.Valid()
    ensures ReadBody(a, c, data) == Outcome([Zeros(c.chunkSize), []], Nil)
    ensures Frames(a, c, 0, Chunks(Flatten(ReadBody(a, c, data).chunks), c.chunkSize)) != data
  {
    var chs := [Zeros(c.chunkSize), []];
    assert WellChunked(chs, c.chunkSize) by {
      assert |chs[0]| == c.chunkSize && |chs[1]| == 0;
    }
    data := Frames(a, c, 0, chs);
    assert TrailingEmpty(chs);
    hide ReadBody, Frames, Tidy, Flatten, Chunks, WellChunked, TrailingEmpty;
    AcceptedLanguage(a, c, data, chs);
    LengthTells(a, c, chs);
    ReencodeAccepted(a, c, data);
  }
}
