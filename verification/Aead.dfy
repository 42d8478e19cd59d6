/** The cryptographic primitives, kept abstract, and the two strengths at which they are assumed. */
module Aead {
  import opened Wrappers
  import opened Bytes
  import opened Format

  /** AEAD sealing and opening (section 2 of RFC 5116) and HKDF-SHA256 to 32 bytes (RFC 5869). */
  datatype Primitives = Primitives(
    seal: (ChunkAead, bytes, bytes, bytes, bytes) -> bytes,          // alg, key, nonce, plaintext, aad
    open: (ChunkAead, bytes, bytes, bytes, bytes) -> Option<bytes>,  // alg, key, nonce, record, aad
    hkdf: (bytes, bytes, bytes) -> bytes)                            // key material, salt, info

  /** What one stream's chunks are sealed under. */
  datatype ChunkCrypto = ChunkCrypto(
    suiteID: byte, aead: ChunkAead, chunkSize: nat, streamID: bytes, messageKey: bytes)
  {
    ghost predicate Valid() {
      1 <= chunkSize <= MAX_CHUNK_SIZE && |streamID| == STREAM_ID_LEN
    }
  }

  /** The chunk index is a uint64 and the lengths are uint32: conversions wrap. */
  function Aad(c: ChunkCrypto, index: nat, isFinal: bool, plaintextLen: nat): bytes {
    ChunkAad(c.suiteID, c.streamID, index % TWO_64, isFinal, plaintextLen % TWO_32, c.chunkSize % TWO_32)
  }

  function SealChunk(a: Primitives, c: ChunkCrypto, index: nat, isFinal: bool, plaintext: bytes): bytes {
    a.seal(c.aead, c.messageKey, ChunkNonce(index % TWO_64), plaintext, Aad(c, index, isFinal, |plaintext|))
  }

  function OpenChunk(a: Primitives, c: ChunkCrypto, index: nat, isFinal: bool, record: bytes): Option<bytes>
    requires |record| >= TAG_LEN
  {
    a.open(c.aead, c.messageKey, ChunkNonce(index % TWO_64), record, Aad(c, index, isFinal, |record| - TAG_LEN))
  }

  /** Opening is exactly the inverse of sealing, and a record is 16 bytes longer than its plaintext. */
  ghost predicate Tidy(a: Primitives) {
    && (forall alg, k, n, p, ad ::
          && |a.seal(alg, k, n, p, ad)| == |p| + TAG_LEN
          && a.open(alg, k, n, a.seal(alg, k, n, p, ad), ad) == Some(p))
    && (forall alg, k, n, r, ad ::
          a.open(alg, k, n, r, ad).Some? ==> a.seal(alg, k, n, a.open(alg, k, n, r, ad).value, ad) == r)
  }

  /** One call of the chunk writer, whatever its reader delivered: the context it sealed under, the chunks it
      sealed, and whether it came to its final one. */
  datatype Run = Run(c: ChunkCrypto, chs: seq<bytes>, done: bool) {
    /** Chunk `j` was marked final. */
    predicate Last(j: nat) {
      done && j == |chs| - 1
    }

    /** The counter did not come around to a nonce used before. */
    predicate Counted() {
      |chs| < TWO_64 || (done && |chs| == TWO_64)
    }
  }

  /** The tuple is the `j`-th seal of the run. */
  ghost predicate Logged(a: Primitives, run: Run, j: nat,
                         alg: ChunkAead, key: bytes, nonce: bytes, record: bytes, aad: bytes, plaintext: bytes)
    requires j < |run.chs|
  {
    && alg == run.c.aead && key == run.c.messageKey
    && nonce == ChunkNonce(j % TWO_64)
    && aad == Aad(run.c, j, run.Last(j), |run.chs[j]|)
    && plaintext == run.chs[j]
    && record == SealChunk(a, run.c, j, run.Last(j), run.chs[j])
  }

  /** Every seal of the run opens again, as what it seals. */
  ghost predicate OpensSealed(a: Primitives, run: Run) {
    forall k :: 0 <= k < |run.chs| ==> OpensSealedAt(a, run, k)
  }

  ghost predicate OpensSealedAt(a: Primitives, run: Run, k: nat)
    requires k < |run.chs|
  {
    var record := SealChunk(a, run.c, k, run.Last(k), run.chs[k]);
    |record| == |run.chs[k]| + TAG_LEN && OpenChunk(a, run.c, k, run.Last(k), record) == Some(run.chs[k])
  }

  /** The tuple is one of the seals of one of the runs. */
  ghost predicate LoggedIn(a: Primitives, log: seq<Run>, i: nat, j: nat,
                           alg: ChunkAead, key: bytes, nonce: bytes, record: bytes, aad: bytes, plaintext: bytes)
  {
    && i < |log| && j < |log[i].chs|
    && Logged(a, log[i], j, alg, key, nonce, record, aad, plaintext)
  }

  ghost predicate LoggedSomewhere(a: Primitives, log: seq<Run>,
                                  alg: ChunkAead, key: bytes, nonce: bytes, record: bytes, aad: bytes, plaintext: bytes)
  {
    exists i: nat, j: nat :: LoggedIn(a, log, i, j, alg, key, nonce, record, aad, plaintext)
  }

  /** Under the keys in `keys`, what opens with additional data of a chunk's length is a logged seal. Other
      keys, and other additional data such as that of a wrapped key, are not spoken of. */
  ghost predicate OnlyLogged(a: Primitives, keys: iset<bytes>, log: seq<Run>) {
    forall alg, k, n, r, ad :: k in keys && |ad| == CHUNK_AAD_LEN && a.open(alg, k, n, r, ad).Some? ==>
      LoggedSomewhere(a, log, alg, k, n, r, ad, a.open(alg, k, n, r, ad).value)
  }

  /** A finite log of runs, no two in the same context, whose own seals open. */
  ghost predicate WellLogged(a: Primitives, log: seq<Run>) {
    && (forall i :: 0 <= i < |log| ==> log[i].c.Valid() && log[i].Counted() && OpensSealed(a, log[i]))
    && (forall i, j :: 0 <= i < j < |log| ==> log[i].c != log[j].c)
  }

  ghost predicate Ideal(a: Primitives, keys: iset<bytes>, log: seq<Run>) {
    WellLogged(a, log) && OnlyLogged(a, keys, log)
  }

  /** The chunks `chs`, sealed at the indices from `base` on with only the last marked final, open again. */
  ghost predicate OpensOwn(a: Primitives, c: ChunkCrypto, base: nat, chs: seq<bytes>) {
    forall k :: 0 <= k < |chs| ==> OpensOwnAt(a, c, base, chs, k)
  }

  ghost predicate OpensOwnAt(a: Primitives, c: ChunkCrypto, base: nat, chs: seq<bytes>, k: nat)
    requires k < |chs|
  {
    var last := k == |chs| - 1;
    var record := SealChunk(a, c, base + k, last, chs[k]);
    |record| == |chs[k]| + TAG_LEN && OpenChunk(a, c, base + k, last, record) == Some(chs[k])
  }

  /** Whatever opens in the place of chunk `index` is that chunk's own seal. */
  ghost predicate Sound(a: Primitives, c: ChunkCrypto) {
    forall index: nat, isFinal: bool, record: bytes {:trigger SoundAt(a, c, index, isFinal, record)} ::
      |record| >= TAG_LEN && OpenChunk(a, c, index, isFinal, record).Some? ==>
        SoundAt(a, c, index, isFinal, record)
  }

  ghost predicate SoundAt(a: Primitives, c: ChunkCrypto, index: nat, isFinal: bool, record: bytes)
    requires |record| >= TAG_LEN && OpenChunk(a, c, index, isFinal, record).Some?
  {
    var plaintext := OpenChunk(a, c, index, isFinal, record).value;
    |plaintext| + TAG_LEN == |record| && SealChunk(a, c, index, isFinal, plaintext) == record
  }

  lemma TidyOpensOwn(a: Primitives, c: ChunkCrypto, base: nat, chs: seq<bytes>)
    requires Tidy(a)
    ensures OpensOwn(a, c, base, chs)
  {
  }

  lemma TidySound(a: Primitives, c: ChunkCrypto)
    requires Tidy(a)
    ensures Sound(a, c)
  {
    forall index: nat, isFinal: bool, record: bytes
      | |record| >= TAG_LEN && OpenChunk(a, c, index, isFinal, record).Some?
      ensures SoundAt(a, c, index, isFinal, record)
    {
      var p := OpenChunk(a, c, index, isFinal, record).value;
      var n, ad := ChunkNonce(index % TWO_64), Aad(c, index, isFinal, |record| - TAG_LEN);
      assert a.seal(c.aead, c.messageKey, n, p, ad) == record;
      assert |a.seal(c.aead, c.messageKey, n, p, ad)| == |p| + TAG_LEN;
    }
  }

  /** Equal additional data means equal stream, place, flag and chunk size. */
  lemma AadPins(c: ChunkCrypto, i: nat, f: bool, n: nat, d: ChunkCrypto, j: nat, g: bool, m: nat)
    requires c.Valid() && d.Valid() && Aad(c, i, f, n) == Aad(d, j, g, m)
    ensures c.suiteID == d.suiteID && c.streamID == d.streamID && c.chunkSize == d.chunkSize
    ensures i % TWO_64 == j % TWO_64 && f == g
  {
    ChunkAadInjective(c.suiteID, c.streamID, i % TWO_64, f, n % TWO_32, c.chunkSize % TWO_32,
                      d.suiteID, d.streamID, j % TWO_64, g, m % TWO_32, d.chunkSize % TWO_32);
  }

  /** Under an ideal log every chunk that opens under one of the keys belongs to a run in the very context
      it was opened in, key, suite, stream id and chunk size, and stands in its own place there. The nonces
      of a run repeat only after 2^64 chunks. */
  lemma IdealPins(a: Primitives, keys: iset<bytes>, log: seq<Run>,
                  d: ChunkCrypto, index: nat, isFinal: bool, record: bytes) returns (i: nat)
    requires Ideal(a, keys, log) && d.Valid() && d.messageKey in keys
    requires |record| >= TAG_LEN && OpenChunk(a, d, index, isFinal, record).Some?
    ensures i < |log| && log[i].c == d
    ensures var chs, j := log[i].chs, index % TWO_64;
            && j < |chs|
            && isFinal == log[i].Last(j)
            && OpenChunk(a, d, index, isFinal, record) == Some(chs[j])
            && record == SealChunk(a, d, j, isFinal, chs[j])
  {
    hide ChunkAad, ChunkNonce;
    var n, ad := ChunkNonce(index % TWO_64), Aad(d, index, isFinal, |record| - TAG_LEN);
    AadLength(d, index, isFinal, |record| - TAG_LEN);
    var plaintext := a.open(d.aead, d.messageKey, n, record, ad).value;
    assert LoggedSomewhere(a, log, d.aead, d.messageKey, n, record, ad, plaintext);
    var i', j: nat :| LoggedIn(a, log, i', j, d.aead, d.messageKey, n, record, ad, plaintext);
    i := i';
    AadPins(d, index, isFinal, |record| - TAG_LEN, log[i].c, j, log[i].Last(j), |log[i].chs[j]|);
    ModSmall(j, TWO_64);
  }

  lemma AadLength(c: ChunkCrypto, index: nat, isFinal: bool, n: nat)
    requires c.Valid()
    ensures |Aad(c, index, isFinal, n)| == CHUNK_AAD_LEN
  {
    ChunkAadInjective(c.suiteID, c.streamID, index % TWO_64, isFinal, n % TWO_32, c.chunkSize % TWO_32,
                      c.suiteID, c.streamID, index % TWO_64, isFinal, n % TWO_32, c.chunkSize % TWO_32);
  }

  lemma IdealSoundAt(a: Primitives, keys: iset<bytes>, log: seq<Run>,
                     c: ChunkCrypto, index: nat, isFinal: bool, record: bytes)
    requires Ideal(a, keys, log) && c.Valid() && c.messageKey in keys
    requires |record| >= TAG_LEN && OpenChunk(a, c, index, isFinal, record).Some?
    ensures SoundAt(a, c, index, isFinal, record)
  {
    var i := IdealPins(a, keys, log, c, index, isFinal, record);
    var chs, j := log[i].chs, index % TWO_64;
    assert OpensSealedAt(a, log[i], j);
    SealWraps(a, c, index, isFinal, chs[j]);
  }

  lemma SealLength(a: Primitives, c: ChunkCrypto, base: nat, chs: seq<bytes>, k: nat)
    requires OpensOwn(a, c, base, chs) && k < |chs|
    ensures |SealChunk(a, c, base + k, k == |chs| - 1, chs[k])| == |chs[k]| + TAG_LEN
  {
    assert OpensOwnAt(a, c, base, chs, k);
  }

  /** The writer's counter is a uint64: seals repeat with period 2^64. */
  lemma SealWraps(a: Primitives, c: ChunkCrypto, index: nat, isFinal: bool, plaintext: bytes)
    ensures SealChunk(a, c, index, isFinal, plaintext) == SealChunk(a, c, index % TWO_64, isFinal, plaintext)
  {
  }

  lemma IdealSound(a: Primitives, keys: iset<bytes>, log: seq<Run>, c: ChunkCrypto)
    requires Ideal(a, keys, log) && c.Valid() && c.messageKey in keys
    ensures Sound(a, c)
  {
    forall index: nat, isFinal: bool, record: bytes
      | |record| >= TAG_LEN && OpenChunk(a, c, index, isFinal, record).Some?
      ensures SoundAt(a, c, index, isFinal, record)
    {
      IdealSoundAt(a, keys, log, c, index, isFinal, record);
    }
  }
}
