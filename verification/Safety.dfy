/** What a reader can ever have written out, when only logged seals open under its key. */
module Safety {
  import opened Wrappers
  import opened Bytes
  import opened Format
  import opened Aead
  import opened Chunking
  import opened Records

  /** Every chunk of `pts` was opened from some record at its own index, all as non-final except the
      last one of a finished reading. */
  ghost predicate Authentic(a: Primitives, c: ChunkCrypto, base: nat, pts: seq<bytes>, done: bool) {
    && (done ==> pts != [])
    && forall i :: 0 <= i < |pts| ==> AuthenticAt(a, c, base, pts, done, i)
  }

  ghost predicate AuthenticAt(a: Primitives, c: ChunkCrypto, base: nat, pts: seq<bytes>, done: bool, i: nat)
    requires i < |pts|
  {
    OpenedSome(a, c, base + i, done && i == |pts| - 1, pts[i])
  }

  ghost predicate OpenedSome(a: Primitives, c: ChunkCrypto, index: nat, isFinal: bool, plaintext: bytes) {
    exists record :: OpenRecord(a, c, index, isFinal, record) == Ok(plaintext)
  }

  lemma AuthenticSnoc(a: Primitives, c: ChunkCrypto, base: nat, pts: seq<bytes>,
                      isFinal: bool, record: bytes, plaintext: bytes)
    requires Authentic(a, c, base, pts, false)
    requires OpenRecord(a, c, base + |pts|, isFinal, record) == Ok(plaintext)
    ensures Authentic(a, c, base, pts + [plaintext], isFinal)
  {
    hide OpenRecord;
    var all := pts + [plaintext];
    forall i | 0 <= i < |all|
      ensures AuthenticAt(a, c, base, all, isFinal, i)
    {
      if i < |pts| {
        assert AuthenticAt(a, c, base, pts, false, i);
        var r :| OpenRecord(a, c, base + i, false, r) == Ok(pts[i]);
        assert OpenRecord(a, c, base + i, isFinal && i == |all| - 1, r) == Ok(all[i]);
      } else {
        assert OpenRecord(a, c, base + i, isFinal && i == |all| - 1, record) == Ok(all[i]);
      }
    }
  }

  lemma AuthenticCons(a: Primitives, c: ChunkCrypto, base: nat, pts: seq<bytes>, done: bool,
                      record: bytes, plaintext: bytes)
    requires Authentic(a, c, base + 1, pts, done)
    requires OpenRecord(a, c, base, done && pts == [], record) == Ok(plaintext)
    ensures Authentic(a, c, base, [plaintext] + pts, done)
  {
    hide OpenRecord;
    var all := [plaintext] + pts;
    forall i | 0 <= i < |all|
      ensures AuthenticAt(a, c, base, all, done, i)
    {
      if i == 0 {
        assert OpenRecord(a, c, base + i, done && i == |all| - 1, record) == Ok(all[i]);
      } else {
        assert AuthenticAt(a, c, base + 1, pts, done, i - 1);
        var r :| OpenRecord(a, c, base + 1 + (i - 1), done && i - 1 == |pts| - 1, r) == Ok(pts[i - 1]);
        assert base + 1 + (i - 1) == base + i;
        assert OpenRecord(a, c, base + i, done && i == |all| - 1, r) == Ok(all[i]);
      }
    }
  }

  /** One step of a reading under an ideal log: a run in the reader's own context, place, flag and chunk. */
  lemma AuthenticPins(a: Primitives, keys: iset<bytes>, log: seq<Run>, d: ChunkCrypto,
                      pts: seq<bytes>, done: bool, i: nat) returns (run: Run)
    requires Ideal(a, keys, log) && d.Valid() && d.messageKey in keys
    requires Authentic(a, d, 0, pts, done) && i < |pts|
    ensures run in log && run.c == d
    ensures i % TWO_64 < |run.chs| && pts[i] == run.chs[i % TWO_64]
    ensures (done && i == |pts| - 1) == run.Last(i % TWO_64)
  {
    assert AuthenticAt(a, d, 0, pts, done, i);
    var isFinal := done && i == |pts| - 1;
    var r :| OpenRecord(a, d, 0 + i, isFinal, r) == Ok(pts[i]);
    hide Ideal, Authentic, AuthenticAt;
    var n := IdealPins(a, keys, log, d, i, isFinal, r);
    run := log[n];
  }

  /** A context belongs to at most one run. */
  lemma RunUnique(a: Primitives, keys: iset<bytes>, log: seq<Run>, r: Run, s: Run)
    requires Ideal(a, keys, log) && r in log && s in log && r.c == s.c
    ensures r == s
  {
    var i :| 0 <= i < |log| && log[i] == r;
    var j :| 0 <= j < |log| && log[j] == s;
    assert i == j;
  }

  /** Authenticated-prefix safety: whatever bytes were read under one of the keys, the chunks written out
      are the first chunks of one single run, that of the reader's own context, and the reading finished
      exactly if they are all of them and the run had finished too. */
  lemma {:induction false} AuthenticPrefix(a: Primitives, keys: iset<bytes>, log: seq<Run>, d: ChunkCrypto,
                        pts: seq<bytes>, done: bool) returns (run: Run)
    requires Ideal(a, keys, log) && d.Valid() && d.messageKey in keys
    requires Authentic(a, d, 0, pts, done) && pts != []
    ensures run in log && run.c == d
    ensures pts <= run.chs
    ensures done <==> run.done && pts == run.chs
    decreases |pts|
  {
    hide Ideal;
    var last := |pts| - 1;
    run := AuthenticPins(a, keys, log, d, pts, done, last);
    if last > 0 {
      AuthenticFront(a, d, pts, done);
      var same := AuthenticPrefix(a, keys, log, d, pts[..last], false);
      RunUnique(a, keys, log, run, same);
    }
    LoggedSize(a, keys, log, run);
    assert last < |run.chs|;
    assert pts == pts[..last] + [pts[last]];
  }

  lemma LoggedSize(a: Primitives, keys: iset<bytes>, log: seq<Run>, run: Run)
    requires Ideal(a, keys, log) && run in log
    ensures run.Counted()
  {
  }

  lemma AuthenticFront(a: Primitives, d: ChunkCrypto, pts: seq<bytes>, done: bool)
    requires Authentic(a, d, 0, pts, done) && pts != []
    ensures Authentic(a, d, 0, pts[..|pts| - 1], false)
  {
    hide OpenRecord;
    var front := pts[..|pts| - 1];
    forall i | 0 <= i < |front|
      ensures AuthenticAt(a, d, 0, front, false, i)
    {
      assert AuthenticAt(a, d, 0, pts, done, i);
      var r :| OpenRecord(a, d, 0 + i, done && i == |pts| - 1, r) == Ok(pts[i]);
      assert OpenRecord(a, d, 0 + i, false && i == |front| - 1, r) == Ok(front[i]);
    }
  }

  /** The reader only ever writes out authentic chunks. */
  lemma {:induction false} ReadFromAuthentic(a: Primitives, c: ChunkCrypto, index: nat, current: bytes, data: bytes)
    ensures var o := ReadFrom(a, c, index, current, data);
            Authentic(a, c, index, o.chunks, o.error == Nil)
    decreases |data|
  {
    var next := NextLen(data);
    var o := ReadFrom(a, c, index, current, data);
    if o.chunks != [] {
      var pt := o.chunks[0];
      if next.End? || TakeRecord(next.rest, next.length, c.chunkSize + TAG_LEN).Err? {
        assert OpenRecord(a, c, index, next.End?, current) == Ok(pt);
        assert Authentic(a, c, index + 1, [], false);
        AuthenticSnoc(a, c, index, [], next.End?, current, pt);
      } else {
        var record, rest := next.rest[..next.length], next.rest[next.length..];
        ReadFromAuthentic(a, c, index + 1, record, rest);
        var r := ReadFrom(a, c, index + 1, record, rest);
        AuthenticCons(a, c, index, r.chunks, r.error == Nil, current, pt);
      }
    }
  }

  lemma BodyAuthentic(a: Primitives, c: ChunkCrypto, data: bytes)
    ensures Authentic(a, c, 0, ReadBody(a, c, data).chunks, ReadBody(a, c, data).error == Nil)
  {
    var next := NextLen(data);
    if next.Len? && TakeRecord(next.rest, next.length, c.chunkSize + TAG_LEN).Ok? {
      ReadFromAuthentic(a, c, 0, next.rest[..next.length], next.rest[next.length..]);
    }
  }

  /** The body of some run in context `d` that finished, with all chunks but the last full. */
  ghost predicate LoggedBody(a: Primitives, log: seq<Run>, d: ChunkCrypto, data: bytes) {
    exists run :: run in log && run.c == d && run.done && WellChunked(run.chs, d.chunkSize) && data == Frames(a, d, 0, run.chs)
  }

  lemma FinishedOpensOwn(a: Primitives, run: Run)
    requires OpensSealed(a, run) && run.done
    ensures OpensOwn(a, run.c, 0, run.chs)
  {
    hide SealChunk, OpenChunk;
    forall k | 0 <= k < |run.chs|
      ensures OpensOwnAt(a, run.c, 0, run.chs, k)
    {
      assert OpensSealedAt(a, run, k) && 0 + k == k;
    }
  }

  lemma LoggedOpensOwn(a: Primitives, keys: iset<bytes>, log: seq<Run>, run: Run)
    requires Ideal(a, keys, log) && run in log && run.done
    ensures run.c.Valid() && |run.chs| <= TWO_64 && OpensOwn(a, run.c, 0, run.chs)
  {
    FinishedOpensOwn(a, run);
  }

  /** Of all bytes, only the bodies of finished runs with full chunks are accepted, each in its own context. */
  lemma BodyUnique(a: Primitives, keys: iset<bytes>, log: seq<Run>, d: ChunkCrypto, data: bytes)
    requires Ideal(a, keys, log) && d.Valid() && d.messageKey in keys
    ensures ReadBody(a, d, data).error == Nil <==> LoggedBody(a, log, d, data)
  {
    hide ReadBody, Sound, WellChunked;
    if ReadBody(a, d, data).error == Nil {
      BodyAuthentic(a, d, data);
      IdealSound(a, keys, log, d);
      BodySound(a, d, data);
      var run := AuthenticPrefix(a, keys, log, d, ReadBody(a, d, data).chunks, true);
    }
    if LoggedBody(a, log, d, data) {
      var run :| run in log && run.c == d && run.done && WellChunked(run.chs, d.chunkSize) && data == Frames(a, d, 0, run.chs);
      LoggedOpensOwn(a, keys, log, run);
      BodyComplete(a, d, run.chs);
    }
  }

  // ---------- cutting and extending a container ----------

  /** Where record `j` starts in the body, counted from the plaintext alone. */
  function RecordStart(chs: seq<bytes>, j: nat): nat
    requires j <= |chs|
  {
    |Flatten(chs[..j])| + 20 * j
  }

  lemma RecordStartStep(chs: seq<bytes>, j: nat)
    requires j < |chs|
    ensures RecordStart(chs, j + 1) == RecordStart(chs, j) + 20 + |chs[j]|
  {
    assert chs[..j + 1] == chs[..j] + [chs[j]];
    FlattenSnoc(chs[..j], chs[j]);
  }

  lemma {:induction false} RecordStartMonotone(chs: seq<bytes>, i: nat, j: nat)
    requires i < j <= |chs|
    ensures RecordStart(chs, i) + 20 <= RecordStart(chs, j)
  {
    RecordStartStep(chs, j - 1);
    if i < j - 1 {
      RecordStartMonotone(chs, i, j - 1);
    }
  }

  /** A cut exactly between two records. */
  ghost predicate AtBoundary(chs: seq<bytes>, k: nat) {
    exists j :: 0 < j < |chs| && k == RecordStart(chs, j)
  }

  /** Each record of the run opens with its own final flag and not with the other. */
  ghost predicate Exclusive(a: Primitives, c: ChunkCrypto, chs: seq<bytes>) {
    forall i :: 0 <= i < |chs| ==> ExclusiveAt(a, c, chs, i)
  }

  ghost predicate ExclusiveAt(a: Primitives, c: ChunkCrypto, chs: seq<bytes>, i: nat)
    requires i < |chs|
  {
    var last := i == |chs| - 1;
    var r := SealChunk(a, c, i, last, chs[i]);
    && |r| == |chs[i]| + TAG_LEN
    && OpenChunk(a, c, i, last, r) == Some(chs[i])
    && OpenChunk(a, c, i, !last, r) == None
  }

  lemma IdealExclusive(a: Primitives, keys: iset<bytes>, log: seq<Run>, run: Run)
    requires Ideal(a, keys, log) && run in log && run.done && run.c.messageKey in keys
    ensures Exclusive(a, run.c, run.chs)
  {
    var c, chs := run.c, run.chs;
    LoggedOpensOwn(a, keys, log, run);
    hide Ideal, SealChunk, OpenChunk;
    forall i | 0 <= i < |chs|
      ensures ExclusiveAt(a, c, chs, i)
    {
      var last := i == |chs| - 1;
      SealLength(a, c, 0, chs, i);
      assert OpensOwnAt(a, c, 0, chs, i);
      var r := SealChunk(a, c, i, last, chs[i]);
      if OpenChunk(a, c, i, !last, r).Some? {
        var n := IdealPins(a, keys, log, c, i, !last, r);
        RunUnique(a, keys, log, run, log[n]);
        ModSmall(i, TWO_64);
      }
    }
  }

  lemma CutPrefix(data: bytes, k: nat)
    requires 4 <= k <= |data|
    ensures NextLen(data[..k]) == Len(NextLen(data).length, NextLen(data).rest[..k - 4])
  {
    assert data[..k][..4] == data[..4];
    assert data[..k][4..] == data[4..][..k - 4];
  }

  /** The first `k` bytes of a frame sequence, as the reader takes them apart. */
  lemma CutFrame(a: Primitives, c: ChunkCrypto, index: nat, chs: seq<bytes>, k: nat)
    requires chs != [] && |SealChunk(a, c, index, |chs| == 1, chs[0])| == |chs[0]| + TAG_LEN
    requires |chs[0]| <= c.chunkSize <= MAX_CHUNK_SIZE
    requires 4 <= k <= |Frames(a, c, index, chs)|
    ensures var record := SealChunk(a, c, index, |chs| == 1, chs[0]);
            var rest := Frames(a, c, index + 1, chs[1..]);
            var next := NextLen(Frames(a, c, index, chs)[..k]);
            && next.Len? && next.length == |record|
            && |Frames(a, c, index, chs)| == 4 + |record| + |rest|
            && TakeRecord(next.rest, next.length, c.chunkSize + TAG_LEN)
               == (if k - 4 < |record| then Err(Truncated) else Ok(record))
            && (k - 4 >= |record| ==> next.rest[next.length..] == rest[..k - 4 - |record|])
  {
    var record := SealChunk(a, c, index, |chs| == 1, chs[0]);
    var rest := Frames(a, c, index + 1, chs[1..]);
    FramesRead(a, c, index, chs);
    CutPrefix(Frames(a, c, index, chs), k);
    if k - 4 >= |record| {
      assert (record + rest)[..k - 4][..|record|] == record;
      assert (record + rest)[..k - 4][|record|..] == rest[..k - 4 - |record|];
    }
  }

  /** Reading on at record `i` of the run when the next record is complete, and when it is not. */
  lemma CutStep(a: Primitives, c: ChunkCrypto, chs: seq<bytes>, i: nat, k: nat)
    requires Exclusive(a, c, chs) && c.Valid() && WellChunked(chs, c.chunkSize)
    requires i < |chs| - 1 && k < |Frames(a, c, i + 1, chs[i + 1..])|
    ensures var o := ReadFrom(a, c, i, SealChunk(a, c, i, false, chs[i]), Frames(a, c, i + 1, chs[i + 1..])[..k]);
            var length := |chs[i + 1]| + TAG_LEN;
            var record := SealChunk(a, c, i + 1, i + 1 == |chs| - 1, chs[i + 1]);
            if k == 0 then o == Outcome([], AuthFailed)
            else if k < 4 then o == Outcome([], Truncated)
            else if k - 4 < length then o == Outcome([chs[i]], Truncated)
            else
              && k - 4 - length < |Frames(a, c, i + 2, chs[i + 2..])|
              && var r := ReadFrom(a, c, i + 1, record, Frames(a, c, i + 2, chs[i + 2..])[..k - 4 - length]);
                 o == Outcome([chs[i]] + r.chunks, r.error)
  {
    assert ExclusiveAt(a, c, chs, i);
    if k >= 4 {
      assert ExclusiveAt(a, c, chs, i + 1);
      var tail := chs[i + 1..];
      assert tail[1..] == chs[i + 2..];
      CutFrame(a, c, i + 1, tail, k);
    }
  }

  /** What becomes of the first `k` bytes after record `i`, computed from the plaintext chunks alone. */
  function CutOutcome(chs: seq<bytes>, i: nat, k: nat): Outcome
    requires i < |chs|
    decreases |chs| - i
  {
    if k == 0 then Outcome([], AuthFailed)
    else if k < 4 then Outcome([], Truncated)
    else if i == |chs| - 1 || k - 4 < |chs[i + 1]| + TAG_LEN then Outcome([chs[i]], Truncated)
    else
      var r := CutOutcome(chs, i + 1, k - 4 - (|chs[i + 1]| + TAG_LEN));
      Outcome([chs[i]] + r.chunks, r.error)
  }

  lemma {:induction false} CutReads(a: Primitives, c: ChunkCrypto, chs: seq<bytes>, i: nat, k: nat)
    requires Exclusive(a, c, chs) && c.Valid() && WellChunked(chs, c.chunkSize)
    requires i < |chs| && k < |Frames(a, c, i + 1, chs[i + 1..])|
    ensures ReadFrom(a, c, i, SealChunk(a, c, i, false, chs[i]), Frames(a, c, i + 1, chs[i + 1..])[..k])
            == CutOutcome(chs, i, k)
    decreases |chs| - i
  {
    hide ReadFrom, SealChunk, Exclusive;
    LastHasNoRest(a, c, chs, i);
    CutStep(a, c, chs, i, k);
    if k - 4 >= |chs[i + 1]| + TAG_LEN {
      var k' := k - 4 - (|chs[i + 1]| + TAG_LEN);
      LastHasNoRest(a, c, chs, i + 1);
      CutReads(a, c, chs, i + 1, k');
    }
  }

  lemma LastHasNoRest(a: Primitives, c: ChunkCrypto, chs: seq<bytes>, i: nat)
    requires i < |chs|
    ensures Frames(a, c, i + 1, chs[i + 1..]) != [] ==> i < |chs| - 1
  {
  }

  /** `w` chunks are written out, those whose following length prefix was still complete; the error
      is an authentication failure exactly if the cut falls between two records. */
  lemma {:induction false} CutCounts(chs: seq<bytes>, i: nat, k: nat) returns (w: nat)
    requires i < |chs| && RecordStart(chs, i + 1) + k < RecordStart(chs, |chs|)
    ensures i <= w < |chs|
    ensures w > i ==> RecordStart(chs, w) + 4 <= RecordStart(chs, i + 1) + k
    ensures RecordStart(chs, i + 1) + k < RecordStart(chs, w + 1) + 4
    ensures CutOutcome(chs, i, k)
            == Outcome(chs[i..w], if RecordStart(chs, i + 1) + k == RecordStart(chs, w + 1) then AuthFailed else Truncated)
    decreases |chs| - i
  {
    w := i;
    if k >= 4 {
      hide RecordStart;
      RecordStartStep(chs, i + 1);
      var length := |chs[i + 1]| + TAG_LEN;
      if k - 4 < length {
        w := i + 1;
        assert chs[i..w] == [chs[i]];
      } else {
        w := CutCounts(chs, i + 1, k - 4 - length);
        RecordStartMonotone(chs, i + 1, i + 2);
        assert chs[i..w] == [chs[i]] + chs[i + 1..w];
      }
    }
  }

  /** The body of a run has the length its plaintext determines. */
  lemma BodyLength(a: Primitives, c: ChunkCrypto, chs: seq<bytes>)
    requires OpensOwn(a, c, 0, chs)
    ensures |Frames(a, c, 0, chs)| == RecordStart(chs, |chs|)
  {
    FramesLength(a, c, 0, chs);
    assert chs[..|chs|] == chs;
  }

  lemma BodyCutReads(a: Primitives, c: ChunkCrypto, chs: seq<bytes>, k: nat)
    requires Exclusive(a, c, chs) && c.Valid() && WellChunked(chs, c.chunkSize)
    requires k < |Frames(a, c, 0, chs)|
    ensures var first := 4 + |chs[0]| + TAG_LEN;
            ReadBody(a, c, Frames(a, c, 0, chs)[..k])
            == if k < first then Outcome([], Truncated) else CutOutcome(chs, 0, k - first)
  {
    assert ExclusiveAt(a, c, chs, 0);
    assert |chs[0]| <= c.chunkSize && |SealChunk(a, c, 0, |chs| == 1, chs[0])| == |chs[0]| + TAG_LEN;
    hide SealChunk, OpenRecord, OpenChunk, Exclusive, ExclusiveAt, WellChunked, CutOutcome, ReadFrom, Frames;
    var first := 4 + |chs[0]| + TAG_LEN;
    if k >= 4 {
      CutFrame(a, c, 0, chs, k);
    }
    if k >= first {
      LastHasNoRest(a, c, chs, 0);
      CutReads(a, c, chs, 0, k - first);
    }
  }

  /** The outcome for a body cut at `k`, judged from the plaintext chunks alone. */
  ghost predicate CutAt(chs: seq<bytes>, k: nat, o: Outcome) {
    && o.error == (if AtBoundary(chs, k) then AuthFailed else Truncated)
    && o.chunks < chs
    && (o.chunks == [] || RecordStart(chs, |o.chunks|) + 4 <= k)
    && k < RecordStart(chs, |o.chunks| + 1) + 4
  }

  lemma CutAtWritten(chs: seq<bytes>, w: nat, k: nat)
    requires w < |chs| && (w == 0 || RecordStart(chs, w) + 4 <= k) && k < RecordStart(chs, w + 1) + 4
    requires k < RecordStart(chs, |chs|)
    ensures CutAt(chs, k, Outcome(chs[..w], if k == RecordStart(chs, w + 1) then AuthFailed else Truncated))
  {
    BoundaryAt(chs, w, k);
    assert |chs[..w]| == w;
  }

  lemma CutOutcomeAt(chs: seq<bytes>, k: nat)
    requires chs != [] && RecordStart(chs, 1) + 4 <= k + 4 && k < RecordStart(chs, |chs|)
    ensures CutAt(chs, k, CutOutcome(chs, 0, k - RecordStart(chs, 1)))
  {
    var w := CutCounts(chs, 0, k - RecordStart(chs, 1));
    assert chs[0..w] == chs[..w];
    CutAtWritten(chs, w, k);
  }

  /** Every proper prefix of a body is rejected: at a record boundary because the record before it was
      sealed as non-final, anywhere else because bytes are missing. What was written out is authentic. */
  lemma BodyCut(a: Primitives, c: ChunkCrypto, chs: seq<bytes>, k: nat)
    requires Exclusive(a, c, chs) && c.Valid() && WellChunked(chs, c.chunkSize)
    requires k < RecordStart(chs, |chs|) == |Frames(a, c, 0, chs)|
    ensures CutAt(chs, k, ReadBody(a, c, Frames(a, c, 0, chs)[..k]))
  {
    hide ReadBody, Exclusive, CutAt, CutOutcome;
    BodyCutReads(a, c, chs, k);
    RecordStartStep(chs, 0);
    if k < RecordStart(chs, 1) {
      CutAtWritten(chs, 0, k);
    } else {
      CutOutcomeAt(chs, k);
    }
  }

  lemma BoundaryAt(chs: seq<bytes>, w: nat, k: nat)
    requires w < |chs| && (w == 0 || RecordStart(chs, w) + 4 <= k) && k < RecordStart(chs, w + 1) + 4
    requires k < RecordStart(chs, |chs|)
    ensures AtBoundary(chs, k) <==> k == RecordStart(chs, w + 1)
  {
    forall j | 0 < j < |chs| && k == RecordStart(chs, j)
      ensures j == w + 1
    {
      if j <= w {
        if j < w { RecordStartMonotone(chs, j, w); }
      } else if j > w + 1 {
        RecordStartMonotone(chs, w + 1, j);
      }
    }
  }

  /** Bytes after the final record: a partial length prefix is a truncation, a complete one turns the
      final record into one that should have been sealed as non-final. */
  lemma BodyExtended(a: Primitives, c: ChunkCrypto, chs: seq<bytes>, extra: bytes)
    requires Exclusive(a, c, chs) && c.Valid() && WellChunked(chs, c.chunkSize)
    requires extra != []
    ensures ReadBody(a, c, Frames(a, c, 0, chs) + extra)
            == Outcome(chs[..|chs| - 1], if |extra| < 4 then Truncated else AuthFailed)
  {
    assert ExclusiveAt(a, c, chs, 0);
    FrameReads(a, c, 0, chs, extra);
    ReadBodyStep(a, c, Frames(a, c, 0, chs) + extra, SealChunk(a, c, 0, |chs| == 1, chs[0]),
                 Frames(a, c, 1, chs[1..]) + extra);
    ExtendFrom(a, c, chs, 0, extra);
    assert chs[0..|chs| - 1] == chs[..|chs| - 1];
  }

  lemma ExtendStep(a: Primitives, c: ChunkCrypto, chs: seq<bytes>, i: nat, extra: bytes)
    requires Exclusive(a, c, chs) && c.Valid() && WellChunked(chs, c.chunkSize)
    requires i < |chs| - 1
    ensures var record := SealChunk(a, c, i + 1, i + 1 == |chs| - 1, chs[i + 1]);
            var r := ReadFrom(a, c, i + 1, record, Frames(a, c, i + 2, chs[i + 2..]) + extra);
            ReadFrom(a, c, i, SealChunk(a, c, i, false, chs[i]), Frames(a, c, i + 1, chs[i + 1..]) + extra)
            == Outcome([chs[i]] + r.chunks, r.error)
  {
    assert ExclusiveAt(a, c, chs, i) && ExclusiveAt(a, c, chs, i + 1);
    var tail := chs[i + 1..];
    assert tail[1..] == chs[i + 2..];
    FrameReads(a, c, i + 1, tail, extra);
    var current := SealChunk(a, c, i, false, chs[i]);
    var record := SealChunk(a, c, i + 1, i + 1 == |chs| - 1, chs[i + 1]);
    ReadFromStep(a, c, i, current, Frames(a, c, i + 1, tail) + extra, chs[i],
                 record, Frames(a, c, i + 2, chs[i + 2..]) + extra);
  }

  lemma ExtendLast(a: Primitives, c: ChunkCrypto, chs: seq<bytes>, extra: bytes)
    requires Exclusive(a, c, chs) && chs != [] && extra != []
    ensures var i := |chs| - 1;
            ReadFrom(a, c, i, SealChunk(a, c, i, true, chs[i]), extra)
            == Outcome([], if |extra| < 4 then Truncated else AuthFailed)
  {
    assert ExclusiveAt(a, c, chs, |chs| - 1);
    hide SealChunk, OpenChunk;
  }

  lemma {:induction false} ExtendFrom(a: Primitives, c: ChunkCrypto, chs: seq<bytes>, i: nat, extra: bytes)
    requires Exclusive(a, c, chs) && c.Valid() && WellChunked(chs, c.chunkSize)
    requires i < |chs| && extra != []
    ensures ReadFrom(a, c, i, SealChunk(a, c, i, i == |chs| - 1, chs[i]), Frames(a, c, i + 1, chs[i + 1..]) + extra)
            == Outcome(chs[i..|chs| - 1], if |extra| < 4 then Truncated else AuthFailed)
    decreases |chs| - i
  {
    hide ReadFrom, SealChunk, Exclusive, WellChunked;
    if i == |chs| - 1 {
      ExtendLast(a, c, chs, extra);
      assert Frames(a, c, i + 1, chs[i + 1..]) + extra == extra;
    } else {
      ExtendStep(a, c, chs, i, extra);
      ExtendFrom(a, c, chs, i + 1, extra);
      assert chs[i..|chs| - 1] == [chs[i]] + chs[i + 1..|chs| - 1];
    }
  }
}
