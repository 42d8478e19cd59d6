/** The writer's and the reader's chunk loops. */
module Stream {
  import opened Wrappers
  import opened Bytes
  import opened Format
  import opened Aead
  import opened Chunking
  import opened Records
  import opened Safety
  import opened Schedule
  import opened StreamIO

  /** What one look-ahead step means for the chunks of the plaintext. */
  lemma LookAhead(plaintext: bytes, sealed: seq<bytes>, current: bytes, rest: bytes, size: nat)
    requires size > 0 && |current| <= size && (|current| < size ==> rest == [])
    requires Chunks(plaintext, size) == sealed + Chunks(current + rest, size)
    ensures rest == [] ==> Chunks(plaintext, size) == sealed + [current]
    ensures rest != [] ==> Chunks(plaintext, size) == sealed + [current] + Chunks(rest, size)
  {
    if rest == [] {
      assert current + rest == current;
    } else {
      assert (current + rest)[..size] == current && (current + rest)[size..] == rest;
    }
  }

  lemma PrefixAppend(head: bytes, x: bytes, y: bytes)
    requires x <= y
    ensures head + x <= head + y
  {
  }

  /** The counter is a uint64. */
  lemma FrameWraps(a: Primitives, c: ChunkCrypto, index: nat, isFinal: bool, plaintext: bytes)
    ensures Frame(a, c, index, isFinal, plaintext) == Frame(a, c, index % TWO_64, isFinal, plaintext)
  {
    SealWraps(a, c, index, isFinal, plaintext);
  }

  /** Seals one chunk and writes its record with the length prefix. */
  method WriteRecord(a: Primitives, dst: Sink, c: ChunkCrypto, index: u64, isFinal: bool, plaintext: bytes)
    returns (err: Error)
    modifies dst`writes
    ensures var frame := Frame(a, c, index, isFinal, plaintext);
            && (err == Nil ==> dst.Contents() == old(dst.Contents()) + frame)
            && old(dst.Contents()) <= dst.Contents() <= old(dst.Contents()) + frame
    ensures err == Nil || (err == SinkFault && !dst.reliable)
  {
    hide ChunkAad, ChunkNonce, BigEndian;
    var aad := ChunkAad(c.suiteID, c.streamID, index, isFinal, |plaintext| % TWO_32, c.chunkSize % TWO_32);
    var nonce := ChunkNonce(index);
    var record := a.seal(c.aead, c.messageKey, nonce, plaintext, aad);
    assert record == SealChunk(a, c, index, isFinal, plaintext);
    var lenBuf := BigEndian(|record| % TWO_32, 4);
    ghost var before := dst.Contents();
    err := dst.Write(lenBuf);
    assert before + lenBuf + record == before + (lenBuf + record);
    if err == Nil {
      err := dst.Write(record);
    }
  }

  /** The chunks a writer has sealed (`sealed`), holds (`current`) and has still to read (`rest`). */
  ghost predicate Writing(plaintext: bytes, size: nat, reliable: bool,
                          sealed: seq<bytes>, current: bytes, rest: bytes)
    requires size > 0
  {
    && Flatten(sealed) + current + rest == plaintext
    && Sized(sealed, size)
    && |current| <= size
    && (reliable ==>
          && (|current| < size ==> rest == [])
          && Chunks(plaintext, size) == sealed + Chunks(current + rest, size))
  }

  /** One turn of the writer: `current` is sealed, and is the last chunk exactly if nothing follows. */
  lemma WritingStep(plaintext: bytes, size: nat, reliable: bool,
                    sealed: seq<bytes>, current: bytes, rest: bytes, next: bytes, rest': bytes)
    requires size > 0 && Writing(plaintext, size, reliable, sealed, current, rest)
    requires next + rest' == rest && |next| <= size
    requires reliable ==> |next| == Min(size, |rest|)
    ensures Writing(plaintext, size, reliable, sealed + [current], next, rest') || (reliable && next == [])
    ensures reliable ==>
              && sealed + [current] <= Chunks(plaintext, size)
              && (next == [] <==> sealed + [current] == Chunks(plaintext, size))
    ensures Flatten(sealed + [current]) + next + rest' == plaintext && Sized(sealed + [current], size)
  {
    FlattenSnoc(sealed, current);
    assert Flatten(sealed) + current + (next + rest') == Flatten(sealed) + current + next + rest';
    if reliable {
      LookAhead(plaintext, sealed, current, rest, size);
    }
  }

  /** The state at the head of the writer's loop; `contents` is what the destination holds. */
  ghost predicate Running(a: Primitives, c: ChunkCrypto, base: bytes, plaintext: bytes, reliable: bool,
                          sealed: seq<bytes>, current: bytes, rest: bytes, contents: bytes)
    requires c.Valid()
  {
    && Writing(plaintext, c.chunkSize, reliable, sealed, current, rest)
    && contents == base + Emitted(a, c, sealed)
    && (reliable ==> contents <= base + Frames(a, c, 0, Chunks(plaintext, c.chunkSize)))
  }

  /** What the writer leaves behind. On success it has written the records of `chs`, which hold exactly
      the bytes it took from the source. From a reliable source `chs` are the chunks of the plaintext,
      all of it is taken, and even a failed run has written only a prefix of the whole container. */
  ghost predicate Wrote(a: Primitives, c: ChunkCrypto, base: bytes, plaintext: bytes, reliable: bool,
                        rest: bytes, contents: bytes, err: Error, chs: seq<bytes>)
    requires c.Valid()
  {
    && (err == Nil ==>
          && contents == base + Frames(a, c, 0, chs)
          && Flatten(chs) + rest == plaintext
          && chs != [] && Sized(chs, c.chunkSize)
          && (reliable ==> rest == []))
    && (reliable ==>
          && chs == Chunks(plaintext, c.chunkSize)
          && contents <= base + Frames(a, c, 0, chs))
  }

  lemma RunStart(a: Primitives, c: ChunkCrypto, base: bytes, plaintext: bytes, reliable: bool,
                 current: bytes, rest: bytes)
    requires c.Valid() && current + rest == plaintext && |current| <= c.chunkSize
    requires reliable ==> |current| == Min(c.chunkSize, |plaintext|)
    ensures Running(a, c, base, plaintext, reliable, [], current, rest, base)
  {
  }

  /** A run that ends before any record. */
  lemma RunRefused(a: Primitives, c: ChunkCrypto, base: bytes, plaintext: bytes, reliable: bool,
                   rest: bytes, contents: bytes, err: Error)
    requires c.Valid() && err != Nil && (reliable ==> contents <= base)
    ensures Wrote(a, c, base, plaintext, reliable, rest, contents, err, Chunks(plaintext, c.chunkSize))
  {
  }

  /** What the destination holds once `current` is written behind the chunks in `sealed`. */
  lemma FrameWritten(a: Primitives, c: ChunkCrypto, base: bytes, chs: seq<bytes>, reliable: bool,
                     sealed: seq<bytes>, current: bytes, isFinal: bool, index: nat)
    requires index == |sealed| % TWO_64
    requires reliable ==> sealed + [current] <= chs && (isFinal <==> sealed + [current] == chs)
    ensures var written := base + Emitted(a, c, sealed) + Frame(a, c, index, isFinal, current);
            && (isFinal ==> written == base + Frames(a, c, 0, sealed + [current]))
            && (!isFinal ==> written == base + Emitted(a, c, sealed + [current]))
            && (reliable ==> written <= base + Frames(a, c, 0, chs))
  {
    FrameWraps(a, c, |sealed|, isFinal, current);
    var frame := Frame(a, c, |sealed|, isFinal, current);
    assert base + Emitted(a, c, sealed) + frame == base + (Emitted(a, c, sealed) + frame);
    if isFinal {
      EmittedFinish(a, c, sealed, current);
    } else {
      EmittedContinue(a, c, sealed, current);
      if reliable {
        EmittedPrefix(a, c, chs, sealed + [current]);
        PrefixAppend(base, Emitted(a, c, sealed + [current]), Frames(a, c, 0, chs));
      }
    }
  }

  /** One turn of the writer's loop: `next` is read ahead and `current` is written, to the end or not. */
  lemma RunTurn(a: Primitives, c: ChunkCrypto, base: bytes, plaintext: bytes, reliable: bool,
                sealed: seq<bytes>, current: bytes, rest: bytes, contents: bytes,
                next: bytes, rest': bytes, index: nat, contents': bytes, err: Error)
    requires c.Valid() && Running(a, c, base, plaintext, reliable, sealed, current, rest, contents)
    requires rest == next + rest' && |next| <= c.chunkSize
    requires reliable ==> |next| == Min(c.chunkSize, |rest|)
    requires index == |sealed| % TWO_64
    requires var frame := Frame(a, c, index, next == [], current);
             contents' <= contents + frame && (err == Nil ==> contents' == contents + frame)
    ensures var chs := if err == Nil then sealed + [current] else Chunks(plaintext, c.chunkSize);
            err != Nil || next == [] ==> Wrote(a, c, base, plaintext, reliable, rest', contents', err, chs)
    ensures err == Nil && next != [] ==>
              Running(a, c, base, plaintext, reliable, sealed + [current], next, rest', contents')
  {
    hide Writing, Frame, Frames, Emitted, Flatten, Chunks, Sized;
    WritingStep(plaintext, c.chunkSize, reliable, sealed, current, rest, next, rest');
    FrameWritten(a, c, base, Chunks(plaintext, c.chunkSize), reliable, sealed, current, next == [], index);
    assert Flatten(sealed + [current]) + [] + rest' == Flatten(sealed + [current]) + rest';
  }

  /** A fresh buffer of `size` bytes, filled as far as the source goes. */
  method ReadChunk(src: Source, size: nat) returns (buf: array<byte>, have: nat, err: Error)
    modifies src`data, src`calls, src`peak
    ensures fresh(buf) && have <= buf.Length == size
    ensures Fill(|old(src.data)|, src.turns, old(src.calls), size) == Filled(have, src.calls, err != Nil)
    ensures old(src.data) == buf[..have] + src.data
    ensures err == Nil || (err == SourceFault && !src.reliable)
    ensures src.reliable ==> have == Min(size, |old(src.data)|)
    ensures src.peak <= old(src.peak) || src.peak <= size
  {
    buf := new byte[size];
    have, err := ReadFull(src, buf);
  }

  /** Writes `header`, then `src` as records, reading one chunk ahead to know which chunk is the last.
      How a reliable source splits its reads does not matter; from any source the chunks are those that its
      answers make the look-ahead take in. */
  method WriteChunks(a: Primitives, dst: Sink, src: Source, header: bytes, c: ChunkCrypto)
    returns (err: Error, ghost chs: seq<bytes>)
    requires c.Valid()
    modifies dst`writes, src`data, src`calls, src`peak
    ensures Wrote(a, c, old(dst.Contents()) + header, old(src.data), src.reliable,
                  src.data, dst.Contents(), err, chs)
    ensures var intake := IntakeOf(old(src.data), src.turns, old(src.calls), c.chunkSize);
            && (err == Nil ==> intake == Intake(chs, src.data, src.calls, false))
            && (err == SourceFault ==> intake.fault)
    ensures err == Nil || (err == SourceFault && !src.reliable) || (err == SinkFault && !dst.reliable)
    ensures src.peak <= old(src.peak) || src.peak <= c.chunkSize
  {
    hide Wrote, Running, Frame, Chunks, Flatten, Fill, IntakeOf, IntakeAfter, Before;
    ghost var plaintext, base := src.data, dst.Contents() + header;
    chs := Chunks(plaintext, c.chunkSize);
    err := dst.Write(header);
    if err != Nil {
      RunRefused(a, c, base, plaintext, src.reliable, src.data, dst.Contents(), err);
      return;
    }

    var current, have, e := ReadChunk(src, c.chunkSize);
    ghost var intake := IntakeOf(plaintext, src.turns, old(src.calls), c.chunkSize);
    IntakeStart(plaintext, src.turns, old(src.calls), c.chunkSize, Filled(have, src.calls, e != Nil));
    assert current[..have] == plaintext[..have] && src.data == plaintext[have..];
    if e != Nil {
      RunRefused(a, c, base, plaintext, src.reliable, src.data, dst.Contents(), e);
      return e, chs;
    }
    var index: u64 := 0;
    ghost var sealed: seq<bytes> := [];
    RunStart(a, c, base, plaintext, src.reliable, current[..have], src.data);
    while true
      invariant 0 <= have <= current.Length == c.chunkSize
      invariant index == |sealed| % TWO_64
      invariant Running(a, c, base, plaintext, src.reliable, sealed, current[..have], src.data, dst.Contents())
      invariant chs == Chunks(plaintext, c.chunkSize)
      invariant intake == Before(sealed + [current[..have]], IntakeAfter(src.data, src.turns, src.calls, c.chunkSize))
      invariant src.peak <= old(src.peak) || src.peak <= c.chunkSize
      decreases |src.data|
    {
      ghost var chunk, rest, contents, calls := current[..have], src.data, dst.Contents(), src.calls;
      var next, nextHave, e := ReadChunk(src, c.chunkSize);
      IntakeTurn(sealed + [chunk], rest, src.turns, calls, c.chunkSize, Filled(nextHave, src.calls, e != Nil));
      assert next[..nextHave] == rest[..nextHave] && src.data == rest[nextHave..];
      if e != Nil {
        RunRefused(a, c, base, plaintext, src.reliable, src.data, dst.Contents(), e);
        return e, chs;
      }
      var isFinal := nextHave == 0;
      err := WriteRecord(a, dst, c, index, isFinal, current[..have]);
      RunTurn(a, c, base, plaintext, src.reliable, sealed, chunk, rest, contents,
              next[..nextHave], src.data, index, dst.Contents(), err);
      if err != Nil {
        return;
      }
      CounterStep(|sealed|);
      index := (index + 1) % TWO_64;
      sealed := sealed + [chunk];
      if isFinal {
        return Nil, sealed;
      }
      current, have := next, nextHave;
    }
  }

  // ---------- reading ----------

  /** The state at the head of the reader's loop: `pts` is written out, `current` is in hand. */
  ghost predicate Reading(a: Primitives, c: ChunkCrypto, data: bytes, reliable: bool,
                          pts: seq<bytes>, current: bytes, rest: bytes)
  {
    && |current| <= c.chunkSize + TAG_LEN
    && Authentic(a, c, 0, pts, false)
    && (reliable ==>
          var r := ReadFrom(a, c, |pts|, current, rest);
          ReadBody(a, c, data) == Outcome(pts + r.chunks, r.error))
  }

  /** What the reader leaves behind, where `pts` are the plaintexts it handed to Write. Whatever the
      source did, they are authentic; from a reliable source they are what the bytes determine. */
  ghost predicate Read(a: Primitives, c: ChunkCrypto, data: bytes, reliable: bool, pts: seq<bytes>, err: Error) {
    && (err != SinkFault ==> Authentic(a, c, 0, pts, err == Nil))
    && (err == SinkFault ==> pts != [] && (Authentic(a, c, 0, pts, false) || Authentic(a, c, 0, pts, true)))
    && (reliable ==>
          if err == SinkFault then pts <= ReadBody(a, c, data).chunks
          else ReadBody(a, c, data) == Outcome(pts, err))
  }

  /** What the destination took of `pts`: all of them, or the last one in part if that Write failed. */
  ghost predicate Delivered(base: seq<bytes>, writes: seq<bytes>, pts: seq<bytes>, err: Error) {
    if err == SinkFault then
      pts != [] && exists taken :: taken <= pts[|pts| - 1] && writes == base + pts[..|pts| - 1] + [taken]
    else
      writes == base + pts
  }

  /** What reading a length prefix found. */
  ghost predicate PrefixRead(before: bytes, after: bytes, reliable: bool, length: nat, present: bool, err: Error) {
    && (err == Nil && present ==> NextLen(before) == Len(length, after))
    && (reliable ==>
          match NextLen(before)
          case Torn => err == Truncated
          case End => err == Nil && !present
          case Len(_, _) => err == Nil && present)
  }

  lemma ReadingStart(a: Primitives, c: ChunkCrypto, data: bytes, after: bytes, reliable: bool, length: nat,
                     record: bytes, rest: bytes)
    requires PrefixRead(data, after, reliable, length, true, Nil)
    requires |record| == length <= c.chunkSize + TAG_LEN && after == record + rest
    ensures Reading(a, c, data, reliable, [], record, rest)
  {
  }

  /** A reading that ends before its first record is complete. */
  lemma ReadingUnstarted(a: Primitives, c: ChunkCrypto, data: bytes, after: bytes, reliable: bool,
                         length: nat, present: bool, prefixErr: Error, err: Error)
    requires PrefixRead(data, after, reliable, length, present, prefixErr)
    requires err != Nil && err != SinkFault
    requires prefixErr != Nil ==> err == prefixErr
    requires prefixErr == Nil && !present ==> err == Truncated
    requires reliable && prefixErr == Nil && present ==>
               TakeRecord(after, length, c.chunkSize + TAG_LEN) == Err(err)
    ensures Read(a, c, data, reliable, [], err)
  {
  }

  /** A turn of the reader's loop that ends before anything is written. */
  lemma ReadingRefused(a: Primitives, c: ChunkCrypto, data: bytes, reliable: bool,
                       pts: seq<bytes>, current: bytes, rest: bytes,
                       after: bytes, length: nat, present: bool, prefixErr: Error, err: Error)
    requires Reading(a, c, data, reliable, pts, current, rest)
    requires PrefixRead(rest, after, reliable, length, present, prefixErr)
    requires err != Nil && err != SinkFault
    requires prefixErr != Nil ==> err == prefixErr
    requires prefixErr == Nil ==> OpenRecord(a, c, |pts|, !present, current) == Err(err)
    ensures Read(a, c, data, reliable, pts, err)
  {
  }

  /** A turn that hands `pt` to the destination: to the end, to a failure, or on to the next record. */
  lemma ReadingTurn(a: Primitives, c: ChunkCrypto, data: bytes, reliable: bool,
                    pts: seq<bytes>, current: bytes, rest: bytes,
                    after: bytes, length: nat, present: bool, pt: bytes)
    requires Reading(a, c, data, reliable, pts, current, rest)
    requires PrefixRead(rest, after, reliable, length, present, Nil)
    requires OpenRecord(a, c, |pts|, !present, current) == Ok(pt)
    ensures Read(a, c, data, reliable, pts + [pt], SinkFault)
    ensures !present ==> Read(a, c, data, reliable, pts + [pt], Nil)
  {
    hide OpenRecord, Authentic, ReadBody, NextLen, TakeRecord;
    AuthenticSnoc(a, c, 0, pts, !present, current, pt);
    if reliable {
      var r := ReadFrom(a, c, |pts|, current, rest);
      assert r.chunks[0] == pt;
      assert pts + r.chunks == pts + [pt] + r.chunks[1..];
      if !present {
        assert r.chunks == [pt];
      }
    }
  }

  lemma ReadingCutShort(a: Primitives, c: ChunkCrypto, data: bytes, reliable: bool,
                        pts: seq<bytes>, current: bytes, rest: bytes,
                        after: bytes, length: nat, pt: bytes, err: Error)
    requires Reading(a, c, data, reliable, pts, current, rest)
    requires PrefixRead(rest, after, reliable, length, true, Nil)
    requires OpenRecord(a, c, |pts|, false, current) == Ok(pt)
    requires err != Nil && err != SinkFault
    requires reliable ==> TakeRecord(after, length, c.chunkSize + TAG_LEN) == Err(err)
    ensures Read(a, c, data, reliable, pts + [pt], err)
  {
    AuthenticSnoc(a, c, 0, pts, false, current, pt);
    if reliable {
      assert ReadFrom(a, c, |pts|, current, rest) == Outcome([pt], err);
    }
  }

  lemma ReadingOn(a: Primitives, c: ChunkCrypto, data: bytes, reliable: bool,
                  pts: seq<bytes>, current: bytes, rest: bytes,
                  after: bytes, length: nat, pt: bytes, record: bytes, rest': bytes)
    requires Reading(a, c, data, reliable, pts, current, rest)
    requires PrefixRead(rest, after, reliable, length, true, Nil)
    requires OpenRecord(a, c, |pts|, false, current) == Ok(pt)
    requires |record| == length <= c.chunkSize + TAG_LEN && after == record + rest'
    ensures Reading(a, c, data, reliable, pts + [pt], record, rest')
  {
    hide OpenRecord, Authentic, ReadFrom, ReadBody, NextLen;
    AuthenticSnoc(a, c, 0, pts, false, current, pt);
    if reliable {
      ReadFromStep(a, c, |pts|, current, rest, pt, record, rest');
      var r := ReadFrom(a, c, |pts| + 1, record, rest');
      assert pts + ([pt] + r.chunks) == pts + [pt] + r.chunks;
    }
  }

  lemma OpenWraps(a: Primitives, c: ChunkCrypto, index: nat, isFinal: bool, record: bytes)
    ensures OpenRecord(a, c, index, isFinal, record) == OpenRecord(a, c, index % TWO_64, isFinal, record)
  {
  }

  /** Opens the record in hand as chunk `index`. */
  method OpenCurrent(a: Primitives, c: ChunkCrypto, index: u64, isFinal: bool, current: bytes)
    returns (plaintext: bytes, err: Error)
    ensures match OpenRecord(a, c, index, isFinal, current)
            case Ok(pt) => err == Nil && plaintext == pt
            case Err(e) => err == e == AuthFailed
  {
    hide ChunkAad, ChunkNonce;
    if |current| < TAG_LEN {
      return [], AuthFailed;
    }
    var ptLen := |current| - TAG_LEN;
    var aad := ChunkAad(c.suiteID, c.streamID, index, isFinal, ptLen % TWO_32, c.chunkSize % TWO_32);
    var nonce := ChunkNonce(index);
    var unsealed := a.open(c.aead, c.messageKey, nonce, current, aad);
    if unsealed.None? {
      return [], AuthFailed;
    }
    if !isFinal && ptLen != c.chunkSize {
      return [], AuthFailed;
    }
    return unsealed.value, Nil;
  }

  /** ReadLenPrefix, with its result in one predicate. */
  method NextPrefix(src: Source) returns (length: nat, present: bool, err: Error)
    modifies src`data, src`calls, src`peak
    ensures PrefixRead(old(src.data), src.data, src.reliable, length, present, err)
    ensures |src.data| <= |old(src.data)| && (err == Nil && present ==> |src.data| < |old(src.data)|)
    ensures src.peak <= old(src.peak) || src.peak <= 4
    ensures err == Nil || err == Truncated || (err == SourceFault && !src.reliable)
  {
    length, present, err := ReadLenPrefix(src);
  }

  /** The first length prefix and its record. */
  method FirstRecord(a: Primitives, src: Source, c: ChunkCrypto) returns (record: bytes, err: Error)
    modifies src`data, src`calls, src`peak
    ensures if err == Nil then Reading(a, c, old(src.data), src.reliable, [], record, src.data)
            else Read(a, c, old(src.data), src.reliable, [], err)
    ensures err != SinkFault && (err == SourceFault ==> !src.reliable)
    ensures src.peak <= old(src.peak) || src.peak <= c.chunkSize + TAG_LEN
  {
    hide Reading, Read, PrefixRead, TakeRecord, NextLen;
    ghost var data := src.data;
    var length, present, e := NextPrefix(src);
    ghost var after := src.data;
    if e != Nil || !present {
      err := if e != Nil then e else Truncated;
      ReadingUnstarted(a, c, data, after, src.reliable, length, present, e, err);
      return [], err;
    }
    record, err := ReadRecord(src, length, c.chunkSize + TAG_LEN);
    if err != Nil {
      ReadingUnstarted(a, c, data, after, src.reliable, length, present, e, err);
      return;
    }
    ReadingStart(a, c, data, after, src.reliable, length, record, src.data);
  }

  /** A turn of the loop half done: behind the state `Reading`, length prefix `length` (if `present`) was read
      and the record in hand opened as `pt`. */
  ghost predicate Turning(a: Primitives, c: ChunkCrypto, data: bytes, reliable: bool,
                          pts: seq<bytes>, current: bytes, rest: bytes,
                          after: bytes, length: nat, present: bool, pt: bytes)
  {
    && Reading(a, c, data, reliable, pts, current, rest)
    && PrefixRead(rest, after, reliable, length, present, Nil)
    && OpenRecord(a, c, |pts|, !present, current) == Ok(pt)
  }

  /** The next length prefix tells whether the record in hand is the last; as such it is opened. */
  method OpenNext(a: Primitives, src: Source, c: ChunkCrypto, index: u64, current: bytes,
                  ghost data: bytes, ghost pts: seq<bytes>)
    returns (plaintext: bytes, nextLen: nat, hasNext: bool, err: Error)
    requires Reading(a, c, data, src.reliable, pts, current, src.data) && index == |pts| % TWO_64
    modifies src`data, src`calls, src`peak
    ensures if err == Nil
            then Turning(a, c, data, src.reliable, pts, current, old(src.data), src.data, nextLen, hasNext, plaintext)
            else Read(a, c, data, src.reliable, pts, err)
    ensures err != SinkFault && (err == SourceFault ==> !src.reliable)
    ensures |src.data| <= |old(src.data)| && (err == Nil && hasNext ==> |src.data| < |old(src.data)|)
    ensures src.peak <= old(src.peak) || src.peak <= 4
  {
    hide Reading, Read, PrefixRead, OpenRecord;
    plaintext := [];
    nextLen, hasNext, err := NextPrefix(src);
    if err != Nil {
      ReadingRefused(a, c, data, src.reliable, pts, current, old(src.data), src.data, nextLen, hasNext, err, err);
      return;
    }
    OpenWraps(a, c, |pts|, !hasNext, current);
    plaintext, err := OpenCurrent(a, c, index, !hasNext, current);
    if err != Nil {
      ReadingRefused(a, c, data, src.reliable, pts, current, old(src.data), src.data, nextLen, hasNext, Nil, err);
    }
  }

  /** Reads and authenticates records, writing each plaintext out as soon as the next length prefix is
      in. Every turn takes four bytes from the source, so the loop ends on any finite input. */
  method ReadChunks(a: Primitives, dst: Sink, src: Source, c: ChunkCrypto) returns (err: Error, ghost pts: seq<bytes>)
    modifies dst`writes, src`data, src`calls, src`peak
    ensures Read(a, c, old(src.data), src.reliable, pts, err)
    ensures Delivered(old(dst.writes), dst.writes, pts, err)
    ensures err == SourceFault ==> !src.reliable
    ensures err == SinkFault ==> !dst.reliable
    ensures src.peak <= old(src.peak) || src.peak <= c.chunkSize + TAG_LEN
  {
    hide Reading, Read, PrefixRead, OpenRecord, TakeRecord, NextLen, Authentic, ReadBody, ReadFrom, Flatten, Frames, Chunks;
    ghost var data := src.data;
    pts := [];
    var current;
    current, err := FirstRecord(a, src, c);
    if err != Nil {
      return;
    }
    var index: u64 := 0;
    while true
      invariant index == |pts| % TWO_64
      invariant dst.writes == old(dst.writes) + pts
      invariant Reading(a, c, data, src.reliable, pts, current, src.data)
      invariant src.peak <= old(src.peak) || src.peak <= c.chunkSize + TAG_LEN
      decreases |src.data|
    {
      ghost var done, held, rest := pts, current, src.data;
      var plaintext, nextLen, hasNext, openErr := OpenNext(a, src, c, index, current, data, pts);
      ghost var after := src.data;
      if openErr != Nil {
        return openErr, pts;
      }
      ReadingTurn(a, c, data, src.reliable, done, held, rest, after, nextLen, hasNext, plaintext);
      pts := done + [plaintext];
      assert pts[..|pts| - 1] == done;
      err := dst.Write(plaintext);
      if err != Nil || !hasNext {
        return;
      }
      CounterStep(|done|);
      index := (index + 1) % TWO_64;
      current, err := ReadRecord(src, nextLen, c.chunkSize + TAG_LEN);
      if err != Nil {
        ReadingCutShort(a, c, data, src.reliable, done, held, rest, after, nextLen, plaintext, err);
        return;
      }
      ReadingOn(a, c, data, src.reliable, done, held, rest, after, nextLen, plaintext, current, src.data);
    }
  }
}
