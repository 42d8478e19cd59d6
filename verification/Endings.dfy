/** How the reading of any bytes ends: each error from the bytes alone. */
module Endings {
  import opened Wrappers
  import opened Bytes
  import opened Format
  import opened Aead
  import opened Records

  /** The record is the seal of a chunk in this place, and a full one unless it is the last. */
  ghost predicate Genuine(a: Primitives, c: ChunkCrypto, index: nat, last: bool, record: bytes) {
    exists p: bytes :: Seals(a, c, index, last, p, record)
  }

  ghost predicate Seals(a: Primitives, c: ChunkCrypto, index: nat, last: bool, p: bytes, record: bytes) {
    record == SealChunk(a, c, index, last, p) && (last || |p| == c.chunkSize)
  }

  /** How reading stops at `rest`, `n` chunks after its start. */
  ghost predicate Stops(a: Primitives, c: ChunkCrypto, n: nat, rest: bytes, err: Error) {
    if |rest| < 4 then n == 0 && err == Truncated
    else
      var length, tail := FromBigEndian(rest[..4]), rest[4..];
      if length > c.chunkSize + 16 then err == ChunkTooLarge
      else if |tail| < length || 1 <= |tail| - length <= 3 then err == Truncated
      else err == AuthFailed && !Genuine(a, c, n, |tail| == length, tail[..length])
  }

  /** The data hold the chunks `pts` as full records that have more to follow, and reading stops behind them. */
  ghost predicate Leads(a: Primitives, c: ChunkCrypto, n: nat, data: bytes, pts: seq<bytes>, err: Error)
    decreases |pts|
  {
    if pts == [] then Stops(a, c, n, data, err)
    else
      var frame := Frame(a, c, n, false, pts[0]);
      && |pts[0]| == c.chunkSize
      && frame <= data
      && Leads(a, c, n + 1, data[|frame|..], pts[1..], err)
  }

  /** Reading from a length prefix on, with record `n` next. */
  function ReadAt(a: Primitives, c: ChunkCrypto, n: nat, data: bytes): Outcome
    requires NextLen(data).Len?
  {
    match TakeRecord(NextLen(data).rest, NextLen(data).length, c.chunkSize + TAG_LEN)
    case Err(e) => Outcome([], e)
    case Ok(record) => ReadFrom(a, c, n, record, NextLen(data).rest[NextLen(data).length..])
  }

  lemma OpenedIsGenuine(a: Primitives, c: ChunkCrypto, n: nat, last: bool, record: bytes)
    requires Tidy(a)
    ensures OpenRecord(a, c, n, last, record).Ok? <==> Genuine(a, c, n, last, record)
    ensures OpenRecord(a, c, n, last, record).Err? ==> OpenRecord(a, c, n, last, record).error == AuthFailed
    ensures forall p :: Seals(a, c, n, last, p, record) ==> OpenRecord(a, c, n, last, record) == Ok(p)
  {
    TidySound(a, c);
    if OpenRecord(a, c, n, last, record).Ok? {
      var p := OpenRecord(a, c, n, last, record).value;
      assert SoundAt(a, c, n, last, record);
      assert Seals(a, c, n, last, p, record);
    }
    forall p | Seals(a, c, n, last, p, record)
      ensures OpenRecord(a, c, n, last, record) == Ok(p)
    {
      SealedOpens(a, c, n, last, p);
    }
  }

  lemma SealedOpens(a: Primitives, c: ChunkCrypto, n: nat, last: bool, p: bytes)
    requires Tidy(a)
    ensures var r := SealChunk(a, c, n, last, p);
            |r| == |p| + TAG_LEN && OpenChunk(a, c, n, last, r) == Some(p)
  {
    var nonce, ad := ChunkNonce(n % TWO_64), Aad(c, n, last, |p|);
    assert |a.seal(c.aead, c.messageKey, nonce, p, ad)| == |p| + TAG_LEN;
  }

  /** One turn of the reader: the record in hand is opened once it is known what follows it. */
  lemma ReadAtStep(a: Primitives, c: ChunkCrypto, n: nat, data: bytes)
    requires NextLen(data).Len?
    ensures var length, tail := NextLen(data).length, NextLen(data).rest;
            if length > c.chunkSize + TAG_LEN then ReadAt(a, c, n, data) == Outcome([], ChunkTooLarge)
            else if |tail| < length || 1 <= |tail| - length <= 3 then ReadAt(a, c, n, data) == Outcome([], Truncated)
            else
              match OpenRecord(a, c, n, |tail| == length, tail[..length])
              case Err(e) => ReadAt(a, c, n, data) == Outcome([], e)
              case Ok(p) =>
                if |tail| == length then ReadAt(a, c, n, data) == Outcome([p], Nil)
                else
                  && NextLen(tail[length..]).Len?
                  && var r := ReadAt(a, c, n + 1, tail[length..]);
                     ReadAt(a, c, n, data) == Outcome([p] + r.chunks, r.error)
  {
    hide OpenRecord;
  }

  /** A frame at the head of the data, as the reader takes it off. */
  lemma FrameAtHead(a: Primitives, c: ChunkCrypto, n: nat, p: bytes, data: bytes)
    requires Tidy(a) && c.Valid() && |p| == c.chunkSize && Frame(a, c, n, false, p) <= data
    ensures var frame, record := Frame(a, c, n, false, p), SealChunk(a, c, n, false, p);
            && |record| == c.chunkSize + TAG_LEN && |frame| == 4 + |record|
            && NextLen(data) == Len(|record|, record + data[|frame|..])
  {
    SealedOpens(a, c, n, false, p);
    hide SealChunk, Tidy, BigEndian, FromBigEndian;
    var frame, record := Frame(a, c, n, false, p), SealChunk(a, c, n, false, p);
    PrefixReads(record, data[|frame|..]);
    assert data == frame + data[|frame|..];
  }

  /** And the other way: a genuine record behind its length is a frame. */
  lemma HeadIsFrame(a: Primitives, c: ChunkCrypto, n: nat, p: bytes, data: bytes)
    requires NextLen(data).Len? && NextLen(data).length <= |NextLen(data).rest|
    requires NextLen(data).rest[..NextLen(data).length] == SealChunk(a, c, n, false, p)
    ensures var frame := Frame(a, c, n, false, p);
            frame <= data && data[|frame|..] == NextLen(data).rest[NextLen(data).length..]
  {
    hide SealChunk, BigEndian, FromBigEndian;
    var record, rest := PrefixFound(data);
    var tail := NextLen(data).rest;
    assert tail[..|record|] == record && tail[|record|..] == rest;
    assert data == Frame(a, c, n, false, p) + rest;
  }

  lemma LeadsOn(a: Primitives, c: ChunkCrypto, n: nat, data: bytes, pts: seq<bytes>, err: Error)
    requires Tidy(a) && c.Valid() && n > 0 && Leads(a, c, n, data, pts, err)
    ensures NextLen(data).Len?
  {
    if pts != [] {
      FrameAtHead(a, c, n, pts[0], data);
    }
  }

  /** The reader's turn over a full record with more to follow. */
  lemma FullRecordRead(a: Primitives, c: ChunkCrypto, n: nat, p: bytes, data: bytes)
    requires Tidy(a) && c.Valid() && |p| == c.chunkSize && Frame(a, c, n, false, p) <= data
    requires NextLen(data[|Frame(a, c, n, false, p)|..]).Len?
    ensures NextLen(data).Len?
    ensures var r := ReadAt(a, c, n + 1, data[|Frame(a, c, n, false, p)|..]);
            ReadAt(a, c, n, data) == Outcome([p] + r.chunks, r.error)
  {
    hide ReadAt, OpenRecord, Genuine, Tidy, Frame, SealChunk;
    var record, rest := SealChunk(a, c, n, false, p), data[|Frame(a, c, n, false, p)|..];
    FrameAtHead(a, c, n, p, data);
    ReadAtStep(a, c, n, data);
    assert (record + rest)[..|record|] == record && (record + rest)[|record|..] == rest;
    assert Seals(a, c, n, false, p, record);
    OpenedIsGenuine(a, c, n, false, record);
  }

  lemma StopIsRead(a: Primitives, c: ChunkCrypto, n: nat, data: bytes, err: Error)
    requires Tidy(a) && c.Valid() && NextLen(data).Len? && Stops(a, c, n, data, err)
    ensures ReadAt(a, c, n, data) == Outcome([], err)
  {
    hide ReadAt, OpenRecord, Genuine, Tidy;
    ReadAtStep(a, c, n, data);
    var length, tail := NextLen(data).length, NextLen(data).rest;
    if length <= |tail| {
      OpenedIsGenuine(a, c, n, |tail| == length, tail[..length]);
    }
  }

  lemma {:induction false} LeadsIsRead(a: Primitives, c: ChunkCrypto, n: nat, data: bytes, pts: seq<bytes>, err: Error)
    requires Tidy(a) && c.Valid() && NextLen(data).Len? && Leads(a, c, n, data, pts, err)
    ensures ReadAt(a, c, n, data) == Outcome(pts, err)
    decreases |pts|
  {
    hide ReadAt, Stops, Tidy, Frame;
    if pts == [] {
      StopIsRead(a, c, n, data, err);
    } else {
      var rest := data[|Frame(a, c, n, false, pts[0])|..];
      LeadsOn(a, c, n + 1, rest, pts[1..], err);
      FullRecordRead(a, c, n, pts[0], data);
      LeadsIsRead(a, c, n + 1, rest, pts[1..], err);
      assert pts == [pts[0]] + pts[1..];
    }
  }

  lemma {:induction false} ReadLeads(a: Primitives, c: ChunkCrypto, n: nat, data: bytes)
    requires Tidy(a) && c.Valid() && NextLen(data).Len? && ReadAt(a, c, n, data).error != Nil
    ensures Leads(a, c, n, data, ReadAt(a, c, n, data).chunks, ReadAt(a, c, n, data).error)
    decreases |data|
  {
    hide ReadAt, OpenRecord, Tidy, Frame, SealChunk;
    ReadAtStep(a, c, n, data);
    var length, tail := NextLen(data).length, NextLen(data).rest;
    if length <= c.chunkSize + TAG_LEN && length <= |tail| && !(1 <= |tail| - length <= 3) {
      OpenedIsGenuine(a, c, n, |tail| == length, tail[..length]);
      if OpenRecord(a, c, n, |tail| == length, tail[..length]).Ok? {
        var p :| Seals(a, c, n, false, p, tail[..length]);
        HeadIsFrame(a, c, n, p, data);
        ReadLeads(a, c, n + 1, tail[length..]);
        var r := ReadAt(a, c, n + 1, tail[length..]);
        assert ([p] + r.chunks)[1..] == r.chunks;
      }
    }
  }

  /** Every failed reading, from the bytes alone: the chunks written out stand in front as full records with
      more to follow, and behind them the error is a length above the bound, a record or a length prefix that
      is cut off, or a record that is not the seal of what belongs there. */
  lemma FailuresExactly(a: Primitives, c: ChunkCrypto, data: bytes, pts: seq<bytes>, err: Error)
    requires Tidy(a) && c.Valid() && err != Nil
    ensures ReadBody(a, c, data) == Outcome(pts, err) <==> Leads(a, c, 0, data, pts, err)
  {
    hide Tidy, OpenRecord, Genuine, Frame;
    if NextLen(data).Len? {
      assert ReadBody(a, c, data) == ReadAt(a, c, 0, data);
      hide ReadBody, ReadAt, Leads;
      if Leads(a, c, 0, data, pts, err) {
        LeadsIsRead(a, c, 0, data, pts, err);
      }
      if ReadBody(a, c, data) == Outcome(pts, err) {
        ReadLeads(a, c, 0, data);
      }
    } else if pts != [] && Leads(a, c, 0, data, pts, err) {
      FrameAtHead(a, c, 0, pts[0], data);
    }
  }
}
