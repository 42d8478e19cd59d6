/** The caller's reader and writer, and the exact reads built on them. */
module StreamIO {
  import opened Bytes
  import opened Format
  import opened Records
  import opened Schedule

  /** An io.Reader that still has `data` to deliver and answers its calls as `turns` says, whatever that is.
      A reliable one never fails, never claims the end early, and never delivers nothing while bytes remain. */
  class Source {
    var data: bytes
    var calls: nat
    const turns: seq<Turn>
    const reliable: bool := AllHonest(turns)
    ghost var peak: nat  // the longest buffer ever handed to Read

    constructor (data: bytes, turns: seq<Turn>)
      ensures this.data == data && this.turns == turns && calls == 0 && peak == 0
    {
      this.data, this.turns, calls, peak := data, turns, 0, 0;
    }

    /** Fills some of `buf` from index `from` on. */
    method Read(buf: array<byte>, from: nat) returns (n: nat, status: ReadStatus)
      requires from < buf.Length
      modifies this`data, this`calls, this`peak, buf
      ensures var turn := TurnAt(turns, old(calls), buf.Length - from);
              n == turn.Count(buf.Length - from, |old(data)|) && status == turn.Status(|old(data)| - n)
      ensures buf[..] == old(buf[..])[..from] + old(data)[..n] + old(buf[..])[from + n..]
      ensures data == old(data)[n..] && calls == old(calls) + 1
      ensures peak == if old(peak) < buf.Length then buf.Length else old(peak)
    {
      var turn := TurnAt(turns, calls, buf.Length - from);
      n := turn.Count(buf.Length - from, |data|);
      status := turn.Status(|data| - n);
      var before := buf[..];
      forall i | 0 <= i < n {
        buf[from + i] := data[i];
      }
      assert buf[..] == before[..from] + data[..n] + before[from + n..];
      data, calls := data[n..], calls + 1;
      peak := if peak < buf.Length then buf.Length else peak;
    }
  }

  /** An io.Writer, with what each Write call took. A write that fails takes a part. */
  class Sink {
    var writes: seq<bytes>
    const reliable: bool

    constructor (reliable: bool)
      ensures this.reliable == reliable && writes == []
    {
      this.reliable, writes := reliable, [];
    }

    function Contents(): bytes
      reads this`writes
    {
      Flatten(writes)
    }

    method Write(b: bytes) returns (err: Error)
      modifies this`writes
      ensures err == Nil || (err == SinkFault && !reliable)
      ensures err == Nil ==> writes == old(writes) + [b] && Contents() == old(Contents()) + b
      ensures err != Nil ==> exists taken :: taken <= b && writes == old(writes) + [taken]
                                             && Contents() == old(Contents()) + taken
    {
      var fails: bool :| fails ==> !reliable;
      var n := |b|;
      if fails {
        n :| 0 <= n <= |b|;
      }
      FlattenSnoc(writes, b[..n]);
      assert b[..|b|] == b;
      assert b[..n] <= b;
      writes := writes + [b[..n]];
      err := if fails then SinkFault else Nil;
    }
  }

  /** Reads until `buf` is full or the source ends; a short count is the only sign of the end. */
  method ReadFull(src: Source, buf: array<byte>) returns (filled: nat, err: Error)
    modifies src`data, src`calls, src`peak, buf
    ensures Fill(|old(src.data)|, src.turns, old(src.calls), buf.Length) == Filled(filled, src.calls, err != Nil)
    ensures filled <= buf.Length && filled <= |old(src.data)|
    ensures buf[..filled] == old(src.data)[..filled]
    ensures src.data == old(src.data)[filled..]
    ensures old(src.peak) <= src.peak && (src.peak == old(src.peak) || src.peak == buf.Length)
    ensures err == Nil || (err == SourceFault && !src.reliable)
    ensures src.reliable ==> filled == Min(buf.Length, |old(src.data)|)
  {
    hide Fill, TurnAt, AllHonest;
    if src.reliable {
      FillHonest(|src.data|, src.turns, src.calls, buf.Length);
    }
    filled, err := 0, Nil;
    while filled < buf.Length
      invariant filled <= buf.Length && filled <= |old(src.data)|
      invariant buf[..filled] == old(src.data)[..filled]
      invariant src.data == old(src.data)[filled..]
      invariant Fill(|old(src.data)|, src.turns, old(src.calls), buf.Length)
             == Resumed(filled, Fill(|src.data|, src.turns, src.calls, buf.Length - filled))
      invariant old(src.peak) <= src.peak && (src.peak == old(src.peak) || src.peak == buf.Length)
      decreases buf.Length - filled
    {
      ghost var left, calls, want := |src.data|, src.calls, buf.Length - filled;
      var n, status := src.Read(buf, filled);
      FillTurn(filled, left, src.turns, calls, want, n, status);
      assert old(src.data)[..filled] + old(src.data)[filled..][..n] == old(src.data)[..filled + n];
      assert buf[..filled + n] == old(src.data)[..filled + n];
      filled := filled + n;
      if status == Fault {
        return filled, SourceFault;
      }
      if status == Eof || n == 0 {
        return filled, Nil;
      }
    }
    FillDone(|src.data|, src.turns, src.calls);
  }

  /** Exactly `n` bytes or an error. */
  method ReadRecordExact(src: Source, n: nat) returns (record: bytes, err: Error)
    modifies src`data, src`calls, src`peak
    ensures |src.data| <= |old(src.data)|
    ensures src.peak <= old(src.peak) || src.peak <= n
    ensures err == Nil ==> |record| == n && old(src.data) == record + src.data
    ensures err == Nil || err == Truncated || (err == SourceFault && !src.reliable)
    ensures src.reliable ==> (err == Nil <==> n <= |old(src.data)|)
  {
    var buf := new byte[n];
    var got, e := ReadFull(src, buf);
    if e != Nil {
      return [], e;
    }
    if got != n {
      return [], Truncated;
    }
    record, err := buf[..], Nil;
    assert record == buf[..n];
  }

  /** A record body, its claimed length checked before anything is allocated for it. */
  method ReadRecord(src: Source, length: nat, maxRecord: nat) returns (record: bytes, err: Error)
    modifies src`data, src`calls, src`peak
    ensures |src.data| <= |old(src.data)|
    ensures src.peak <= old(src.peak) || src.peak <= maxRecord
    ensures err == Nil ==> |record| == length <= maxRecord && old(src.data) == record + src.data
    ensures err in {Nil, ChunkTooLarge, Truncated} || (err == SourceFault && !src.reliable)
    ensures src.reliable ==>
              match TakeRecord(old(src.data), length, maxRecord)
              case Ok(r) => err == Nil && record == r && src.data == old(src.data)[length..]
              case Err(e) => err == e
  {
    if length > maxRecord {
      return [], ChunkTooLarge;
    }
    record, err := ReadRecordExact(src, length);
  }

  /** A length prefix, or the clean end of the stream at a record boundary. */
  method ReadLenPrefix(src: Source) returns (length: nat, present: bool, err: Error)
    modifies src`data, src`calls, src`peak
    ensures |src.data| <= |old(src.data)|
    ensures src.peak <= old(src.peak) || src.peak <= 4
    ensures err == Nil || err == Truncated || (err == SourceFault && !src.reliable)
    ensures err == Nil && present ==> NextLen(old(src.data)) == Len(length, src.data)
    ensures err == Nil && !present && src.reliable ==> old(src.data) == []
    ensures src.reliable ==> (err == Truncated <==> NextLen(old(src.data)).Torn?)
    ensures src.reliable && err == Nil ==> (present <==> NextLen(old(src.data)).Len?)
  {
    var buf := new byte[4];
    var got, e := ReadFull(src, buf);
    if e != Nil {
      return 0, false, e;
    }
    if got == 0 {
      return 0, false, Nil;
    }
    if got == 4 {
      assert buf[..] == buf[..4];
      return FromBigEndian(buf[..]), true, Nil;
    }
    return 0, false, Truncated;
  }
}
