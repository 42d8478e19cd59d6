/** How a reader splits its answers, and what the writer takes in from it: pure counterparts of readFull
    and of the writer's look-ahead, for every reader. */
module Schedule {
  import opened Bytes
  import opened Chunking

  datatype ReadStatus = More | Eof | Fault

  /** One answer of an io.Reader, of at most `most` bytes. An eager one reports the end together with the
      last bytes; otherwise the end shows in an answer of no bytes. Delivering nothing while bytes remain is
      discouraged but allowed. An early end and a failure may come with bytes, too. */
  datatype Turn =
    | Deliver(most: nat, eager: bool)
    | EarlyEof(most: nat)
    | Fail(most: nat)
  {
    /** How many bytes come, where `room` fit the buffer and `left` are left. */
    function Count(room: nat, left: nat): (n: nat)
      ensures n <= room && n <= left
    {
      Min(most, Min(room, left))
    }

    /** `left` are left behind this answer. */
    function Status(left: nat): ReadStatus {
      match this
      case Deliver(_, eager) => if eager && left == 0 then Eof else More
      case EarlyEof(_) => Eof
      case Fail(_) => Fault
    }

    predicate Honest() {
      Deliver? && most > 0
    }
  }

  predicate AllHonest(turns: seq<Turn>) {
    forall i :: 0 <= i < |turns| ==> turns[i].Honest()
  }

  /** The answer to call `k`; behind the end of the list everything is delivered at once. */
  function TurnAt(turns: seq<Turn>, k: nat, room: nat): Turn {
    if k < |turns| then turns[k] else Deliver(room, true)
  }

  /** A readFull: the bytes it got, the calls made so far, and whether the reader failed. */
  datatype Filled = Filled(count: nat, calls: nat, fault: bool)

  /** readFull on a buffer of `want` bytes, where `left` bytes are left and `calls` calls were made. */
  function Fill(left: nat, turns: seq<Turn>, calls: nat, want: nat): (r: Filled)
    ensures r.count <= want && r.count <= left && calls <= r.calls
    decreases want
  {
    if want == 0 then Filled(0, calls, false)
    else
      var turn := TurnAt(turns, calls, want);
      var n := turn.Count(want, left);
      match turn.Status(left - n)
      case Fault => Filled(n, calls + 1, true)
      case Eof => Filled(n, calls + 1, false)
      case More =>
        if n == 0 then Filled(0, calls + 1, false)
        else
          Resumed(n, Fill(left - n, turns, calls + 1, want - n))
  }

  /** A readFull resumed behind `count` bytes. */
  function Resumed(count: nat, r: Filled): Filled {
    r.(count := count + r.count)
  }

  /** A full buffer asks for nothing more. */
  lemma FillDone(left: nat, turns: seq<Turn>, calls: nat)
    ensures Fill(left, turns, calls, 0) == Filled(0, calls, false)
  {
  }

  /** One answer, taken off a readFull that has `filled` bytes already. */
  lemma FillTurn(filled: nat, left: nat, turns: seq<Turn>, calls: nat, want: nat, n: nat, status: ReadStatus)
    requires want > 0 && n == TurnAt(turns, calls, want).Count(want, left)
    requires status == TurnAt(turns, calls, want).Status(left - n)
    ensures Resumed(filled, Fill(left, turns, calls, want))
            == if status != More || n == 0 then Filled(filled + n, calls + 1, status == Fault)
               else Resumed(filled + n, Fill(left - n, turns, calls + 1, want - n))
  {
  }

  /** An honest reader fills the buffer as far as its bytes go. */
  lemma {:induction false} FillHonest(left: nat, turns: seq<Turn>, calls: nat, want: nat)
    requires AllHonest(turns)
    ensures var r := Fill(left, turns, calls, want); r.count == Min(want, left) && !r.fault
    decreases want
  {
    if want > 0 {
      var turn := TurnAt(turns, calls, want);
      assert turn.Honest();
      var n := turn.Count(want, left);
      if n > 0 {
        FillHonest(left - n, turns, calls + 1, want - n);
      }
    }
  }

  /** A readFull fails exactly with the reader, in the call that fails; only the last call it makes can be one
      that fails, claims the end, or brings nothing. */
  lemma {:induction false} FillEnds(left: nat, turns: seq<Turn>, calls: nat, want: nat)
    ensures var r := Fill(left, turns, calls, want);
            && (r.fault <==> calls < r.calls <= |turns| && turns[r.calls - 1].Fail?)
            && (forall k :: calls <= k < r.calls - 1 && k < |turns| ==> turns[k].Deliver? && turns[k].most > 0)
    decreases want
  {
    if want > 0 {
      var turn := TurnAt(turns, calls, want);
      var n := turn.Count(want, left);
      if turn.Status(left - n) == More && n > 0 {
        FillEnds(left - n, turns, calls + 1, want - n);
      }
    }
  }

  /** What the writer takes in: chunks, the bytes it never asked for, the calls made, and whether it failed. */
  datatype Intake = Intake(chunks: seq<bytes>, rest: bytes, calls: nat, fault: bool)

  /** The look-ahead with chunks of `size` bytes from here on: an empty buffer is taken for the end. */
  function IntakeAfter(data: bytes, turns: seq<Turn>, calls: nat, size: nat): Intake
    decreases |data|
  {
    var f := Fill(|data|, turns, calls, size);
    if f.fault then Intake([], data[f.count..], f.calls, true)
    else if f.count == 0 then Intake([], data, f.calls, false)
    else Before([data[..f.count]], IntakeAfter(data[f.count..], turns, f.calls, size))
  }

  function Before(chunks: seq<bytes>, r: Intake): Intake {
    r.(chunks := chunks + r.chunks)
  }

  /** All that the writer takes in: its first buffer is a chunk even if it is empty. */
  function IntakeOf(data: bytes, turns: seq<Turn>, calls: nat, size: nat): Intake {
    var f := Fill(|data|, turns, calls, size);
    if f.fault then Intake([], data[f.count..], f.calls, true)
    else Before([data[..f.count]], IntakeAfter(data[f.count..], turns, f.calls, size))
  }

  /** One readFull ahead, behind the chunks `held`. */
  lemma IntakeTurn(held: seq<bytes>, data: bytes, turns: seq<Turn>, calls: nat, size: nat, f: Filled)
    requires f == Fill(|data|, turns, calls, size)
    ensures var r := Before(held, IntakeAfter(data, turns, calls, size));
            if f.fault then r.fault
            else if f.count == 0 then r == Intake(held, data, f.calls, false)
            else r == Before(held + [data[..f.count]], IntakeAfter(data[f.count..], turns, f.calls, size))
  {
    assert held + [] == held;
    if !f.fault && f.count > 0 {
      var rest := IntakeAfter(data[f.count..], turns, f.calls, size);
      assert held + ([data[..f.count]] + rest.chunks) == held + [data[..f.count]] + rest.chunks;
    }
  }

  /** The first readFull. */
  lemma IntakeStart(data: bytes, turns: seq<Turn>, calls: nat, size: nat, f: Filled)
    requires f == Fill(|data|, turns, calls, size)
    ensures var r := IntakeOf(data, turns, calls, size);
            if f.fault then r.fault
            else r == Before([] + [data[..f.count]], IntakeAfter(data[f.count..], turns, f.calls, size))
  {
    assert [] + [data[..f.count]] == [data[..f.count]];
  }

  /** No readFull fails or comes back short while bytes remain, until one comes back empty. */
  predicate SteadyAfter(left: nat, turns: seq<Turn>, calls: nat, size: nat)
    decreases left
  {
    var f := Fill(left, turns, calls, size);
    !f.fault && f.count == Min(size, left) && (f.count > 0 ==> SteadyAfter(left - f.count, turns, f.calls, size))
  }

  /** The reader's schedule is one that the writer copes with, for `left` bytes in chunks of `size`. */
  predicate Steady(left: nat, turns: seq<Turn>, calls: nat, size: nat) {
    var f := Fill(left, turns, calls, size);
    !f.fault && f.count == Min(size, left) && SteadyAfter(left - f.count, turns, f.calls, size)
  }

  lemma {:induction false} HonestSteadyAfter(left: nat, turns: seq<Turn>, calls: nat, size: nat)
    requires AllHonest(turns)
    ensures SteadyAfter(left, turns, calls, size)
    decreases left
  {
    FillHonest(left, turns, calls, size);
    var f := Fill(left, turns, calls, size);
    if f.count > 0 {
      HonestSteadyAfter(left - f.count, turns, f.calls, size);
    }
  }

  /** Every split of an honest reader is one the writer copes with. */
  lemma HonestSteady(left: nat, turns: seq<Turn>, calls: nat, size: nat)
    requires AllHonest(turns)
    ensures Steady(left, turns, calls, size)
  {
    FillHonest(left, turns, calls, size);
    var f := Fill(left, turns, calls, size);
    HonestSteadyAfter(left - f.count, turns, f.calls, size);
  }

  /** The chunks and the bytes never asked for make up the data, and no chunk is too long. */
  ghost predicate Whole(r: Intake, data: bytes, size: nat) {
    Flatten(r.chunks) + r.rest == data && Sized(r.chunks, size)
  }

  lemma BeforeWhole(chunk: bytes, r: Intake, data: bytes, size: nat)
    requires Whole(r, data, size) && |chunk| <= size
    ensures Whole(Before([chunk], r), chunk + data, size)
  {
    FlattenCons(chunk, r.chunks);
    assert chunk + Flatten(r.chunks) + r.rest == chunk + (Flatten(r.chunks) + r.rest);
  }

  /** Nothing is lost or invented between the chunks and the bytes never asked for. */
  lemma {:induction false} IntakeAfterWhole(data: bytes, turns: seq<Turn>, calls: nat, size: nat)
    requires !IntakeAfter(data, turns, calls, size).fault
    ensures Whole(IntakeAfter(data, turns, calls, size), data, size)
    decreases |data|
  {
    hide Fill, Before;
    var f := Fill(|data|, turns, calls, size);
    if f.count > 0 {
      BeforeFault([data[..f.count]], IntakeAfter(data[f.count..], turns, f.calls, size));
      IntakeAfterWhole(data[f.count..], turns, f.calls, size);
      BeforeWhole(data[..f.count], IntakeAfter(data[f.count..], turns, f.calls, size), data[f.count..], size);
      assert data == data[..f.count] + data[f.count..];
    }
  }

  lemma BeforeFault(chunks: seq<bytes>, r: Intake)
    ensures Before(chunks, r).fault == r.fault && Before(chunks, r).rest == r.rest
  {
  }

  lemma IntakeWhole(data: bytes, turns: seq<Turn>, calls: nat, size: nat)
    requires !IntakeOf(data, turns, calls, size).fault
    ensures Whole(IntakeOf(data, turns, calls, size), data, size) && IntakeOf(data, turns, calls, size).chunks != []
  {
    hide Fill, IntakeAfter, Whole;
    var f := Fill(|data|, turns, calls, size);
    IntakeAfterWhole(data[f.count..], turns, f.calls, size);
    BeforeWhole(data[..f.count], IntakeAfter(data[f.count..], turns, f.calls, size), data[f.count..], size);
    assert data == data[..f.count] + data[f.count..];
  }

  /** The chunks but the last come out full and no byte is left behind exactly on a steady schedule. */
  lemma {:induction false} IntakeAfterExactly(data: bytes, turns: seq<Turn>, calls: nat, size: nat, first: bytes)
    requires size > 0 && |first| <= size
    ensures var r := IntakeAfter(data, turns, calls, size);
            !r.fault && r.rest == [] && WellChunked([first] + r.chunks, size)
            <==> SteadyAfter(|data|, turns, calls, size) && (data != [] ==> |first| == size)
    decreases |data|
  {
    var f := Fill(|data|, turns, calls, size);
    if !f.fault && f.count > 0 {
      var next, rest := data[..f.count], data[f.count..];
      IntakeAfterExactly(rest, turns, f.calls, size, next);
      var r := IntakeAfter(rest, turns, f.calls, size);
      var chs := [first] + ([next] + r.chunks);
      WellChunkedTail(chs, size);
      assert chs[1..] == [next] + r.chunks;
    }
  }

  /** The writer takes in the chunks of the plaintext and all of it exactly on a steady schedule. */
  lemma IntakeExactly(data: bytes, turns: seq<Turn>, calls: nat, size: nat)
    requires size > 0
    ensures var r := IntakeOf(data, turns, calls, size);
            !r.fault && r.rest == [] && WellChunked(r.chunks, size) <==> Steady(|data|, turns, calls, size)
  {
    var f := Fill(|data|, turns, calls, size);
    if !f.fault {
      IntakeAfterExactly(data[f.count..], turns, f.calls, size, data[..f.count]);
    }
  }
}
