/** How a plaintext is cut into chunks. */
module Chunking {
  import opened Bytes

  /** The chunks the writer's look-ahead produces: an exact multiple ends in a full chunk, an empty
      plaintext is one empty chunk. */
  function Chunks(p: bytes, size: nat): (chs: seq<bytes>)
    requires size > 0
    ensures chs != []
    decreases |p|
  {
    if |p| <= size then [p] else [p[..size]] + Chunks(p[size..], size)
  }

  /** What a reader insists on: full chunks, then one of at most `size` bytes. */
  ghost predicate WellChunked(chs: seq<bytes>, size: nat) {
    && chs != []
    && (forall k :: 0 <= k < |chs| - 1 ==> |chs[k]| == size)
    && |chs[|chs| - 1]| <= size
  }

  /** No chunk is longer than `size`. */
  ghost predicate Sized(chs: seq<bytes>, size: nat) {
    forall k :: 0 <= k < |chs| ==> |chs[k]| <= size
  }

  /** A list with an empty final chunk after at least one other: accepted, but never written. */
  predicate TrailingEmpty(chs: seq<bytes>) {
    |chs| > 1 && chs[|chs| - 1] == []
  }

  lemma WellChunkedTail(chs: seq<bytes>, size: nat)
    requires |chs| > 1
    ensures WellChunked(chs, size) <==> |chs[0]| == size && WellChunked(chs[1..], size)
  {
  }

  lemma {:induction false} ChunksWellChunked(p: bytes, size: nat)
    requires size > 0
    ensures WellChunked(Chunks(p, size), size)
    ensures !TrailingEmpty(Chunks(p, size))
    ensures Flatten(Chunks(p, size)) == p
    decreases |p|
  {
    if |p| <= size {
      assert Flatten([p]) == p;
    } else {
      ChunksWellChunked(p[size..], size);
      var rest := Chunks(p[size..], size);
      assert Chunks(p, size)[1..] == rest;
      assert p == p[..size] + p[size..];
    }
  }

  lemma {:induction false} FlattenLength(chs: seq<bytes>, size: nat)
    requires WellChunked(chs, size)
    ensures |Flatten(chs)| == (|chs| - 1) * size + |chs[|chs| - 1]|
  {
    if |chs| == 1 {
      assert Flatten(chs) == chs[0];
    } else {
      FlattenLength(chs[1..], size);
      assert (|chs| - 1) * size == (|chs| - 2) * size + size;
    }
  }

  /** `Chunks` is the only well-formed cut of its plaintext without a trailing empty chunk. */
  lemma {:induction false} ChunksUnique(chs: seq<bytes>, size: nat)
    requires size > 0 && WellChunked(chs, size)
    ensures Chunks(Flatten(chs), size) == chs <==> !TrailingEmpty(chs)
    decreases |chs|
  {
    var p := Flatten(chs);
    if |chs| == 1 {
      assert p == chs[0];
    } else {
      var rest := chs[1..];
      ChunksUnique(rest, size);
      assert p[..size] == chs[0] && p[size..] == Flatten(rest);
      FlattenLength(rest, size);
      if Flatten(rest) == [] {
        assert Flatten(rest) == rest[0] + Flatten(rest[1..]);
        assert TrailingEmpty(chs);
        assert |Chunks(p, size)| == 1;
      } else {
        assert !TrailingEmpty(chs) <==> !TrailingEmpty(rest);
        assert Chunks(p, size) == [chs[0]] + Chunks(Flatten(rest), size);
        assert chs == [chs[0]] + rest;
        if Chunks(p, size) == chs {
          assert Chunks(p, size)[1..] == Chunks(Flatten(rest), size);
        }
      }
    }
  }

  /** max(1, ceil(n / size)) */
  function ChunkCount(n: nat, size: nat): nat
    requires size > 0
  {
    if n == 0 then 1 else (n + size - 1) / size
  }

  lemma DivStep(y: nat, size: nat)
    requires size > 0
    ensures (y + size) / size == y / size + 1
  {
    var q := y / size;
    assert y == q * size + y % size;
    assert y + size == (q + 1) * size + y % size;
    DivUnique(y + size, size, q + 1, y % size);
  }

  lemma MulAtLeast(a: nat, b: nat)
    requires a > 0
    ensures a * b >= b
  {
  }

  lemma DivUnique(n: nat, size: nat, q: nat, r: nat)
    requires size > 0 && r < size && n == q * size + r
    ensures n / size == q
  {
    var q' := n / size;
    if q > q' {
      assert q * size == q' * size + (q - q') * size;
      MulAtLeast(q - q', size);
    } else if q < q' {
      assert q' * size == q * size + (q' - q) * size;
      MulAtLeast(q' - q, size);
    }
  }

  lemma ModUnique(n: nat, size: nat, q: nat, r: nat)
    requires size > 0 && r < size && n == q * size + r
    ensures n % size == r
  {
    DivUnique(n, size, q, r);
    assert n == n / size * size + n % size;
  }

  /** Counted with 20 bytes for each chunk, the length of a well-formed cut tells a superfluous empty chunk. */
  lemma TrailingEmptyByLength(chs: seq<bytes>, size: nat)
    requires size > 0 && WellChunked(chs, size)
    ensures var n := |Flatten(chs)| + 20 * |chs|;
            TrailingEmpty(chs) <==> n > 20 && n % (size + 20) == 20
  {
    FlattenLength(chs, size);
    var full, last := |chs| - 1, |chs[|chs| - 1]|;
    var n := |Flatten(chs)| + 20 * |chs|;
    assert last <= size;
    hide Flatten, WellChunked;
    assert n == full * (size + 20) + (20 + last);
    if last < size {
      ModUnique(n, size + 20, full, 20 + last);
      if full > 0 { MulAtLeast(full, size + 20); }
    } else {
      assert n == (full + 1) * (size + 20) + 0;
      ModUnique(n, size + 20, full + 1, 0);
    }
  }

  lemma {:induction false} ChunksCount(p: bytes, size: nat)
    requires size > 0
    ensures |Chunks(p, size)| == ChunkCount(|p|, size)
    decreases |p|
  {
    if 0 < |p| <= size {
      DivUnique(|p| + size - 1, size, 1, |p| - 1);
    } else if |p| > size {
      ChunksCount(p[size..], size);
      DivStep(|p| - 1, size);
    }
  }
}
