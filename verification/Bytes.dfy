/** Byte strings, big-endian integers and concatenation of byte-string lists. */
module Bytes {

  type byte = b: int | 0 <= b < 0x100
  type bytes = seq<byte>

  const TWO_32: int := 0x1_0000_0000
  const TWO_64: int := 0x1_0000_0000_0000_0000

  type u32 = x: int | 0 <= x < TWO_32
  type u64 = x: int | 0 <= x < TWO_64

  function Min(a: int, b: int): int {
    if a < b then a else b
  }

  function Zeros(n: nat): (r: bytes)
    ensures |r| == n
  {
    seq(n, _ => 0)
  }

  /** The bytes of a text in ASCII. */
  function Ascii(text: string): (r: bytes)
    requires forall i :: 0 <= i < |text| ==> text[i] < 128 as char
    ensures |r| == |text| && forall i :: 0 <= i < |r| ==> r[i] == text[i] as int
  {
    seq(|text|, i requires 0 <= i < |text| => text[i] as int)
  }

  /** The number of values `width` bytes can hold. */
  function Pow256(width: nat): (r: nat)
    ensures r > 0
  {
    if width == 0 then 1 else 256 * Pow256(width - 1)
  }

  /** `x` in `width` bytes, most significant first; the higher bytes of a larger `x` are dropped. */
  function BigEndian(x: nat, width: nat): (r: bytes)
    ensures |r| == width
  {
    if width == 0 then [] else BigEndian(x / 256, width - 1) + [x % 256]
  }

  function FromBigEndian(s: bytes): nat {
    if s == [] then 0 else FromBigEndian(s[..|s| - 1]) * 256 + s[|s| - 1]
  }

  lemma {:induction false} BigEndianRoundTrip(x: nat, width: nat)
    requires x < Pow256(width)
    ensures FromBigEndian(BigEndian(x, width)) == x
  {
    if width > 0 {
      BigEndianRoundTrip(x / 256, width - 1);
      assert BigEndian(x, width)[..width - 1] == BigEndian(x / 256, width - 1);
    }
  }

  lemma {:induction false} FromBigEndianRoundTrip(s: bytes)
    ensures FromBigEndian(s) < Pow256(|s|)
    ensures BigEndian(FromBigEndian(s), |s|) == s
  {
    if s != [] {
      FromBigEndianRoundTrip(s[..|s| - 1]);
    }
  }

  /** The first byte weighs most. */
  lemma {:induction false} FirstByteWeighs(b: byte, s: bytes)
    ensures FromBigEndian([b] + s) == b * Pow256(|s|) + FromBigEndian(s)
  {
    if s == [] {
      assert ([b] + s)[..0] == [];
    } else {
      var n := |s| - 1;
      FirstByteWeighs(b, s[..n]);
      assert ([b] + s)[..n + 1] == [b] + s[..n];
      assert 256 * (b * Pow256(n)) == b * (256 * Pow256(n));
    }
  }

  lemma Widths()
    ensures Pow256(4) == TWO_32 && Pow256(8) == TWO_64
  {
    assert Pow256(2) == 0x1_0000;
    assert Pow256(4) == 256 * (256 * Pow256(2));
    assert Pow256(6) == 256 * (256 * Pow256(4));
    assert Pow256(8) == 256 * (256 * Pow256(6));
  }

  lemma BigEndianInjective(x: nat, y: nat, width: nat)
    requires x < Pow256(width) && y < Pow256(width)
    requires BigEndian(x, width) == BigEndian(y, width)
    ensures x == y
  {
    BigEndianRoundTrip(x, width);
    BigEndianRoundTrip(y, width);
  }

  /** A uint32 conversion followed by the 4-byte encoding loses nothing below 2^32. */
  lemma Uint32RoundTrip(x: nat)
    requires x < TWO_32
    ensures FromBigEndian(BigEndian(x % TWO_32, 4)) == x
  {
    Widths();
    ModSmall(x, TWO_32);
    BigEndianRoundTrip(x, 4);
  }

  lemma Uint32Found(s: bytes)
    requires |s| == 4
    ensures FromBigEndian(s) < TWO_32 && BigEndian(FromBigEndian(s) % TWO_32, 4) == s
  {
    Widths();
    FromBigEndianRoundTrip(s);
    ModSmall(FromBigEndian(s), TWO_32);
  }

  lemma ModSmall(x: nat, m: nat)
    requires x < m
    ensures x % m == x
  {
  }

  /** A uint64 counter counts modulo 2^64. */
  lemma CounterStep(n: nat)
    ensures (n % TWO_64 + 1) % TWO_64 == (n + 1) % TWO_64
  {
    var q, r := n / TWO_64, n % TWO_64;
    assert n == q * TWO_64 + r;
    if r + 1 == TWO_64 {
      assert n + 1 == (q + 1) * TWO_64;
    } else {
      assert n + 1 == q * TWO_64 + (r + 1);
    }
  }

  /** The concatenation of a list of byte strings. */
  function Flatten(parts: seq<bytes>): bytes {
    if parts == [] then [] else parts[0] + Flatten(parts[1..])
  }

  lemma {:induction false} FlattenConcat(a: seq<bytes>, b: seq<bytes>)
    ensures Flatten(a + b) == Flatten(a) + Flatten(b)
  {
    if a == [] {
      assert a + b == b;
    } else {
      assert (a + b)[1..] == a[1..] + b;
      FlattenConcat(a[1..], b);
    }
  }

  lemma FlattenCons(s: bytes, a: seq<bytes>)
    ensures Flatten([s] + a) == s + Flatten(a)
  {
    assert ([s] + a)[1..] == a;
  }

  lemma FlattenSnoc(a: seq<bytes>, s: bytes)
    ensures Flatten(a + [s]) == Flatten(a) + s
  {
    FlattenConcat(a, [s]);
    assert Flatten([s]) == s;
  }

  /** A prefix of a list flattens to a prefix of the whole. */
  lemma FlattenPrefix(a: seq<bytes>, b: seq<bytes>)
    requires a <= b
    ensures Flatten(a) <= Flatten(b)
  {
  }

  /** Two concatenations with equally long heads agree part by part. */
  lemma SplitEqual(a: bytes, b: bytes, x: bytes, y: bytes)
    requires |a| == |x| && a + b == x + y
    ensures a == x && b == y
  {
    assert a == (a + b)[..|a|];
    assert b == (a + b)[|a|..];
  }
}
