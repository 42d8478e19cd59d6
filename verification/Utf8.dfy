/** Well-formed UTF-8 (section 4 of RFC 3629), as Go's utf8.Valid decides it. */
module Utf8 {
  import opened Bytes

  predicate Continuation(b: byte) {
    0x80 <= b <= 0xBF
  }

  /** The number of bytes of the character at the head of `s`, or 0 if there is none. */
  function RuneLength(s: bytes): (n: nat)
    ensures n <= |s|
  {
    if s == [] then 0
    else if s[0] < 0x80 then 1
    else if |s| < 2 then 0
    else if 0xC2 <= s[0] <= 0xDF then
      if Continuation(s[1]) then 2 else 0
    else if |s| < 3 then 0
    else if 0xE0 <= s[0] <= 0xEF then
      if (if s[0] == 0xE0 then 0xA0 <= s[1] <= 0xBF
          else if s[0] == 0xED then 0x80 <= s[1] <= 0x9F
          else Continuation(s[1])) && Continuation(s[2])
      then 3 else 0
    else if |s| < 4 then 0
    else if 0xF0 <= s[0] <= 0xF4 then
      if (if s[0] == 0xF0 then 0x90 <= s[1] <= 0xBF
          else if s[0] == 0xF4 then 0x80 <= s[1] <= 0x8F
          else Continuation(s[1])) && Continuation(s[2]) && Continuation(s[3])
      then 4 else 0
    else 0
  }

  predicate Utf8Valid(s: bytes)
    decreases |s|
  {
    s == [] || (RuneLength(s) > 0 && Utf8Valid(s[RuneLength(s)..]))
  }

  // ---------- the characters encoded ----------

  /** A Unicode scalar value: a code point that is not a surrogate. */
  predicate Scalar(c: nat) {
    c < 0xD800 || 0xE000 <= c <= 0x10FFFF
  }

  /** One character, as the table in section 3 of RFC 3629 encodes it: six bits in each byte after the first. */
  function Encode(c: nat): (r: bytes)
    requires Scalar(c)
    ensures |r| > 0
  {
    if c <= 0x7F then [c]
    else if c <= 0x7FF then [0xC0 + c / 64, 0x80 + c % 64]
    else if c <= 0xFFFF then [0xE0 + c / 4096, 0x80 + c / 64 % 64, 0x80 + c % 64]
    else [0xF0 + c / 262144, 0x80 + c / 4096 % 64, 0x80 + c / 64 % 64, 0x80 + c % 64]
  }

  function EncodeAll(cs: seq<nat>): bytes
    requires forall i :: 0 <= i < |cs| ==> Scalar(cs[i])
  {
    if cs == [] then [] else Encode(cs[0]) + EncodeAll(cs[1..])
  }

  /** The bytes encode these characters. */
  ghost predicate Encodes(s: bytes, cs: seq<nat>) {
    (forall i :: 0 <= i < |cs| ==> Scalar(cs[i])) && s == EncodeAll(cs)
  }

  /** The low six bits of a byte after the first. */
  function Low(b: byte): (r: int)
    ensures Continuation(b) ==> 0 <= r < 64
  {
    b - 0x80
  }

  /** Taking six-bit groups apart. */
  lemma SixBits(q: nat, r: nat)
    requires r < 64
    ensures (q * 64 + r) / 64 == q && (q * 64 + r) % 64 == r
  {
  }

  lemma Groups(c: nat)
    ensures c / 4096 == c / 64 / 64 && c / 262144 == c / 64 / 64 / 64
    ensures c == c / 64 * 64 + c % 64
  {
  }

  /** The head of a string of characters is the encoding of its first. */
  lemma RuneOf(c: nat, rest: bytes)
    requires Scalar(c)
    ensures RuneLength(Encode(c) + rest) == |Encode(c)|
  {
    if c > 0xFFFF {
      FourOf(c, rest);
    } else if c > 0x7FF {
      var s, q := Encode(c) + rest, c / 64;
      Groups(c);
      Groups(q);
      assert s[0] == 0xE0 + q / 64 && s[1] == 0x80 + q % 64 && s[2] == 0x80 + c % 64;
    }
  }

  lemma FourOf(c: nat, rest: bytes)
    requires 0xFFFF < c <= 0x10FFFF
    ensures RuneLength(Encode(c) + rest) == 4
  {
    var s, q, p := Encode(c) + rest, c / 64, c / 4096;
    Groups(c);
    Groups(q);
    Groups(p);
    assert s[0] == 0xF0 + p / 64 && s[1] == 0x80 + p % 64 && s[2] == 0x80 + q % 64 && s[3] == 0x80 + c % 64;
  }

  lemma ThreeFound(s: bytes) returns (c: nat)
    requires RuneLength(s) == 3
    ensures Scalar(c) && Encode(c) == s[..3]
  {
    var x: int := s[0];
    c := ((x - 0xE0) * 64 + Low(s[1])) * 64 + Low(s[2]);
    SixBits(x - 0xE0, Low(s[1]));
    SixBits((x - 0xE0) * 64 + Low(s[1]), Low(s[2]));
    Groups(c);
  }

  lemma FourFound(s: bytes) returns (c: nat)
    requires RuneLength(s) == 4
    ensures Scalar(c) && Encode(c) == s[..4]
  {
    var p: int := s[0];
    var q := (p - 0xF0) * 64 + Low(s[1]);
    var r := q * 64 + Low(s[2]);
    c := r * 64 + Low(s[3]);
    SixBits(p - 0xF0, Low(s[1]));
    SixBits(q, Low(s[2]));
    SixBits(r, Low(s[3]));
    Groups(c);
    hide RuneLength;
    assert Encode(c) == [s[0], s[1], s[2], s[3]];
  }

  /** And what RuneLength takes off is the encoding of some character. */
  lemma RuneFound(s: bytes) returns (c: nat)
    requires RuneLength(s) > 0
    ensures Scalar(c) && Encode(c) == s[..RuneLength(s)]
  {
    var n := RuneLength(s);
    var x: int := s[0];
    if n == 1 {
      c := x;
    } else if n == 2 {
      c := (x - 0xC0) * 64 + Low(s[1]);
      SixBits(x - 0xC0, Low(s[1]));
    } else if n == 3 {
      c := ThreeFound(s);
    } else {
      c := FourFound(s);
    }
  }

  lemma {:induction false} EncodedIsValid(cs: seq<nat>)
    requires forall i :: 0 <= i < |cs| ==> Scalar(cs[i])
    ensures Utf8Valid(EncodeAll(cs))
  {
    if cs != [] {
      RuneOf(cs[0], EncodeAll(cs[1..]));
      hide RuneLength, Encode;
      EncodedIsValid(cs[1..]);
      var s := EncodeAll(cs);
      assert s[RuneLength(s)..] == EncodeAll(cs[1..]);
    }
  }

  lemma EncodesCons(c: nat, cs: seq<nat>, s: bytes, t: bytes)
    requires Scalar(c) && Encode(c) == s && Encodes(t, cs)
    ensures Encodes(s + t, [c] + cs)
  {
    hide Encode, Scalar;
    assert ([c] + cs)[1..] == cs;
  }

  lemma NothingEncoded()
    ensures Encodes([], [])
  {
  }

  lemma {:induction false} ValidIsEncoded(s: bytes) returns (cs: seq<nat>)
    requires Utf8Valid(s)
    ensures Encodes(s, cs)
    decreases |s|
  {
    hide RuneLength, Encode, Encodes;
    cs := [];
    if s == [] {
      assert Encodes(s, []) by {
        NothingEncoded();
      }
    } else {
      var n := RuneLength(s);
      var c := RuneFound(s);
      var rest := ValidIsEncoded(s[n..]);
      cs := [c] + rest;
      EncodesCons(c, rest, s[..n], s[n..]);
      assert s == s[..n] + s[n..];
    }
  }

  /** Valid are exactly the encodings of sequences of Unicode scalar values: no surrogates, nothing above
      U+10FFFF, and no character in more bytes than it needs. */
  lemma Utf8Exact(s: bytes)
    ensures Utf8Valid(s) <==> exists cs :: Encodes(s, cs)
  {
    hide Utf8Valid, EncodeAll;
    if Utf8Valid(s) {
      var cs := ValidIsEncoded(s);
    }
    if cs :| Encodes(s, cs) {
      EncodedIsValid(cs);
    }
  }

  lemma {:induction false} AsciiIsUtf8(s: bytes)
    requires forall i :: 0 <= i < |s| ==> s[i] < 0x80
    ensures Utf8Valid(s)
  {
    if s != [] {
      AsciiIsUtf8(s[1..]);
    }
  }
}
