/** CBOR at the level of values (RFC 8949), with the encoder and decoder of the library kept abstract. */
module Cbor {
  import opened Wrappers
  import opened Bytes
  import opened Utf8

  const MAX_INT64: int := 0x7FFF_FFFF_FFFF_FFFF
  const MIN_INT64: int := -0x8000_0000_0000_0000

  type int64 = x: int | MIN_INT64 <= x <= MAX_INT64

  /** The tags of COSE_Sign1 and COSE_Encrypt (section 2 of RFC 9052). */
  const TAG_SIGN1 := 18
  const TAG_ENCRYPT := 96

  /** `Other` stands for every item this model does not look into: floats, simple values, maps with keys
      that are not integers, big numbers. */
  datatype Value =
    | Int(i: int)
    | Bytes(b: bytes)
    | Text(t: bytes)
    | Array(a: seq<Value>)
    | Map(m: map<int, Value>)
    | Tagged(number: nat, content: Value)
    | Null
    | Other

  datatype Codec = Codec(encode: Value -> bytes, decode: bytes -> Option<Value>)

  /** Values of the subset, nested at most `depth` deep, with no tags but those of COSE. */
  predicate Plain(v: Value, depth: nat)
    decreases depth
  {
    match v
    case Int(i) => -TWO_64 <= i < TWO_64
    case Bytes(_) => true
    case Text(_) => true
    case Array(a) => depth > 0 && |a| <= 16 && forall i :: 0 <= i < |a| ==> Plain(a[i], depth - 1)
    case Map(m) => depth > 0 && |m| <= 16 && forall k :: k in m ==> -TWO_64 <= k < TWO_64 && Plain(m[k], depth - 1)
    case Tagged(n, c) => depth > 0 && (n == TAG_SIGN1 || n == TAG_ENCRYPT) && Plain(c, depth - 1)
    case Null => true
    case Other => false
  }

  /** Every text string in the value is UTF-8. */
  predicate TextsValid(v: Value) {
    match v
    case Text(t) => Utf8Valid(t)
    case Array(a) => forall x :: x in a ==> TextsValid(x)
    case Map(m) => forall k :: k in m ==> TextsValid(m[k])
    case Tagged(_, c) => TextsValid(c)
    case _ => true
  }

  /** Decoding inverts encoding on small plain values, except that it refuses text that is not UTF-8, and
      never yields such text. */
  ghost predicate Faithful(codec: Codec) {
    && (forall v :: Plain(v, 8) ==> codec.decode(codec.encode(v)) == if TextsValid(v) then Some(v) else None)
    && (forall b :: codec.decode(b).Some? ==> TextsValid(codec.decode(b).value))
  }

  /** An integer that fits an int64. */
  function Int64Value(v: Value): Option<int64> {
    if v.Int? && MIN_INT64 <= v.i <= MAX_INT64 then Some(v.i) else None
  }

  /** A map with int64 keys; null is an empty one. */
  function AsMap(v: Value): Option<map<int, Value>> {
    match v
    case Map(m) => if forall k :: k in m ==> MIN_INT64 <= k <= MAX_INT64 then Some(m) else None
    case Null => Some(map[])
    case _ => None
  }

  /** A byte-string field of a struct; null is an empty one. */
  function AsBytes(v: Value): Option<bytes> {
    match v
    case Bytes(b) => Some(b)
    case Null => Some([])
    case _ => None
  }

  /** A map lookup: null if the key is absent. */
  function Get(m: map<int, Value>, key: int): Value {
    if key in m then m[key] else Null
  }
}
