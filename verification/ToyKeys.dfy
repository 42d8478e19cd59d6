/** A toy key derivation: keys that are places in a list of origins. */
module ToyKeys {
  import opened Bytes

  function IndexOf<T(==)>(s: seq<T>, x: T): (i: nat)
    ensures i <= |s| && (i < |s| ==> s[i] == x) && (i == |s| ==> x !in s)
  {
    if s == [] || s[0] == x then 0 else 1 + IndexOf(s[1..], x)
  }

  /** The place of the origin in a list of origins, as a key. */
  function ToyKey<T(==)>(origins: seq<T>, x: T): (key: bytes)
    ensures |key| == 32
  {
    BigEndian(IndexOf(origins, x), 8) + Zeros(24)
  }

  lemma ToyKeyUnique<T>(origins: seq<T>, x: T, y: T)
    requires |origins| < TWO_64 && x in origins && ToyKey(origins, x) == ToyKey(origins, y)
    ensures x == y
  {
    var i, j := IndexOf(origins, x), IndexOf(origins, y);
    SplitEqual(BigEndian(i, 8), Zeros(24), BigEndian(j, 8), Zeros(24));
    Widths();
    BigEndianInjective(i, j, 8);
  }
}
