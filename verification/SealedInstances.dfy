/** A toy codec and toy primitives that meet each assumption of the sealed invocations, so that none is empty. */
module SealedInstances {
  import opened Wrappers
  import opened Bytes
  import opened Cbor
  import opened SealedInvocation
  import opened ProtectedHeader
  import opened SealedOpening
  import opened SealedBinding
  import opened ToyKeys

  // ---------- a prefix-free encoding of values ----------

  ghost function Word(i: int): bytes {
    if i < 0 then [1] + BigEndian(-1 - i, 8) else [0] + BigEndian(i, 8)
  }

  ghost function Str(b: bytes): bytes {
    if b == [] then [0] else [1, b[0]] + Str(b[1..])
  }

  /** The elements of a set in some order, always the same for the same set. */
  ghost function Order(s: set<int>): (r: seq<int>)
    ensures forall k :: k in r <==> k in s
  {
    if exists k :: k in s then
      var k :| k in s;
      [k] + Order(s - {k})
    else []
  }

  function Kind(v: Value): byte {
    match v
    case Int(_) => 0
    case Bytes(_) => 1
    case Text(_) => 2
    case Array(_) => 3
    case Map(_) => 4
    case Tagged(_, _) => 5
    case Null => 6
    case Other => 7
  }

  ghost function Enc(v: Value): bytes
    decreases v, 2, 0
  {
    [Kind(v)] + Body(v)
  }

  ghost function Body(v: Value): bytes
    decreases v, 1, 0
  {
    match v
    case Int(i) => Word(i)
    case Bytes(b) => Str(b)
    case Text(t) => Str(t)
    case Array(_) => Items(v, 0)
    case Map(m) => Entries(v, Order(m.Keys))
    case Tagged(n, c) => Word(n) + Enc(c)
    case Null => []
    case Other => []
  }

  ghost function Items(v: Value, i: nat): bytes
    requires v.Array? && i <= |v.a|
    decreases v, 0, |v.a| - i
  {
    if i == |v.a| then [0] else [1] + Enc(v.a[i]) + Items(v, i + 1)
  }

  ghost function Entries(v: Value, keys: seq<int>): bytes
    requires v.Map? && forall k :: k in keys ==> k in v.m
    decreases v, 0, |keys|
  {
    if keys == [] then [0] else [1] + Word(keys[0]) + Enc(v.m[keys[0]]) + Entries(v, keys[1..])
  }

  // ---------- it is injective ----------

  lemma WordPrefix(i: int, j: int, x: bytes, y: bytes)
    requires -TWO_64 <= i < TWO_64 && -TWO_64 <= j < TWO_64 && Word(i) + x == Word(j) + y
    ensures i == j && x == y
  {
    hide BigEndian;
    SplitEqual(Word(i), x, Word(j), y);
    var m, n := if i < 0 then -1 - i else i, if j < 0 then -1 - j else j;
    assert Word(i)[0] == Word(j)[0] && Word(i)[1..] == BigEndian(m, 8) && Word(j)[1..] == BigEndian(n, 8);
    Widths();
    BigEndianInjective(m, n, 8);
  }

  lemma {:induction false} StrPrefix(b: bytes, c: bytes, x: bytes, y: bytes)
    requires Str(b) + x == Str(c) + y
    ensures b == c && x == y
  {
    var l, r := Str(b) + x, Str(c) + y;
    assert l[0] == r[0];
    if b == [] {
      SplitEqual([0], x, [0], y);
    } else {
      assert c != [];
      assert l[1] == b[0] && r[1] == c[0];
      assert l[2..] == Str(b[1..]) + x && r[2..] == Str(c[1..]) + y;
      StrPrefix(b[1..], c[1..], x, y);
      assert b == [b[0]] + b[1..] && c == [c[0]] + c[1..];
    }
  }

  lemma SameHead(h: byte, k: byte, x: bytes, y: bytes)
    requires [h] + x == [k] + y
    ensures h == k && x == y
  {
    SplitEqual([h], x, [k], y);
  }

  /** No encoding is a prefix of another's. */
  lemma {:induction false} EncPrefix(v: Value, w: Value, d: nat, x: bytes, y: bytes)
    requires Plain(v, d) && Plain(w, d) && Enc(v) + x == Enc(w) + y
    ensures v == w && x == y
    decreases d, 3, 0
  {
    hide Word, Str, Items, Entries, Body, Plain;
    assert Enc(v) + x == [Kind(v)] + (Body(v) + x);
    assert Enc(w) + y == [Kind(w)] + (Body(w) + y);
    SameHead(Kind(v), Kind(w), Body(v) + x, Body(w) + y);
    BodyPrefix(v, w, d, x, y);
  }

  lemma {:induction false} BodyPrefix(v: Value, w: Value, d: nat, x: bytes, y: bytes)
    requires Plain(v, d) && Plain(w, d) && Kind(v) == Kind(w) && Body(v) + x == Body(w) + y
    ensures v == w && x == y
    decreases d, 2, 0
  {
    hide Enc, Word, Str, Items, Entries;
    match v {
      case Int(i) => WordPrefix(i, w.i, x, y);
      case Bytes(b) => StrPrefix(b, w.b, x, y);
      case Text(t) => StrPrefix(t, w.t, x, y);
      case Array(_) => ItemsPrefix(v, w, 0, d, x, y);
      case Map(_) => MapPrefix(v, w, d, x, y);
      case Tagged(_, _) => TaggedPrefix(v, w, d, x, y);
      case _ => SplitEqual([], x, [], y);
    }
  }

  lemma {:induction false} TaggedPrefix(v: Value, w: Value, d: nat, x: bytes, y: bytes)
    requires v.Tagged? && w.Tagged? && Plain(v, d) && Plain(w, d) && Body(v) + x == Body(w) + y
    ensures v == w && x == y
    decreases d, 1, 0
  {
    hide Enc, Word;
    assert Body(v) + x == Word(v.number) + (Enc(v.content) + x);
    assert Body(w) + y == Word(w.number) + (Enc(w.content) + y);
    WordPrefix(v.number, w.number, Enc(v.content) + x, Enc(w.content) + y);
    EncPrefix(v.content, w.content, d - 1, x, y);
  }

  lemma {:induction false} MapPrefix(v: Value, w: Value, d: nat, x: bytes, y: bytes)
    requires v.Map? && w.Map? && Plain(v, d) && Plain(w, d) && Body(v) + x == Body(w) + y
    ensures v == w && x == y
    decreases d, 1, 0
  {
    hide Enc, Entries, Order;
    EntriesPrefix(v, w, Order(v.m.Keys), Order(w.m.Keys), d, x, y);
    forall k
      ensures k in v.m.Keys <==> k in w.m.Keys
    {
      assert k in Order(v.m.Keys) <==> k in Order(w.m.Keys);
    }
    assert v.m.Keys == w.m.Keys;
    forall k | k in v.m
      ensures v.m[k] == w.m[k]
    {
      assert k in v.m.Keys && k in Order(v.m.Keys);
    }
    assert v.m == w.m;
  }

  lemma {:induction false} ItemsPrefix(v: Value, w: Value, i: nat, d: nat, x: bytes, y: bytes)
    requires v.Array? && w.Array? && i <= |v.a| && i <= |w.a| && Plain(v, d) && Plain(w, d)
    requires v.a[..i] == w.a[..i] && Items(v, i) + x == Items(w, i) + y
    ensures v == w && x == y
    decreases d, 0, |v.a| - i
  {
    hide Enc;
    assert (Items(v, i) + x)[0] == (Items(w, i) + y)[0];
    if i == |v.a| {
      SameHead(0, 0, x, y);
    } else {
      var r, s := Items(v, i + 1) + x, Items(w, i + 1) + y;
      assert Items(v, i) + x == [1] + (Enc(v.a[i]) + r);
      assert Items(w, i) + y == [1] + (Enc(w.a[i]) + s);
      SameHead(1, 1, Enc(v.a[i]) + r, Enc(w.a[i]) + s);
      EncPrefix(v.a[i], w.a[i], d - 1, r, s);
      ItemsPrefix(v, w, i + 1, d, x, y);
    }
  }

  lemma {:induction false} EntriesPrefix(v: Value, w: Value, ks: seq<int>, ls: seq<int>, d: nat, x: bytes, y: bytes)
    requires v.Map? && w.Map? && Plain(v, d) && Plain(w, d)
    requires (forall k :: k in ks ==> k in v.m) && (forall k :: k in ls ==> k in w.m)
    requires Entries(v, ks) + x == Entries(w, ls) + y
    ensures ks == ls && (forall k :: k in ks ==> v.m[k] == w.m[k]) && x == y
    decreases d, 0, |ks|
  {
    hide Enc, Word;
    assert (Entries(v, ks) + x)[0] == (Entries(w, ls) + y)[0];
    if ks == [] {
      SameHead(0, 0, x, y);
    } else {
      var r, s := Entries(v, ks[1..]) + x, Entries(w, ls[1..]) + y;
      var r', s' := Enc(v.m[ks[0]]) + r, Enc(w.m[ls[0]]) + s;
      assert Entries(v, ks) + x == [1] + (Word(ks[0]) + r');
      assert Entries(w, ls) + y == [1] + (Word(ls[0]) + s');
      SameHead(1, 1, Word(ks[0]) + r', Word(ls[0]) + s');
      WordPrefix(ks[0], ls[0], r', s');
      EncPrefix(v.m[ks[0]], w.m[ls[0]], d - 1, r, s);
      EntriesPrefix(v, w, ks[1..], ls[1..], d, x, y);
      assert ks == [ks[0]] + ks[1..] && ls == [ls[0]] + ls[1..];
    }
  }

  // ---------- a faithful codec ----------

  ghost predicate Decodes(v: Value, b: bytes) {
    Plain(v, 8) && TextsValid(v) && Enc(v) == b
  }

  ghost function Dec(b: bytes): Option<Value> {
    if exists v :: Decodes(v, b) then
      var v :| Decodes(v, b);
      Some(v)
    else None
  }

  lemma FaithfulInstance() returns (codec: Codec)
    ensures Faithful(codec)
  {
    codec := Codec(v => Enc(v), b => Dec(b));
    hide Enc, Plain, TextsValid;
    forall v | Plain(v, 8)
      ensures codec.decode(codec.encode(v)) == if TextsValid(v) then Some(v) else None
    {
      forall w | Decodes(w, Enc(v))
        ensures w == v
      {
        EncPrefix(v, w, 8, [], []);
      }
      assert TextsValid(v) ==> Decodes(v, Enc(v));
    }
  }

  // ---------- primitives ----------

  ghost function Toy(codec: Codec, verify: (bytes, bytes, bytes) -> bool): Primitives {
    Primitives(codec, seed => seed, (seed, m) => [], verify, private => private, (private, public) => Some([]),
               (secret, info) => Zeros(32), (k, n, m, ad) => m, (k, n, c, ad) => Some(c), m => Zeros(32))
  }

  lemma WorkingInstance() returns (p: Primitives)
    ensures Agrees(p) && Verifies(p)
  {
    var codec := FaithfulInstance();
    p := Toy(codec, (public, m, signature) => true);
    hide Faithful;
  }

  /** For every list of messages there are primitives under which only those are signed. */
  lemma SignedOnlyInstance(public: bytes, log: seq<Sealing>) returns (p: Primitives)
    ensures Agrees(p) && SignedOnly(p, public, log)
    ensures forall s, m :: s in log && SignedBy(p, s, m) ==> p.verify(public, m, [])
  {
    var codec := FaithfulInstance();
    var q := Toy(codec, (public, m, signature) => true);
    var verify := (public: bytes, m: bytes, signature: bytes) => exists j :: 0 <= j < |log| && SignedBy(q, log[j], m);
    p := q.(verify := verify);
    hide Faithful;
    forall s, m
      ensures SignedBy(p, s, m) == SignedBy(q, s, m)
    {
    }
  }

  // ---------- a world of sealings ----------

  function Sum(x: int, y: int): byte {
    (x + y) % 256
  }

  /** A toy key agreement: the sum of the keys, byte by byte. */
  function Mix(a: bytes, b: bytes): bytes {
    seq(32, i requires 0 <= i < 32 => if i < |a| && i < |b| then Sum(a[i], b[i]) else 0)
  }

  lemma MixCommutes(a: bytes, b: bytes)
    ensures Mix(a, b) == Mix(b, a)
  {
  }

  function KeyOrigin(codec: Codec, s: Sealing): (bytes, bytes) {
    (Mix(s.ephemeral, s.recipientPublic), KdfContext(codec, ALG_A256GCM, RecipientHeaderBytes(codec)))
  }

  function KeyOrigins(codec: Codec, log: seq<Sealing>): seq<(bytes, bytes)> {
    seq(|log|, i requires 0 <= i < |log| => KeyOrigin(codec, log[i]))
  }

  ghost function ToySealing(codec: Codec, log: seq<Sealing>, open: (bytes, bytes, bytes, bytes) -> Option<bytes>): Primitives {
    Primitives(codec, seed => seed, (seed, m) => [], (public, m, signature) => true, private => private,
               (private, public) => Some(Mix(private, public)),
               (secret, info) => ToyKey(KeyOrigins(codec, log), (secret, info)), (k, n, m, ad) => m, open, m => Zeros(32))
  }

  /** Who signs what does not matter here; what is opened is looked up among the sealings. */
  ghost predicate Listed(q: Primitives, log: seq<Sealing>, k: bytes, n: bytes, c: bytes, ad: bytes) {
    exists i :: 0 <= i < |log| && Agreed(q, log[i]) && SealedAs(q, log[i], k, n, c, ad, c)
  }

  lemma SameSeals(p: Primitives, q: Primitives, s: Sealing, k: bytes, n: bytes, c: bytes, ad: bytes, m: bytes)
    requires p == q.(open := p.open)
    ensures Agreed(p, s) == Agreed(q, s)
    ensures Agreed(p, s) ==> SealedAs(p, s, k, n, c, ad, m) == SealedAs(q, s, k, n, c, ad, m)
  {
  }

  lemma ToyKeyOrigin(codec: Codec, log: seq<Sealing>, i: nat, secret: bytes, info: bytes)
    requires i < |log| < TWO_64
    requires ToyKey(KeyOrigins(codec, log), (secret, info)) == ToyKey(KeyOrigins(codec, log), KeyOrigin(codec, log[i]))
    ensures (secret, info) == KeyOrigin(codec, log[i])
  {
    hide ToyKey, KeyOrigin;
    assert KeyOrigins(codec, log)[i] == KeyOrigin(codec, log[i]);
    ToyKeyUnique(KeyOrigins(codec, log), KeyOrigin(codec, log[i]), (secret, info));
  }

  /** For every list of sealings there are primitives with a key agreement under which, for the holder of any
      private key at all, only those sealings open. */
  lemma OnlySealedInstance(log: seq<Sealing>) returns (p: Primitives)
    requires |log| < TWO_64 && forall i :: 0 <= i < |log| ==> log[i].Valid()
    ensures Faithful(p.codec) && forall private :: OnlySealed(p, private, log)
    ensures forall a, b :: p.dh(a, p.dhPublic(b)) == p.dh(b, p.dhPublic(a))
  {
    var codec := FaithfulInstance();
    hide Faithful, ToyKey, Mix, EncStructure, KdfContext, EncodeProtected, RecipientHeaderBytes;
    var q := ToySealing(codec, log, (k, n, c, ad) => None);
    p := ToySealing(codec, log, (k, n, c, ad) => if Listed(q, log, k, n, c, ad) then Some(c) else None);
    forall a, b
      ensures p.dh(a, p.dhPublic(b)) == p.dh(b, p.dhPublic(a))
    {
      MixCommutes(a, b);
    }
    forall private
      ensures OnlySealed(p, private, log)
    {
      OnlySealedHolds(p, q, private, log);
    }
  }

  lemma OnlySealedHolds(p: Primitives, q: Primitives, private: bytes, log: seq<Sealing>)
    requires |log| < TWO_64 && forall i :: 0 <= i < |log| ==> log[i].Valid()
    requires q == ToySealing(p.codec, log, q.open) && p == ToySealing(p.codec, log, p.open)
    requires forall k, n, c, ad :: p.open(k, n, c, ad) == if Listed(q, log, k, n, c, ad) then Some(c) else None
    ensures OnlySealed(p, private, log)
  {
    hide ToyKey, Mix, EncStructure, KdfContext, EncodeProtected, RecipientHeaderBytes;
    forall s, k, n, c, ad, m
      ensures Agreed(p, s) == Agreed(q, s)
      ensures Agreed(p, s) ==> SealedAs(p, s, k, n, c, ad, m) == SealedAs(q, s, k, n, c, ad, m)
    {
      SameSeals(p, q, s, k, n, c, ad, m);
    }
    forall i | 0 <= i < |log|
      ensures Agreed(p, log[i]) && Reopens(p, log[i])
    {
      var s := log[i];
      assert SealedAs(q, s, KeyFrom(p, Secret(p, s)), s.nonce, SealedContent(p, s),
                      EncStructure(p.codec, EncodeProtected(p.codec, s.contentType, s.claims)), s.plaintext);
    }
    forall i, public, info | 0 <= i < |log| && Reaches(p, private, public, info, KeyFrom(p, Secret(p, log[i])))
      ensures p.dh(private, public).value == Secret(p, log[i])
      ensures info == KdfContext(p.codec, ALG_A256GCM, RecipientHeaderBytes(p.codec))
    {
      ToyKeyOrigin(p.codec, log, i, p.dh(private, public).value, info);
    }
  }
}
