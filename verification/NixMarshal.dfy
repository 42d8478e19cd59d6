/** What the strict codec's Marshal lets through, and how long the longest messages are. */
module NixMarshal {
  import opened Wrappers
  import opened Bytes
  import opened Utf8
  import opened Wire
  import opened NixSchema
  import opened NixPreflight
  import opened NixCodec

  /** Lengths and numbers that fit a 64-bit varint. */
  predicate Encodable(v: Value) {
    match v
    case Bytes(b) => |b| < TWO_64
    case Varint(x) => x < TWO_64
  }

  predicate AllEncodable(fs: seq<Value>) {
    forall i :: 0 <= i < |fs| ==> Encodable(fs[i])
  }

  lemma CanonicalItemWellFormed(n: nat, v: Value)
    requires 1 <= n <= 6 && Encodable(v)
    ensures CanonicalItem(n, v).WellFormed() && CanonicalItem(n, v).Value() == v
  {
    AppendVarintRoundTrip(8 * n + WireTypeOf(v));
    match v
    case Bytes(b) => AppendVarintRoundTrip(|b|);
    case Varint(x) => AppendVarintRoundTrip(x);
  }

  /** The canonical fields of `fs`, numbered from `n`: the non-default ones, each once. */
  ghost predicate Lists(items: seq<Item>, fs: seq<Value>, n: nat) {
    && Distinct(items)
    && (forall i :: 0 <= i < |items| ==> ListsOne(items[i], fs, n))
    && (forall k :: 0 <= k < |fs| && !IsDefault(fs[k]) ==> HasNumber(items, n + k))
  }

  ghost predicate ListsOne(item: Item, fs: seq<Value>, n: nat) {
    && n <= item.number < n + |fs|
    && item == CanonicalItem(item.number, fs[item.number - n]) && !IsDefault(fs[item.number - n])
  }

  lemma ListsOneShift(items: seq<Item>, fs: seq<Value>, n: nat)
    requires fs != [] && Lists(items, fs[1..], n + 1)
    ensures forall i :: 0 <= i < |items| ==> ListsOne(items[i], fs, n) && items[i].number != n
    ensures forall k :: 0 < k < |fs| && !IsDefault(fs[k]) ==> HasNumber(items, n + k)
  {
    hide HasNumber, CanonicalItem, IsDefault;
    var tail := fs[1..];
    forall i | 0 <= i < |items|
      ensures ListsOne(items[i], fs, n) && items[i].number != n
    {
      assert ListsOne(items[i], tail, n + 1);
    }
    forall k | 0 < k < |fs| && !IsDefault(fs[k])
      ensures HasNumber(items, n + k)
    {
      assert tail[k - 1] == fs[k] && HasNumber(items, n + 1 + (k - 1));
      assert n + 1 + (k - 1) == n + k;
    }
  }

  lemma {:induction false} CanonicalLists(fs: seq<Value>, n: nat)
    ensures Lists(CanonicalItems(fs, n), fs, n)
    decreases |fs|
  {
    if fs != [] {
      var head, rest := CanonicalItem(n, fs[0]), CanonicalItems(fs[1..], n + 1);
      assert head.number == n;
      hide HasNumber, Distinct, CanonicalItem, IsDefault;
      CanonicalLists(fs[1..], n + 1);
      ListsOneShift(rest, fs, n);
      if !IsDefault(fs[0]) {
        var items := [head] + rest;
        assert CanonicalItems(fs, n) == items;
        DistinctCons(head, rest);
        forall k | 0 <= k < |fs| && !IsDefault(fs[k])
          ensures HasNumber(items, n + k)
        {
          HasNumberCons(head, rest, n + k);
        }
      }
    }
  }

  // ---------- sizes ----------

  function ItemSize(n: nat, v: Value): nat {
    |CanonicalItem(n, v).tag| + |CanonicalItem(n, v).Body()|
  }

  /** The longest encoding a field of this kind can take. */
  function SizeBound(kind: Kind): nat {
    match kind
    case KeyId => 259
    case KeyName => 131
    case PublicKey => 34
    case Identifier => 18
    case Profile => 14
    case Fingerprint => 524630
    case Signature => 66
    case BackendVersion => 2
    case EnrollmentDisposition => 2
  }

  lemma VarintLength(v: nat)
    ensures v < 0x80 ==> |AppendVarint(v)| == 1
    ensures 0x80 <= v < 0x4000 ==> |AppendVarint(v)| == 2
    ensures 0x4000 <= v < 0x20_0000 ==> |AppendVarint(v)| == 3
  {
    if v >= 0x80 {
      assert |AppendVarint(v)| == 1 + |AppendVarint(v / 128)|;
      if v >= 0x4000 {
        assert |AppendVarint(v / 128)| == 1 + |AppendVarint(v / 128 / 128)|;
      }
    }
  }

  lemma ItemBound(schema: Schema, n: nat, v: Value)
    requires 1 <= n <= 6 && FieldValid(schema, n, v)
    ensures ItemSize(n, v) <= SizeBound(FieldRule(schema, n).value.0)
    ensures !IsDefault(v) && Encodable(v)
  {
    VarintLength(8 * n + WireTypeOf(v));
    match v
    case Bytes(b) => VarintLength(|b|);
    case Varint(x) => VarintLength(x);
  }

  /** The sum of the bounds of the fields from `n` on. */
  function BoundFrom(schema: Schema, n: nat): nat
    requires 1 <= n
    decreases FieldCount(schema) + 1 - n
  {
    if n > FieldCount(schema) then 0
    else
      FieldRuleRange(schema, n);
      SizeBound(FieldRule(schema, n).value.0) + BoundFrom(schema, n + 1)
  }

  lemma BoundStep(schema: Schema, n: nat)
    requires 1 <= n <= FieldCount(schema)
    ensures FieldRule(schema, n).Some?
    ensures BoundFrom(schema, n) == SizeBound(FieldRule(schema, n).value.0) + BoundFrom(schema, n + 1)
  {
    FieldRuleRange(schema, n);
  }

  lemma BoundEnd(schema: Schema, n: nat)
    requires n == FieldCount(schema) + 1
    ensures BoundFrom(schema, n) == 0
  {
  }

  /** The caps of the six schemas are the sums of their fields' bounds. */
  lemma CapsAreSums(schema: Schema)
    ensures BoundFrom(schema, 1) == MaxSize(schema)
  {
    var last := FieldCount(schema);
    assert BoundFrom(schema, last + 1) == 0;
    assert BoundFrom(schema, last - 2)
        == SizeBound(FieldRule(schema, last - 2).value.0) + SizeBound(FieldRule(schema, last - 1).value.0)
           + SizeBound(FieldRule(schema, last).value.0);
    if last > 3 {
      assert BoundFrom(schema, 1) == SizeBound(FieldRule(schema, 1).value.0) + BoundFrom(schema, 2);
      assert BoundFrom(schema, 2) == SizeBound(FieldRule(schema, 2).value.0) + BoundFrom(schema, 3);
    }
    if last > 5 {
      assert BoundFrom(schema, 3) == SizeBound(FieldRule(schema, 3).value.0) + BoundFrom(schema, 4);
    }
  }

  /** Valid values for the fields from `n` on, each of greatest length if `longest`. */
  predicate FieldsFrom(schema: Schema, fs: seq<Value>, n: nat, longest: bool)
    decreases |fs|
  {
    fs == [] || (FieldFits(schema, fs[0], n, longest) && FieldsFrom(schema, fs[1..], n + 1, longest))
  }

  predicate FieldFits(schema: Schema, v: Value, n: nat, longest: bool) {
    FieldValid(schema, n, v) && (longest ==> ItemSize(n, v) == SizeBound(FieldRule(schema, n).value.0))
  }

  lemma {:induction false} FieldsFromAll(schema: Schema, fs: seq<Value>, k: nat, longest: bool)
    requires k <= |fs| && forall i :: 0 <= i < |fs| ==> FieldFits(schema, fs[i], i + 1, longest)
    ensures FieldsFrom(schema, fs[k..], k + 1, longest)
    decreases |fs| - k
  {
    if k < |fs| {
      hide FieldFits;
      FieldsFromAll(schema, fs, k + 1, longest);
      assert fs[k..][1..] == fs[k + 1..] && FieldFits(schema, fs[k], k + 1, longest);
    }
  }

  lemma {:induction false} EncodingBound(schema: Schema, fs: seq<Value>, n: nat, longest: bool)
    requires 1 <= n && n + |fs| == FieldCount(schema) + 1 && FieldsFrom(schema, fs, n, longest)
    ensures |WireAll(CanonicalItems(fs, n))| <= BoundFrom(schema, n)
    ensures longest ==> |WireAll(CanonicalItems(fs, n))| == BoundFrom(schema, n)
    decreases |fs|
  {
    if fs != [] {
      hide FieldValid, SizeBound, CanonicalItems, FieldRule, WireAll, ItemSize, FieldCount, BoundFrom, IsDefault, Encodable;
      BoundStep(schema, n);
      ItemBound(schema, n, fs[0]);
      FirstItem(fs, n);
      EncodingBound(schema, fs[1..], n + 1, longest);
    } else {
      BoundEnd(schema, n);
    }
  }

  lemma FirstItem(fs: seq<Value>, n: nat)
    requires fs != [] && !IsDefault(fs[0])
    ensures |WireAll(CanonicalItems(fs, n))| == ItemSize(n, fs[0]) + |WireAll(CanonicalItems(fs[1..], n + 1))|
  {
    hide CanonicalItem, IsDefault;
    var items := CanonicalItems(fs, n);
    assert items[0] == CanonicalItem(n, fs[0]) && items[1..] == CanonicalItems(fs[1..], n + 1);
  }

  /** No valid message encodes to more than the cap of its schema. */
  lemma SizeWithinCap(m: Message)
    requires ValidMessage(m)
    ensures |Canonical(m)| <= MaxSize(SchemaOf(m))
  {
    var schema, fs := SchemaOf(m), Fields(m);
    forall i | 0 <= i < |fs|
      ensures FieldFits(schema, fs[i], i + 1, false)
    {
      assert FieldValid(schema, i + 1, fs[i]);
    }
    FieldsFromAll(schema, fs, 0, false);
    assert fs[0..] == fs;
    EncodingBound(schema, fs, 1, false);
    CapsAreSums(schema);
  }

  /** A valid value of greatest encoded length. */
  function Longest(kind: Kind): Value {
    match kind
    case KeyId => Bytes(seq(256, _ => 0x61))
    case KeyName => Bytes(seq(128, _ => 0x61))
    case PublicKey => Bytes(seq(32, _ => 0x61))
    case Identifier => Bytes(seq(16, _ => 0x61))
    case Profile => Bytes(PATH_INFO_V1)
    case Fingerprint => Bytes(seq(FINGERPRINT_MAX, _ => 0x61))
    case Signature => Bytes(seq(64, _ => 0x61))
    case BackendVersion => Varint(1)
    case EnrollmentDisposition => Varint(1)
  }

  lemma LongestFits(schema: Schema, n: nat)
    requires 1 <= n <= FieldCount(schema) && FieldRule(schema, n).Some?
    ensures var kind := FieldRule(schema, n).value.0;
            FieldFits(schema, Longest(kind), n, true) && FieldValid(schema, n, Longest(kind))
  {
    hide Utf8Valid, AppendVarint;
    var kind := FieldRule(schema, n).value.0;
    var v := Longest(kind);
    VarintLength(8 * n + WireTypeOf(v));
    match v
    case Bytes(b) =>
      VarintLength(|b|);
      if kind == KeyId {
        AsciiIsUtf8(b);
      } else if kind == KeyName {
        forall i | 0 <= i < |b| ensures KeyNameByte(b, i) {}
      } else if kind == Identifier {
        assert b[0] == 0x61;
      }
    case Varint(x) => VarintLength(x);
  }

  lemma LongestFields(schema: Schema) returns (fs: seq<Value>)
    ensures |fs| == FieldCount(schema) && Typed(schema, fs) && ValidFields(schema, fs)
    ensures forall i :: 0 <= i < |fs| ==> FieldFits(schema, fs[i], i + 1, true)
  {
    fs := seq(FieldCount(schema), i requires 0 <= i < FieldCount(schema) =>
      FieldRuleRange(schema, i + 1); Longest(FieldRule(schema, i + 1).value.0));
    hide FieldFits, Longest, FieldRule;
    forall i | 0 <= i < |fs|
      ensures FieldFits(schema, fs[i], i + 1, true) && FieldValid(schema, i + 1, fs[i])
    {
      FieldRuleRange(schema, i + 1);
      LongestFits(schema, i + 1);
    }
  }

  /** The caps are exact: in each schema some valid message attains it. */
  lemma CapAttained(schema: Schema) returns (m: Message)
    ensures SchemaOf(m) == schema && ValidMessage(m) && |Canonical(m)| == MaxSize(schema)
  {
    hide FieldFits, FieldRule, FieldCount, MaxSize, FieldsFrom, BoundFrom, WireAll, CanonicalItems;
    var fs := LongestFields(schema);
    ValidFieldsKept(schema, fs);
    FieldsFromAll(schema, fs, 0, true);
    assert fs[0..] == fs;
    EncodingBound(schema, fs, 1, true);
    CapsAreSums(schema);
    m := FromFields(schema, fs);
  }

  // ---------- Marshal ----------

  lemma {:induction false} BodyWithin(items: seq<Item>, i: nat)
    requires i < |items|
    ensures |items[i].Body()| <= |WireAll(items)|
    decreases i
  {
    if i > 0 {
      BodyWithin(items[1..], i - 1);
    }
  }

  lemma FieldsWireTypes(m: Message)
    ensures forall i :: 0 <= i < |Fields(m)| && Fields(m)[i].Varint? ==> Fields(m)[i].v < TWO_64
  {
  }

  lemma ListedEncodable(fs: seq<Value>, items: seq<Item>, k: nat)
    requires Lists(items, fs, 1) && |WireAll(items)| < TWO_64
    requires k < |fs| && (fs[k].Varint? ==> fs[k].v < TWO_64)
    ensures Encodable(fs[k])
  {
    if !IsDefault(fs[k]) && fs[k].Bytes? {
      assert HasNumber(items, 1 + k);
      var i :| 0 <= i < |items| && items[i].number == 1 + k;
      assert ListsOne(items[i], fs, 1);
      BodyWithin(items, i);
    }
  }

  lemma ShortIsEncodable(m: Message)
    requires |Canonical(m)| <= MaxSize(SchemaOf(m))
    ensures AllEncodable(Fields(m))
  {
    var fs, items := Fields(m), CanonicalItems(Fields(m), 1);
    CanonicalLists(fs, 1);
    FieldsWireTypes(m);
    assert |WireAll(items)| <= SIGN_REQUEST_MAX;
    hide CanonicalItems, WireAll, Fields, Lists, Encodable;
    forall k | 0 <= k < |fs|
      ensures Encodable(fs[k])
    {
      ListedEncodable(fs, items, k);
    }
  }

  lemma CanonicalWellFormed(m: Message)
    requires AllEncodable(Fields(m))
    ensures forall i :: 0 <= i < |CanonicalItems(Fields(m), 1)| ==> CanonicalItems(Fields(m), 1)[i].WellFormed()
  {
    var fs, items := Fields(m), CanonicalItems(Fields(m), 1);
    CanonicalLists(fs, 1);
    forall i | 0 <= i < |items|
      ensures items[i].WellFormed()
    {
      assert ListsOne(items[i], fs, 1);
      CanonicalItemWellFormed(items[i].number, fs[items[i].number - 1]);
    }
  }

  /** The canonical fields of a valid message are each field of its schema once. */
  lemma ValidEncodesStrictly(m: Message)
    requires ValidMessage(m)
    ensures EachOnce(SchemaOf(m), CanonicalItems(Fields(m), 1))
    ensures StrictlyEncodes(SchemaOf(m), Canonical(m))
  {
    var schema, fs, items := SchemaOf(m), Fields(m), CanonicalItems(Fields(m), 1);
    CanonicalLists(fs, 1);
    forall i | 0 <= i < |items|
      ensures FieldOk(schema, items[i])
    {
      assert ListsOne(items[i], fs, 1);
      var n := items[i].number;
      assert FieldValid(schema, (n - 1) + 1, fs[n - 1]);
      ItemBound(schema, n, fs[n - 1]);
      CanonicalItemWellFormed(n, fs[n - 1]);
    }
    forall n | 1 <= n <= FieldCount(schema)
      ensures HasNumber(items, n)
    {
      assert FieldValid(schema, (n - 1) + 1, fs[n - 1]);
      ItemBound(schema, n, fs[n - 1]);
      assert HasNumber(items, 1 + (n - 1));
    }
    SizeWithinCap(m);
  }

  /** Marshal accepts exactly the messages all of whose fields are valid: the caps, the once-only rule and
      the UTF-8 check never reject one of them, and nothing else gets out. */
  lemma MarshalExact(m: Message)
    ensures Marshal(m).Ok? <==> ValidMessage(m)
  {
    var schema, fs, items := SchemaOf(m), Fields(m), CanonicalItems(Fields(m), 1);
    PreflightExact(schema, Canonical(m));
    if ValidMessage(m) {
      ValidStrings(m);
      ValidEncodesStrictly(m);
    }
    if Marshal(m).Ok? {
      var ys: seq<Item> :| WireAll(ys) == Canonical(m) && EachOnce(schema, ys);
      ShortIsEncodable(m);
      CanonicalWellFormed(m);
      forall i | 0 <= i < |ys| ensures ys[i].WellFormed() { assert FieldOk(schema, ys[i]); }
      SplitUnique(items, ys);
      CanonicalLists(fs, 1);
      forall i | 0 <= i < |fs|
        ensures FieldValid(schema, i + 1, fs[i])
      {
        CanonicalFieldValid(m, i);
      }
    }
  }

  lemma CanonicalFieldValid(m: Message, i: nat)
    requires i < |Fields(m)| && AllEncodable(Fields(m))
    requires EachOnce(SchemaOf(m), CanonicalItems(Fields(m), 1))
    ensures FieldValid(SchemaOf(m), i + 1, Fields(m)[i])
  {
    var schema, fs, items := SchemaOf(m), Fields(m), CanonicalItems(Fields(m), 1);
    CanonicalLists(fs, 1);
    assert HasNumber(items, i + 1);
    var k :| 0 <= k < |items| && items[k].number == i + 1;
    assert ListsOne(items[k], fs, 1) && FieldOk(schema, items[k]);
    CanonicalItemWellFormed(i + 1, fs[i]);
  }

  /** Round trip: what Marshal lets out, Unmarshal reads back as the same message. */
  lemma MarshalRoundTrip(m: Message)
    requires Marshal(m).Ok?
    ensures Unmarshal(SchemaOf(m), Marshal(m).value) == Ok(m)
  {
    var schema, fs, items := SchemaOf(m), Fields(m), CanonicalItems(Fields(m), 1);
    MarshalExact(m);
    ValidEncodesStrictly(m);
    UnmarshalFields(schema, items);
    var m' := ProtoUnmarshal(schema, WireAll(items)).value;
    forall i | 0 <= i < |fs|
      ensures Fields(m')[i] == fs[i]
    {
      assert ValueIn(items, i + 1, Fields(m')[i]);
      CanonicalValue(m, i, Fields(m')[i]);
    }
    assert Fields(m') == fs;
    FieldsRoundTrip(m);
    FieldsRoundTrip(m');
  }

  lemma CanonicalValue(m: Message, i: nat, v: Value)
    requires ValidMessage(m) && i < |Fields(m)| && ValueIn(CanonicalItems(Fields(m), 1), i + 1, v)
    ensures v == Fields(m)[i]
  {
    var schema, fs, items := SchemaOf(m), Fields(m), CanonicalItems(Fields(m), 1);
    hide Fields, CanonicalItems, CanonicalItem, FieldValid, ItemSize, SizeBound, FieldRule, Encodable, IsDefault;
    assert FieldValid(schema, i + 1, fs[i]);
    CanonicalLists(fs, 1);
    var k :| 0 <= k < |items| && items[k].number == i + 1 && items[k].Value() == v;
    assert ListsOne(items[k], fs, 1);
    ItemBound(schema, i + 1, fs[i]);
    CanonicalItemWellFormed(i + 1, fs[i]);
  }
}
