/** Marshalling and unmarshalling of the six messages under the strict preflight, and the client's checks. */
module NixCodec {
  import opened Wrappers
  import opened Bytes
  import opened Utf8
  import opened Wire
  import opened NixSchema
  import opened NixPreflight

  // ---------- messages ----------

  datatype Message =
    | DescribeRequest(keyId: bytes, batchId: bytes, requestId: bytes)
    | DescribeResponse(keyName: bytes, publicKey: bytes, backendVersion: u32, batchId: bytes, requestId: bytes)
    | EnrollRequest(keyId: bytes, batchId: bytes, requestId: bytes)
    | EnrollResponse(keyName: bytes, publicKey: bytes, backendVersion: u32, disposition: int32,
                     batchId: bytes, requestId: bytes)
    | SignRequest(keyId: bytes, profile: bytes, fingerprint: bytes, batchId: bytes, requestId: bytes)
    | SignResponse(keyName: bytes, publicKey: bytes, backendVersion: u32, signature: bytes,
                   batchId: bytes, requestId: bytes)

  type int32 = x: int | -0x8000_0000 <= x < 0x8000_0000

  function SchemaOf(m: Message): Schema {
    match m
    case DescribeRequest(_, _, _) => DescribeRequestSchema
    case DescribeResponse(_, _, _, _, _) => DescribeResponseSchema
    case EnrollRequest(_, _, _) => EnrollRequestSchema
    case EnrollResponse(_, _, _, _, _, _) => EnrollResponseSchema
    case SignRequest(_, _, _, _, _) => SignRequestSchema
    case SignResponse(_, _, _, _, _, _) => SignResponseSchema
  }

  /** An enum goes out as a sign-extended 64-bit varint. */
  function EnumWire(x: int32): u64 {
    if x < 0 then x + TWO_64 else x
  }

  /** The low 32 bits, as a signed number. */
  function EnumRead(v: nat): int32 {
    var low := v % TWO_32;
    if low < 0x8000_0000 then low else low - TWO_32
  }

  /** The values of fields 1 to FieldCount. */
  function Fields(m: Message): (fs: seq<Value>)
    ensures |fs| == FieldCount(SchemaOf(m))
  {
    match m
    case DescribeRequest(k, b, r) => [Bytes(k), Bytes(b), Bytes(r)]
    case DescribeResponse(n, p, v, b, r) => [Bytes(n), Bytes(p), Varint(v), Bytes(b), Bytes(r)]
    case EnrollRequest(k, b, r) => [Bytes(k), Bytes(b), Bytes(r)]
    case EnrollResponse(n, p, v, d, b, r) => [Bytes(n), Bytes(p), Varint(v), Varint(EnumWire(d)), Bytes(b), Bytes(r)]
    case SignRequest(k, p, f, b, r) => [Bytes(k), Bytes(p), Bytes(f), Bytes(b), Bytes(r)]
    case SignResponse(n, p, v, s, b, r) => [Bytes(n), Bytes(p), Varint(v), Bytes(s), Bytes(b), Bytes(r)]
  }

  /** The message with the given field values, numbers cut to their width. */
  function FromFields(schema: Schema, fs: seq<Value>): Message
    requires |fs| == FieldCount(schema) && Typed(schema, fs)
  {
    FieldTypes(schema, fs);
    match schema
    case DescribeRequestSchema => DescribeRequest(fs[0].b, fs[1].b, fs[2].b)
    case DescribeResponseSchema => DescribeResponse(fs[0].b, fs[1].b, fs[2].v % TWO_32, fs[3].b, fs[4].b)
    case EnrollRequestSchema => EnrollRequest(fs[0].b, fs[1].b, fs[2].b)
    case EnrollResponseSchema =>
      EnrollResponse(fs[0].b, fs[1].b, fs[2].v % TWO_32, EnumRead(fs[3].v), fs[4].b, fs[5].b)
    case SignRequestSchema => SignRequest(fs[0].b, fs[1].b, fs[2].b, fs[3].b, fs[4].b)
    case SignResponseSchema => SignResponse(fs[0].b, fs[1].b, fs[2].v % TWO_32, fs[3].b, fs[4].b, fs[5].b)
  }

  predicate FieldTyped(schema: Schema, n: nat, value: Value) {
    FieldRule(schema, n).Some? && FieldRule(schema, n).value.1 == WireTypeOf(value)
  }

  predicate Typed(schema: Schema, fs: seq<Value>) {
    forall i :: 0 <= i < |fs| ==> FieldTyped(schema, i + 1, fs[i])
  }

  lemma FieldTypes(schema: Schema, fs: seq<Value>)
    requires |fs| == FieldCount(schema) && Typed(schema, fs)
    ensures fs[0].Bytes? && fs[1].Bytes? && fs[|fs| - 2].Bytes? && fs[|fs| - 1].Bytes?
    ensures schema in {DescribeResponseSchema, EnrollResponseSchema, SignResponseSchema} ==> fs[2].Varint?
    ensures schema == SignRequestSchema ==> fs[2].Bytes?
    ensures schema == EnrollResponseSchema ==> fs[3].Varint?
    ensures schema == SignResponseSchema ==> fs[3].Bytes?
  {
    assert FieldTyped(schema, 0 + 1, fs[0]) && FieldTyped(schema, 1 + 1, fs[1]) && FieldTyped(schema, 2 + 1, fs[2]);
    assert FieldTyped(schema, |fs| - 2 + 1, fs[|fs| - 2]) && FieldTyped(schema, |fs| - 1 + 1, fs[|fs| - 1]);
    if |fs| > 3 {
      assert FieldTyped(schema, 3 + 1, fs[3]);
    }
  }

  lemma FieldsRoundTrip(m: Message)
    ensures Typed(SchemaOf(m), Fields(m)) && FromFields(SchemaOf(m), Fields(m)) == m
  {
  }

  // ---------- the canonical encoding ----------

  predicate IsDefault(value: Value) {
    value == Bytes([]) || value == Varint(0)
  }

  function CanonicalItem(n: nat, value: Value): Item {
    var tag := AppendVarint(8 * n + WireTypeOf(value));
    match value
    case Bytes(b) => BytesItem(n, tag, AppendVarint(|b|), b)
    case Varint(v) => VarintItem(n, tag, AppendVarint(v))
  }

  /** Fields in order of their numbers, from `n` on; empty strings and zeros are not written. */
  function CanonicalItems(fs: seq<Value>, n: nat): seq<Item> {
    if fs == [] then []
    else if IsDefault(fs[0]) then CanonicalItems(fs[1..], n + 1)
    else [CanonicalItem(n, fs[0])] + CanonicalItems(fs[1..], n + 1)
  }

  function Canonical(m: Message): bytes {
    WireAll(CanonicalItems(Fields(m), 1))
  }

  /** The string fields of a message must be UTF-8 on both sides. */
  predicate StringsValid(m: Message) {
    match m
    case DescribeRequest(k, _, _) => Utf8Valid(k)
    case EnrollRequest(k, _, _) => Utf8Valid(k)
    case SignRequest(k, p, _, _, _) => Utf8Valid(k) && Utf8Valid(p)
    case DescribeResponse(n, _, _, _, _) => Utf8Valid(n)
    case EnrollResponse(n, _, _, _, _, _) => Utf8Valid(n)
    case SignResponse(n, _, _, _, _, _) => Utf8Valid(n)
  }

  function Marshal(m: Message): Result<bytes, NixError> {
    if !StringsValid(m) then Err(NotUtf8)
    else
      var raw := Canonical(m);
      var err := Preflight(SchemaOf(m), raw);
      if err != Nil then Err(err) else Ok(raw)
  }

  // ---------- lenient decoding ----------

  /** Protobuf decoding ("Last One Wins"): later values of a field replace earlier ones, and a field on a
      wire type that is not its own is an unknown one. */
  function LenientDecode(raw: bytes, fields: map<(nat, nat), Value>): Option<map<(nat, nat), Value>>
    decreases |raw|
  {
    if raw == [] then Some(fields)
    else
      match ConsumeTag(raw)
      case None => None
      case Some((number, wireType, n)) =>
        TagWithin(raw);
        var rest := raw[n..];
        if number > MAX_MESSAGE_FIELD then None
        else if wireType == FIXED64_TYPE then
          if |rest| < 8 then None else LenientDecode(rest[8..], fields)
        else if wireType == FIXED32_TYPE then
          if |rest| < 4 then None else LenientDecode(rest[4..], fields)
        else
          match ConsumeValue(wireType, rest)
          case None => None
          case Some((value, m)) =>
            ValueWithin(wireType, rest);
            LenientDecode(rest[m..], fields[(number, wireType) := value])
  }

  /** The value a decoded message holds for field `n`: the default if it was never set. */
  function Held(schema: Schema, fields: map<(nat, nat), Value>, n: nat): Value
    requires FieldRule(schema, n).Some?
  {
    var wireType := FieldRule(schema, n).value.1;
    if (n, wireType) in fields && WireTypeOf(fields[(n, wireType)]) == wireType then fields[(n, wireType)]
    else if wireType == BYTES_TYPE then Bytes([]) else Varint(0)
  }

  function HeldAll(schema: Schema, fields: map<(nat, nat), Value>): (fs: seq<Value>)
    ensures |fs| == FieldCount(schema) && Typed(schema, fs)
  {
    seq(FieldCount(schema), i requires 0 <= i < FieldCount(schema) => FieldRuleRange(schema, i + 1); Held(schema, fields, i + 1))
  }

  function ProtoUnmarshal(schema: Schema, raw: bytes): Result<Message, NixError> {
    match LenientDecode(raw, map[])
    case None => Err(BadTag)
    case Some(fields) =>
      var m := FromFields(schema, HeldAll(schema, fields));
      if StringsValid(m) then Ok(m) else Err(NotUtf8)
  }

  function Unmarshal(schema: Schema, raw: bytes): Result<Message, NixError> {
    var err := Preflight(schema, raw);
    if err != Nil then Err(err) else ProtoUnmarshal(schema, raw)
  }

  // ---------- strict decoding agrees with lenient decoding ----------

  function KeyOf(item: Item): (nat, nat) {
    (item.number, WireTypeOf(item.Value()))
  }

  /** The fields of a list laid over a map one after the other: the last one of a number wins. */
  function Overlay(fields: map<(nat, nat), Value>, items: seq<Item>): map<(nat, nat), Value>
    decreases |items|
  {
    if items == [] then fields
    else Overlay(fields[KeyOf(items[0]) := items[0].Value()], items[1..])
  }

  lemma LenientStep(item: Item, rest: bytes, fields: map<(nat, nat), Value>)
    requires item.WellFormed()
    ensures LenientDecode(item.tag + (item.Body() + rest), fields)
            == if item.number > MAX_MESSAGE_FIELD then None
               else LenientDecode(rest, fields[KeyOf(item) := item.Value()])
  {
    var raw := item.tag + (item.Body() + rest);
    TagRead(item, item.Body() + rest);
    assert raw[|item.tag|..] == item.Body() + rest;
    BodyRead(item, rest);
    assert (item.Body() + rest)[|item.Body()|..] == rest;
    TagWithin(raw);
  }

  lemma {:induction false} LenientItems(items: seq<Item>, fields: map<(nat, nat), Value>)
    requires forall i :: 0 <= i < |items| ==> items[i].WellFormed()
    ensures LenientDecode(WireAll(items), fields)
            == if forall i :: 0 <= i < |items| ==> items[i].number <= 536870911
               then Some(Overlay(fields, items)) else None
    decreases |items|
  {
    if items != [] {
      assert items[0].WellFormed();
      LenientStep(items[0], WireAll(items[1..]), fields);
      LenientItems(items[1..], fields[KeyOf(items[0]) := items[0].Value()]);
    }
  }

  /** A field of four or eight bytes is skipped: no message of the six has one. Any other wire type fails. */
  lemma OtherWireTypes(raw: bytes, fields: map<(nat, nat), Value>, number: nat, wireType: nat, n: nat)
    requires ConsumeTag(raw) == Some((number, wireType, n)) && number <= 536870911 && wireType !in {0, 2}
    ensures n <= |raw|
    ensures LenientDecode(raw, fields)
            == if wireType == 1 && n + 8 <= |raw| then LenientDecode(raw[n + 8..], fields)
               else if wireType == 5 && n + 4 <= |raw| then LenientDecode(raw[n + 4..], fields)
               else None
  {
    TagWithin(raw);
    assert n + 8 <= |raw| ==> raw[n..][8..] == raw[n + 8..];
    assert n + 4 <= |raw| ==> raw[n..][4..] == raw[n + 4..];
    hide ConsumeTag;
  }

  /** A field that is not there has the default of its type. */
  lemma MissingIsDefault(schema: Schema, fields: map<(nat, nat), Value>, n: nat)
    requires FieldRule(schema, n).Some? && forall t: nat :: (n, t) !in fields
    ensures Held(schema, fields, n) == if FieldRule(schema, n).value.1 == 0 then Varint(0) else Bytes([])
  {
    hide FieldRule;
    FieldRuleRange(schema, n);
  }

  /** A text that is not UTF-8 is the first thing Marshal refuses a message for. */
  lemma NotUtf8Refused(m: Message)
    ensures Marshal(m) == Err(NotUtf8) <==>
              match m
              case DescribeRequest(_, _, _) => !Utf8Valid(m.keyId)
              case EnrollRequest(_, _, _) => !Utf8Valid(m.keyId)
              case SignRequest(_, _, _, _, _) => !Utf8Valid(m.keyId) || !Utf8Valid(m.profile)
              case _ => !Utf8Valid(m.keyName)
  {
    hide Utf8Valid, Canonical;
    ScanErrors(SchemaOf(m), Canonical(m), {});
    hide Scan;
  }

  /** Fields with distinct numbers do not disturb one another. */
  lemma {:induction false} OverlayHolds(fields: map<(nat, nat), Value>, items: seq<Item>, n: nat, t: nat)
    requires Distinct(items)
    ensures var all := Overlay(fields, items);
            && (forall i :: 0 <= i < |items| && KeyOf(items[i]) == (n, t) ==> (n, t) in all && all[(n, t)] == items[i].Value())
            && ((forall i :: 0 <= i < |items| ==> KeyOf(items[i]) != (n, t)) ==>
                  ((n, t) in all <==> (n, t) in fields) && ((n, t) in fields ==> all[(n, t)] == fields[(n, t)]))
    decreases |items|
  {
    if items != [] {
      var tail := items[1..];
      assert items == [items[0]] + tail;
      DistinctCons(items[0], tail);
      OverlayHolds(fields[KeyOf(items[0]) := items[0].Value()], tail, n, t);
      assert forall i :: 0 < i < |items| ==> items[i] == tail[i - 1];
      if KeyOf(items[0]) == (n, t) {
        assert forall i :: 0 <= i < |tail| ==> KeyOf(tail[i]) != (n, t);
      }
    }
  }

  /** Field `n` is on the wire with value `v`. */
  ghost predicate ValueIn(items: seq<Item>, n: nat, v: Value) {
    exists i :: 0 <= i < |items| && items[i].number == n && items[i].Value() == v
  }

  /** `fs` are values on the wire of fields 1 to |fs|. */
  ghost predicate Carries(items: seq<Item>, fs: seq<Value>) {
    forall i :: 0 <= i < |fs| ==> ValueIn(items, i + 1, fs[i])
  }

  lemma StrictDecodes(schema: Schema, items: seq<Item>)
    requires EachOnce(schema, items)
    ensures LenientDecode(WireAll(items), map[]) == Some(Overlay(map[], items))
  {
    hide LenientDecode;
    forall i | 0 <= i < |items|
      ensures items[i].WellFormed() && items[i].number <= MAX_MESSAGE_FIELD
    {
      assert FieldOk(schema, items[i]);
      FieldRuleRange(schema, items[i].number);
    }
    LenientItems(items, map[]);
  }

  /** The field values decoded leniently from strictly encoded bytes are the unique ones on the wire. */
  lemma StrictFields(schema: Schema, items: seq<Item>) returns (fs: seq<Value>)
    requires EachOnce(schema, items)
    ensures |fs| == FieldCount(schema) && Typed(schema, fs) && ValidFields(schema, fs)
    ensures Carries(items, fs)
    ensures LenientDecode(WireAll(items), map[]).Some?
    ensures HeldAll(schema, LenientDecode(WireAll(items), map[]).value) == fs
  {
    hide LenientDecode, EachOnce, FieldTyped, Overlay, ValueIn, ValidValue;
    StrictDecodes(schema, items);
    fs := HeldAll(schema, Overlay(map[], items));
    forall i | 0 <= i < |fs|
      ensures ValueIn(items, i + 1, fs[i]) && FieldValid(schema, i + 1, fs[i])
    {
      FieldRuleRange(schema, i + 1);
      HeldFromWire(schema, items, i + 1);
    }
  }

  lemma HeldFromWire(schema: Schema, items: seq<Item>, n: nat)
    requires EachOnce(schema, items) && 1 <= n <= FieldCount(schema) && FieldRule(schema, n).Some?
    ensures var v := Held(schema, Overlay(map[], items), n); ValueIn(items, n, v) && FieldValid(schema, n, v)
  {
    assert HasNumber(items, n);
    var i :| 0 <= i < |items| && items[i].number == n;
    assert FieldOk(schema, items[i]);
    OverlayHolds(map[], items, n, FieldRule(schema, n).value.1);
    assert KeyOf(items[i]) == (n, FieldRule(schema, n).value.1);
  }

  // ---------- validity of whole messages ----------

  predicate FieldValid(schema: Schema, n: nat, value: Value) {
    FieldTyped(schema, n, value) && ValidValue(FieldRule(schema, n).value.0, value)
  }

  predicate ValidFields(schema: Schema, fs: seq<Value>) {
    forall i :: 0 <= i < |fs| ==> FieldValid(schema, i + 1, fs[i])
  }

  /** Every field passes its own validator. */
  predicate ValidMessage(m: Message) {
    ValidFields(SchemaOf(m), Fields(m))
  }

  lemma KeyNameIsUtf8(s: bytes)
    requires ValidKeyName(s)
    ensures Utf8Valid(s)
  {
    forall i | 0 <= i < |s|
      ensures s[i] < 0x80
    {
      assert KeyNameByte(s, i);
    }
    AsciiIsUtf8(s);
  }

  /** The individual rules leave nothing for the codec's own UTF-8 check to reject. */
  lemma ValidStrings(m: Message)
    requires ValidMessage(m)
    ensures StringsValid(m)
  {
    var schema, fs := SchemaOf(m), Fields(m);
    assert FieldValid(schema, 0 + 1, fs[0]) && FieldValid(schema, 1 + 1, fs[1]);
    match m
    case DescribeResponse(n, _, _, _, _) => KeyNameIsUtf8(n);
    case EnrollResponse(n, _, _, _, _, _) => KeyNameIsUtf8(n);
    case SignResponse(n, _, _, _, _, _) => KeyNameIsUtf8(n);
    case SignRequest(_, p, _, _, _) => AsciiIsUtf8(p);
    case _ =>
  }

  /** Valid numbers survive being cut to their width. */
  lemma ValidFieldsKept(schema: Schema, fs: seq<Value>)
    requires |fs| == FieldCount(schema) && Typed(schema, fs) && ValidFields(schema, fs)
    ensures var m := FromFields(schema, fs); SchemaOf(m) == schema && Fields(m) == fs && ValidMessage(m)
  {
  }

  /** The strict decoder accepts exactly the strict encodings: nothing that passes the preflight fails to
      decode. */
  lemma UnmarshalExact(schema: Schema, raw: bytes)
    ensures Unmarshal(schema, raw).Ok? <==> StrictlyEncodes(schema, raw)
  {
    PreflightExact(schema, raw);
    if StrictlyEncodes(schema, raw) {
      var items :| WireAll(items) == raw && EachOnce(schema, items);
      UnmarshalFields(schema, items);
    }
  }

  /** What it returns is a valid message of the schema made of the unique values on the wire. */
  lemma UnmarshalFields(schema: Schema, items: seq<Item>)
    requires EachOnce(schema, items)
    ensures ProtoUnmarshal(schema, WireAll(items)).Ok?
    ensures var m := ProtoUnmarshal(schema, WireAll(items)).value;
            SchemaOf(m) == schema && ValidMessage(m) && Carries(items, Fields(m))
  {
    var fs := StrictFields(schema, items);
    ValidFieldsKept(schema, fs);
    ValidStrings(FromFields(schema, fs));
  }

  /** The decoded message depends on the fields alone, not on their order. */
  lemma OrderIrrelevant(schema: Schema, xs: seq<Item>, ys: seq<Item>)
    requires EachOnce(schema, xs) && EachOnce(schema, ys)
    requires forall n, v :: ValueIn(xs, n, v) <==> ValueIn(ys, n, v)
    ensures ProtoUnmarshal(schema, WireAll(xs)) == ProtoUnmarshal(schema, WireAll(ys))
  {
    var fs := StrictFields(schema, xs);
    var gs := StrictFields(schema, ys);
    hide LenientDecode, HeldAll, ValueIn, ValidFields, Typed, WireAll, EachOnce;
    forall i | 0 <= i < |fs|
      ensures fs[i] == gs[i]
    {
      assert ValueIn(xs, i + 1, fs[i]) && ValueIn(ys, i + 1, gs[i]);
      OnceUnique(schema, xs, i + 1, fs[i], gs[i]);
    }
    assert fs == gs;
  }

  lemma OnceUnique(schema: Schema, items: seq<Item>, n: nat, v: Value, w: Value)
    requires EachOnce(schema, items) && ValueIn(items, n, v) && ValueIn(items, n, w)
    ensures v == w
  {
  }

  lemma ValueUnique(items: seq<Item>, n: nat, v: Value, w: Value)
    requires Distinct(items) && ValueIn(items, n, v) && ValueIn(items, n, w)
    ensures v == w
  {
  }
}
