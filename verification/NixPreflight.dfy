/** The strict preflight of the Nix cache codec: a loop over the raw bytes with a bitmask of fields seen,
    against "each field exactly once, in any order, well-formed and valid, within the cap". */
module NixPreflight {
  import opened Bytes
  import opened Wire
  import opened NixSchema

  datatype NixError =
    | Nil
    | TooLong
    | BadTag
    | UnknownField(number: nat)
    | DuplicateField(number: nat)
    | WrongWireType(number: nat)
    | MalformedField(number: nat)
    | InvalidField(number: nat)
    | MissingField(number: nat)
    | NotUtf8

  // ---------- the specification ----------

  ghost predicate FieldOk(schema: Schema, item: Item) {
    && item.WellFormed()
    && FieldRule(schema, item.number).Some?
    && var (kind, wireType) := FieldRule(schema, item.number).value;
       wireType == WireTypeOf(item.Value()) && ValidValue(kind, item.Value())
  }

  /** Valid fields of the schema, each of 1 to FieldCount once and in any order. */
  ghost predicate EachOnce(schema: Schema, items: seq<Item>) {
    && (forall i :: 0 <= i < |items| ==> FieldOk(schema, items[i]))
    && Distinct(items)
    && (forall n :: 1 <= n <= FieldCount(schema) ==> HasNumber(items, n))
  }

  ghost predicate Distinct(items: seq<Item>) {
    forall i, j :: 0 <= i < j < |items| ==> items[i].number != items[j].number
  }

  ghost predicate HasNumber(items: seq<Item>, n: nat) {
    exists i :: 0 <= i < |items| && items[i].number == n
  }

  /** What the strict codec promises of the bytes it lets through. */
  ghost predicate StrictlyEncodes(schema: Schema, raw: bytes) {
    |raw| <= MaxSize(schema) && exists items :: WireAll(items) == raw && EachOnce(schema, items)
  }

  // ---------- the parser with a set of fields seen ----------

  function FirstMissing(seen: set<nat>, n: nat, fields: nat): NixError
    decreases fields + 1 - n
  {
    if n > fields then Nil
    else if n !in seen then MissingField(n)
    else FirstMissing(seen, n + 1, fields)
  }

  /** One field taken off the head of the bytes, or why it is refused. */
  datatype Step = Refused(error: NixError) | Taken(number: nat, rest: bytes)

  function NextField(schema: Schema, raw: bytes, seen: set<nat>): (step: Step)
    ensures step.Taken? ==> |step.rest| < |raw|
  {
    match ConsumeTag(raw)
    case None => Refused(BadTag)
    case Some((number, wireType, n)) =>
      TagWithin(raw);
      match FieldRule(schema, number)
      case None => Refused(UnknownField(number))
      case Some((kind, expected)) =>
        if number in seen then Refused(DuplicateField(number))
        else if wireType != expected then Refused(WrongWireType(number))
        else
          match ConsumeValue(expected, raw[n..])
          case None => Refused(MalformedField(number))
          case Some((value, m)) =>
            if !ValidValue(kind, value) then Refused(InvalidField(number))
            else
              ValueWithin(expected, raw[n..]);
              Taken(number, raw[n..][m..])
  }

  function Scan(schema: Schema, raw: bytes, seen: set<nat>): NixError
    decreases |raw|
  {
    if raw == [] then FirstMissing(seen, 1, FieldCount(schema))
    else
      match NextField(schema, raw, seen)
      case Refused(e) => e
      case Taken(number, rest) => Scan(schema, rest, seen + {number})
  }

  lemma ValueWithin(wireType: nat, b: bytes)
    requires ConsumeValue(wireType, b).Some?
    ensures ConsumeValue(wireType, b).value.1 <= |b|
  {
  }

  function Preflight(schema: Schema, raw: bytes): NixError {
    if |raw| > MaxSize(schema) then TooLong else Scan(schema, raw, {})
  }

  lemma {:induction false} MissingNumbered(seen: set<nat>, n: nat, fields: nat)
    ensures FirstMissing(seen, n, fields) == Nil || FirstMissing(seen, n, fields).MissingField?
    decreases fields + 1 - n
  {
    if n <= fields {
      MissingNumbered(seen, n + 1, fields);
    }
  }

  lemma StepErrors(schema: Schema, raw: bytes, seen: set<nat>)
    ensures NextField(schema, raw, seen).Refused? ==> NextField(schema, raw, seen).error !in {NotUtf8, TooLong}
  {
    hide ConsumeTag, ConsumeValue, ValidValue, FieldRule;
  }

  /** The preflight has no opinion on UTF-8 beyond the rules of its fields. */
  lemma {:induction false} ScanErrors(schema: Schema, raw: bytes, seen: set<nat>)
    ensures Scan(schema, raw, seen) != NotUtf8 && Scan(schema, raw, seen) != TooLong
    decreases |raw|
  {
    hide NextField;
    MissingNumbered(seen, 1, FieldCount(schema));
    StepErrors(schema, raw, seen);
    var step := NextField(schema, raw, seen);
    if raw != [] && step.Taken? {
      ScanErrors(schema, step.rest, seen + {step.number});
    }
  }

  // ---------- soundness and completeness ----------

  /** The fields of `items` complete those in `seen`, with none twice. */
  ghost predicate Completes(schema: Schema, items: seq<Item>, seen: set<nat>) {
    && (forall i :: 0 <= i < |items| ==> FieldOk(schema, items[i]) && items[i].number !in seen)
    && Distinct(items)
    && (forall n :: 1 <= n <= FieldCount(schema) ==> n in seen || HasNumber(items, n))
  }

  lemma {:induction false} FirstMissingNil(seen: set<nat>, n: nat, fields: nat)
    ensures FirstMissing(seen, n, fields) == Nil <==> forall k :: n <= k <= fields ==> k in seen
    decreases fields + 1 - n
  {
    if n <= fields {
      FirstMissingNil(seen, n + 1, fields);
    }
  }

  lemma HasNumberCons(item: Item, items: seq<Item>, n: nat)
    ensures HasNumber([item] + items, n) <==> n == item.number || HasNumber(items, n)
  {
    var all := [item] + items;
    if HasNumber(all, n) && n != item.number {
      var i :| 0 <= i < |all| && all[i].number == n;
      assert items[i - 1].number == n;
    }
    if n == item.number {
      assert all[0].number == n;
    } else if HasNumber(items, n) {
      var i :| 0 <= i < |items| && items[i].number == n;
      assert all[i + 1].number == n;
    }
  }

  lemma DistinctCons(item: Item, items: seq<Item>)
    ensures Distinct([item] + items) <==> Distinct(items) && forall i :: 0 <= i < |items| ==> items[i].number != item.number
  {
    var all := [item] + items;
    assert forall i :: 0 <= i < |items| ==> all[i + 1] == items[i];
    if Distinct(all) {
      assert all[0] == item;
      forall i, j | 0 <= i < j < |items|
        ensures items[i].number != items[j].number
      {
        assert all[i + 1].number != all[j + 1].number;
      }
      forall i | 0 <= i < |items|
        ensures items[i].number != item.number
      {
        assert all[0].number != all[i + 1].number;
      }
    } else {
      var i, j :| 0 <= i < j < |all| && all[i].number == all[j].number;
      assert all[j] == items[j - 1] && (i > 0 ==> all[i] == items[i - 1]);
    }
  }

  lemma CompletesCons(schema: Schema, item: Item, items: seq<Item>, seen: set<nat>)
    requires FieldOk(schema, item) && item.number !in seen
    ensures Completes(schema, [item] + items, seen) <==> Completes(schema, items, seen + {item.number})
  {
    hide FieldOk, HasNumber, Distinct;
    var all := [item] + items;
    DistinctCons(item, items);
    forall n: nat
      ensures HasNumber(all, n) <==> n == item.number || HasNumber(items, n)
    {
      HasNumberCons(item, items, n);
    }
    assert all[0] == item;
    assert forall i :: 0 <= i < |items| ==> items[i] == all[i + 1];
  }

  /** One turn of the parser over a field it accepts. */
  lemma ScanStep(schema: Schema, item: Item, rest: bytes, seen: set<nat>)
    requires FieldOk(schema, item) && item.number !in seen
    ensures Scan(schema, item.tag + (item.Body() + rest), seen) == Scan(schema, rest, seen + {item.number})
  {
    var raw := item.tag + (item.Body() + rest);
    TagRead(item, item.Body() + rest);
    assert raw[|item.tag|..] == item.Body() + rest;
    BodyRead(item, rest);
    assert (item.Body() + rest)[|item.Body()|..] == rest;
    TagWithin(raw);
  }

  lemma {:induction false} ScanComplete(schema: Schema, items: seq<Item>, seen: set<nat>)
    requires Completes(schema, items, seen)
    ensures Scan(schema, WireAll(items), seen) == Nil
    decreases |items|
  {
    if items == [] {
      FirstMissingNil(seen, 1, FieldCount(schema));
    } else {
      assert items == [items[0]] + items[1..];
      CompletesCons(schema, items[0], items[1..], seen);
      ScanStep(schema, items[0], WireAll(items[1..]), seen);
      ScanComplete(schema, items[1..], seen + {items[0].number});
    }
  }

  lemma {:induction false} ScanSound(schema: Schema, raw: bytes, seen: set<nat>) returns (items: seq<Item>)
    requires Scan(schema, raw, seen) == Nil
    ensures Completes(schema, items, seen) && WireAll(items) == raw
    decreases |raw|
  {
    if raw == [] {
      items := [];
      FirstMissingNil(seen, 1, FieldCount(schema));
    } else {
      TagWithin(raw);
      var item, rest := ItemFound(raw);
      assert FieldOk(schema, item) && item.number !in seen;
      ScanStep(schema, item, rest, seen);
      var tail := ScanSound(schema, rest, seen + {item.number});
      items := [item] + tail;
      CompletesCons(schema, item, tail, seen);
      assert items[1..] == tail;
    }
  }

  /** Soundness and completeness of the strict preflight: it returns nil exactly on the bytes within the
      cap that split into well-formed, valid fields with each field of the schema exactly once. */
  lemma PreflightExact(schema: Schema, raw: bytes)
    ensures Preflight(schema, raw) == Nil <==> StrictlyEncodes(schema, raw)
  {
    if Preflight(schema, raw) == Nil {
      var items := ScanSound(schema, raw, {});
      assert EachOnce(schema, items);
    }
    if StrictlyEncodes(schema, raw) {
      var items :| WireAll(items) == raw && EachOnce(schema, items);
      ScanComplete(schema, items, {});
    }
  }

  // ---------- the loop with a bitmask ----------

  /** uint64(1) << (number - 1) for the field numbers of the tables. */
  function Bit(number: nat): bv64
    requires 1 <= number <= 6
  {
    match number
    case 1 => 1
    case 2 => 2
    case 3 => 4
    case 4 => 8
    case 5 => 16
    case 6 => 32
  }

  /** uint64(1) << fields - 1 */
  function Required(fields: nat): bv64
    requires fields in {3, 5, 6}
  {
    if fields == 3 then 7 else if fields == 5 then 31 else 63
  }

  /** The bitmask holds exactly the numbers in `seen`, all of them field numbers. */
  ghost predicate Holds(mask: bv64, seen: set<nat>, fields: nat) {
    && (forall n :: n in seen ==> 1 <= n <= fields)
    && mask & 0xFFFF_FFFF_FFFF_FFC0 == 0
    && (forall n :: 1 <= n <= 6 ==> ((mask & Bit(n) != 0) <==> n in seen))
  }

  lemma HoldsAdd(mask: bv64, seen: set<nat>, fields: nat, n: nat)
    requires Holds(mask, seen, fields) && 1 <= n <= fields <= 6
    ensures Holds(mask | Bit(n), seen + {n}, fields)
  {
  }

  lemma HoldsBit(mask: bv64, seen: set<nat>, fields: nat, n: nat)
    requires Holds(mask, seen, fields) && 1 <= n <= 6
    ensures mask & Bit(n) == 0 <==> n !in seen
  {
  }

  lemma HoldsNone(fields: nat)
    ensures Holds(0, {}, fields)
  {
  }

  lemma RequiredBits(mask: bv64)
    requires mask & 0xFFFF_FFFF_FFFF_FFC0 == 0
    ensures mask == 7 <==> mask & 1 != 0 && mask & 2 != 0 && mask & 4 != 0
                           && mask & 8 == 0 && mask & 16 == 0 && mask & 32 == 0
    ensures mask == 31 <==> mask & 1 != 0 && mask & 2 != 0 && mask & 4 != 0
                            && mask & 8 != 0 && mask & 16 != 0 && mask & 32 == 0
    ensures mask == 63 <==> mask & 1 != 0 && mask & 2 != 0 && mask & 4 != 0
                            && mask & 8 != 0 && mask & 16 != 0 && mask & 32 != 0
  {
  }

  lemma HoldsRequired(mask: bv64, seen: set<nat>, fields: nat)
    requires fields in {3, 5, 6} && Holds(mask, seen, fields)
    ensures mask == Required(fields) <==> forall n :: 1 <= n <= fields ==> n in seen
  {
    RequiredBits(mask);
    assert forall n :: 1 <= n <= 6 ==> ((mask & Bit(n) != 0) <==> n in seen);
    assert mask & Bit(1) != 0 <==> 1 in seen;
    assert mask & Bit(2) != 0 <==> 2 in seen;
    assert mask & Bit(3) != 0 <==> 3 in seen;
    assert mask & Bit(4) != 0 <==> 4 in seen;
    assert mask & Bit(5) != 0 <==> 5 in seen;
    assert mask & Bit(6) != 0 <==> 6 in seen;
  }

  /** Takes and validates the value of one field. */
  method ConsumeField(number: nat, kind: Kind, wireType: nat, raw: bytes) returns (err: NixError, length: nat)
    requires wireType in {BYTES_TYPE, VARINT_TYPE}
    ensures match ConsumeValue(wireType, raw)
            case None => err == MalformedField(number)
            case Some((value, m)) =>
              length == m <= |raw| && err == if ValidValue(kind, value) then Nil else InvalidField(number)
  {
    hide ValidBytes, ValidVarint, TakeVarint;
    if wireType == BYTES_TYPE {
      var field := ConsumeBytes(raw);
      if field.None? {
        return MalformedField(number), 0;
      }
      ValueWithin(wireType, raw);
      var ok := ValidateBytes(kind, field.value.0);
      return if ok then Nil else InvalidField(number), field.value.1;
    } else {
      var field := ConsumeVarint(raw);
      if field.None? {
        return MalformedField(number), 0;
      }
      ValueWithin(wireType, raw);
      return if ValidVarint(kind, field.value.0) then Nil else InvalidField(number), field.value.1;
    }
  }

  /** The final comparison with the mask of all fields, naming the first one missing. */
  method CheckRequired(seen: bv64, fields: nat, ghost numbers: set<nat>) returns (err: NixError)
    requires fields in {3, 5, 6} && Holds(seen, numbers, fields)
    ensures err == FirstMissing(numbers, 1, fields)
  {
    HoldsRequired(seen, numbers, fields);
    FirstMissingNil(numbers, 1, fields);
    hide Bit, Required, Holds;
    var required := Required(fields);
    if seen != required {
      var number := 1;
      while number <= fields
        invariant 1 <= number <= fields + 1
        invariant FirstMissing(numbers, 1, fields) == FirstMissing(numbers, number, fields)
      {
        HoldsBit(seen, numbers, fields, number);
        if seen & Bit(number) == 0 {
          return MissingField(number);
        }
        number := number + 1;
      }
    }
    return Nil;
  }

  /** One turn of the loop, with the bitmask standing for the numbers seen. */
  method TakeField(schema: Schema, raw: bytes, seen: bv64, ghost numbers: set<nat>)
    returns (err: NixError, number: nat, rest: bytes)
    requires Holds(seen, numbers, FieldCount(schema))
    ensures match NextField(schema, raw, numbers)
            case Refused(e) => err == e != Nil
            case Taken(n, r) => err == Nil && number == n && rest == r && 1 <= n <= FieldCount(schema)
  {
    hide ValidValue, ConsumeValue, ConsumeTag, FieldRule, Bit, Holds;
    number, rest := 0, [];
    var tag := ConsumeTag(raw);
    if tag.None? {
      return BadTag, number, rest;
    }
    TagWithin(raw);
    var (n, wireType, consumed) := tag.value;
    FieldRuleRange(schema, n);
    var rule := FieldRule(schema, n);
    if rule.None? {
      return UnknownField(n), number, rest;
    }
    var (kind, expectedWire) := rule.value;
    HoldsBit(seen, numbers, FieldCount(schema), n);
    if seen & Bit(n) != 0 {
      return DuplicateField(n), number, rest;
    }
    if wireType != expectedWire {
      return WrongWireType(n), number, rest;
    }
    var length;
    err, length := ConsumeField(n, kind, expectedWire, raw[consumed..]);
    if err == Nil {
      number, rest := n, raw[consumed..][length..];
    }
  }

  /** The bitmask loop computes exactly what the set-based parser says, error and all. */
  method PreflightNixCacheProto(schema: Schema, message: bytes) returns (err: NixError)
    ensures err == Preflight(schema, message)
  {
    assert FieldCount(schema) in {3, 5, 6};
    hide NextField, Bit, Holds, MaxSize, FieldCount, FirstMissing;
    var maximum, fields := MaxSize(schema), FieldCount(schema);
    if |message| > maximum {
      return TooLong;
    }
    var raw := message;
    var seen: bv64 := 0;
    ghost var numbers: set<nat> := {};
    HoldsNone(fields);
    while |raw| != 0
      invariant Holds(seen, numbers, fields)
      invariant Scan(schema, message, {}) == Scan(schema, raw, numbers)
      decreases |raw|
    {
      var fieldErr, number, rest := TakeField(schema, raw, seen, numbers);
      if fieldErr != Nil {
        return fieldErr;
      }
      HoldsAdd(seen, numbers, fields, number);
      seen := seen | Bit(number);
      numbers := numbers + {number};
      raw := rest;
    }
    err := CheckRequired(seen, fields, numbers);
  }
}
