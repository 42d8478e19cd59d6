/** The protobuf wire format (Protocol Buffers encoding guide: "Base 128 Varints", "Message Structure")
    as far as the Nix cache codec depends on it: varints, tags, length-delimited values. */
module Wire {
  import opened Wrappers
  import opened Bytes

  const VARINT_TYPE := 0
  const FIXED64_TYPE := 1
  const BYTES_TYPE := 2
  const FIXED32_TYPE := 5
  const MAX_FIELD_NUMBER := 0x7FFF_FFFF  // in a tag
  const MAX_MESSAGE_FIELD := 0x1FFF_FFFF  // in a message

  // ---------- varints ----------

  /** One varint of at most `room` bytes, of which the last possible one may hold a single bit. */
  predicate IsVarintWithin(s: bytes, room: nat) {
    && 1 <= |s| <= room
    && (forall i :: 0 <= i < |s| - 1 ==> s[i] >= 128)
    && s[|s| - 1] < 128
    && (|s| == room ==> s[|s| - 1] <= 1)
  }

  /** A whole varint: seven bits a byte, least significant first, 64 bits in all. Not necessarily the
      shortest one for its value. */
  predicate IsVarint(s: bytes) {
    IsVarintWithin(s, 10)
  }

  function VarintValue(s: bytes): nat {
    if s == [] then 0 else s[0] % 128 + 128 * VarintValue(s[1..])
  }

  /** The varint at the head of `b` and the number of bytes it takes. */
  function TakeVarint(b: bytes, room: nat): Option<(nat, nat)>
    decreases room
  {
    if b == [] || room == 0 then None
    else if b[0] < 128 then
      if room == 1 && b[0] > 1 then None else Some((b[0], 1))
    else
      match TakeVarint(b[1..], room - 1)
      case None => None
      case Some((v, n)) => Some((b[0] - 128 + 128 * v, n + 1))
  }

  function ConsumeVarint(b: bytes): Option<(nat, nat)> {
    TakeVarint(b, 10)
  }

  /** A continuation byte before a varint is a varint. */
  lemma VarintCons(first: byte, s: bytes, room: nat)
    requires first >= 128 && room > 0 && IsVarintWithin(s, room - 1)
    ensures IsVarintWithin([first] + s, room)
    ensures VarintValue([first] + s) == first - 128 + 128 * VarintValue(s)
  {
  }

  lemma {:induction false} TakeVarintSound(b: bytes, room: nat)
    requires TakeVarint(b, room).Some?
    ensures var (v, n) := TakeVarint(b, room).value;
            n <= |b| && IsVarintWithin(b[..n], room) && VarintValue(b[..n]) == v
    decreases room
  {
    if b[0] >= 128 {
      TakeVarintSound(b[1..], room - 1);
      var (v, n) := TakeVarint(b[1..], room - 1).value;
      VarintCons(b[0], b[1..][..n], room);
      assert b[..n + 1] == [b[0]] + b[1..][..n];
    }
  }

  lemma {:induction false} TakeVarintComplete(s: bytes, rest: bytes, room: nat)
    requires IsVarintWithin(s, room)
    ensures TakeVarint(s + rest, room) == Some((VarintValue(s), |s|))
    decreases room
  {
    var b := s + rest;
    assert b[0] == s[0];
    if s[0] >= 128 {
      assert b[1..] == s[1..] + rest;
      TakeVarintComplete(s[1..], rest, room - 1);
    }
  }

  function Pow128(n: nat): (r: nat)
    ensures r > 0
  {
    if n == 0 then 1 else 128 * Pow128(n - 1)
  }

  lemma {:induction false} VarintWithinBound(s: bytes, room: nat)
    requires IsVarintWithin(s, room)
    ensures VarintValue(s) < 2 * Pow128(room - 1)
    decreases room
  {
    if |s| > 1 {
      VarintWithinBound(s[1..], room - 1);
    } else if room > 1 {
      assert Pow128(room - 1) == 128 * Pow128(room - 2);
    }
  }

  /** A varint is a uint64. */
  lemma VarintIsUint64(s: bytes)
    requires IsVarint(s)
    ensures VarintValue(s) < TWO_64
  {
    VarintWithinBound(s, 10);
    assert Pow128(3) == 0x20_0000;
    assert Pow128(6) == 128 * (128 * (128 * Pow128(3)));
    assert Pow128(9) == 128 * (128 * (128 * Pow128(6)));
  }

  /** The shortest varint of a value. */
  function AppendVarint(v: nat): (s: bytes)
    ensures s != []
  {
    if v < 128 then [v] else [v % 128 + 128] + AppendVarint(v / 128)
  }

  lemma {:induction false} AppendVarintWithin(v: nat, room: nat)
    requires room > 0 && v < 2 * Pow128(room - 1)
    ensures IsVarintWithin(AppendVarint(v), room)
    ensures VarintValue(AppendVarint(v)) == v
    decreases room
  {
    if v >= 128 {
      assert room > 1;
      assert Pow128(room - 1) == 128 * Pow128(room - 2);
      AppendVarintWithin(v / 128, room - 1);
      VarintCons(v % 128 + 128, AppendVarint(v / 128), room);
    } else {
      assert VarintValue([v]) == v;
    }
  }

  lemma AppendVarintRoundTrip(v: nat)
    requires v < TWO_64
    ensures IsVarint(AppendVarint(v)) && VarintValue(AppendVarint(v)) == v
  {
    assert Pow128(3) == 0x20_0000;
    assert Pow128(6) == 128 * (128 * (128 * Pow128(3)));
    assert Pow128(9) == 128 * (128 * (128 * Pow128(6)));
    AppendVarintWithin(v, 10);
  }

  // ---------- fields ----------

  datatype Value = Bytes(b: bytes) | Varint(v: nat)

  function WireTypeOf(value: Value): nat {
    if value.Bytes? then BYTES_TYPE else VARINT_TYPE
  }

  /** The tag at the head of `b`: field number, wire type, bytes taken. */
  function ConsumeTag(b: bytes): Option<(nat, nat, nat)> {
    match ConsumeVarint(b)
    case None => None
    case Some((v, n)) => if 1 <= v / 8 <= MAX_FIELD_NUMBER then Some((v / 8, v % 8, n)) else None
  }

  function ConsumeBytes(b: bytes): Option<(bytes, nat)> {
    match ConsumeVarint(b)
    case None => None
    case Some((length, n)) => if n + length <= |b| then Some((b[n..n + length], n + length)) else None
  }

  /** A value of wire type VARINT or BYTES. */
  function ConsumeValue(wireType: nat, b: bytes): Option<(Value, nat)> {
    if wireType == BYTES_TYPE then
      match ConsumeBytes(b)
      case None => None
      case Some((value, n)) => Some((Bytes(value), n))
    else if wireType == VARINT_TYPE then
      match ConsumeVarint(b)
      case None => None
      case Some((v, n)) => Some((Varint(v), n))
    else None
  }

  /** One field on the wire: the tag's varint, then the length's varint and the payload, or the value's
      own varint. */
  datatype Item =
    | BytesItem(number: nat, tag: bytes, length: bytes, payload: bytes)
    | VarintItem(number: nat, tag: bytes, encoded: bytes)
  {
    function Value(): Value {
      match this
      case BytesItem(_, _, _, payload) => Bytes(payload)
      case VarintItem(_, _, encoded) => Varint(VarintValue(encoded))
    }

    function Body(): bytes {
      match this
      case BytesItem(_, _, length, payload) => length + payload
      case VarintItem(_, _, encoded) => encoded
    }

    predicate WellFormed() {
      && 1 <= number <= 0x7FFF_FFFF
      && IsVarint(tag) && VarintValue(tag) == 8 * number + (if BytesItem? then 2 else 0)
      && match this
         case BytesItem(_, _, length, payload) => IsVarint(length) && VarintValue(length) == |payload|
         case VarintItem(_, _, encoded) => IsVarint(encoded)
    }
  }

  function WireAll(items: seq<Item>): bytes {
    if items == [] then [] else items[0].tag + (items[0].Body() + WireAll(items[1..]))
  }

  /** A tag is any varint that is eight times a field number up to 2^31 - 1, plus a wire type below eight. */
  lemma TagExactly(b: bytes, number: nat, wireType: nat, n: nat)
    ensures ConsumeTag(b) == Some((number, wireType, n))
            <==> 1 <= number <= 2147483647 && wireType < 8 && ConsumeVarint(b) == Some((8 * number + wireType, n))
  {
    hide ConsumeVarint;
    if wireType < 8 {
      TagParts(number, wireType);
    }
  }

  lemma TagRead(item: Item, rest: bytes)
    requires item.WellFormed()
    ensures ConsumeTag(item.tag + rest) == Some((item.number, WireTypeOf(item.Value()), |item.tag|))
  {
    var wireType := WireTypeOf(item.Value());
    assert VarintValue(item.tag) == 8 * item.number + wireType;
    TakeVarintComplete(item.tag, rest, 10);
    TagExactly(item.tag + rest, item.number, wireType, |item.tag|);
    hide IsVarintWithin, TakeVarint, VarintValue, ConsumeTag;
  }

  lemma TagParts(number: nat, wireType: nat)
    requires wireType < 8
    ensures (8 * number + wireType) / 8 == number && (8 * number + wireType) % 8 == wireType
  {
  }

  lemma BodyRead(item: Item, rest: bytes)
    requires item.WellFormed()
    ensures ConsumeValue(WireTypeOf(item.Value()), item.Body() + rest) == Some((item.Value(), |item.Body()|))
  {
    match item
    case BytesItem(_, _, length, payload) => BytesRead(length, payload, rest);
    case VarintItem(_, _, encoded) => TakeVarintComplete(encoded, rest, 10);
  }

  lemma BytesRead(length: bytes, payload: bytes, rest: bytes)
    requires IsVarint(length) && VarintValue(length) == |payload|
    ensures ConsumeBytes(length + payload + rest) == Some((payload, |length + payload|))
  {
    TakeVarintComplete(length, payload + rest, 10);
    hide TakeVarint, VarintValue, IsVarintWithin;
    assert length + payload + rest == length + (payload + rest);
    assert (length + (payload + rest))[|length|..|length| + |payload|] == payload;
  }

  /** What a parser takes for a field at the head of `raw` is one. */
  lemma ItemFound(raw: bytes) returns (item: Item, rest: bytes)
    requires ConsumeTag(raw).Some?
    requires var (number, wireType, n) := ConsumeTag(raw).value;
             n <= |raw| && ConsumeValue(wireType, raw[n..]).Some?
    ensures item.WellFormed() && raw == item.tag + (item.Body() + rest)
    ensures var (number, wireType, n) := ConsumeTag(raw).value;
            && item.number == number && wireType == WireTypeOf(item.Value()) && n == |item.tag|
            && var (value, m) := ConsumeValue(wireType, raw[n..]).value;
               item.Value() == value && m == |item.Body()| && m <= |raw[n..]| && rest == raw[n..][m..]
  {
    hide ConsumeTag, ConsumeValue, IsVarint, VarintValue;
    var tag, tail := TagFound(raw);
    var (number, wireType, n) := ConsumeTag(raw).value;
    item, rest := BodyFound(number, tag, wireType, tail);
  }

  lemma TagFound(raw: bytes) returns (tag: bytes, tail: bytes)
    requires ConsumeTag(raw).Some?
    ensures var (number, wireType, n) := ConsumeTag(raw).value;
            && 1 <= number <= MAX_FIELD_NUMBER && n == |tag| <= |raw|
            && raw == tag + tail && tail == raw[n..]
            && IsVarint(tag) && VarintValue(tag) == 8 * number + wireType
  {
    tag, tail := VarintFound(raw);
  }

  lemma BodyFound(number: nat, tag: bytes, wireType: nat, tail: bytes) returns (item: Item, rest: bytes)
    requires ConsumeValue(wireType, tail).Some?
    requires 1 <= number <= MAX_FIELD_NUMBER && IsVarint(tag) && VarintValue(tag) == 8 * number + wireType
    ensures item.WellFormed() && tail == item.Body() + rest
    ensures item.number == number && item.tag == tag && wireType == WireTypeOf(item.Value())
    ensures var (value, m) := ConsumeValue(wireType, tail).value;
            item.Value() == value && m == |item.Body()| && m <= |tail| && rest == tail[m..]
  {
    hide IsVarint, VarintValue, ConsumeVarint, ConsumeBytes;
    if wireType == BYTES_TYPE {
      var length, payload;
      length, payload, rest := BytesFound(tail);
      item := BytesItem(number, tag, length, payload);
    } else {
      var encoded;
      encoded, rest := VarintFound(tail);
      item := VarintItem(number, tag, encoded);
    }
  }

  lemma VarintFound(b: bytes) returns (encoded: bytes, rest: bytes)
    requires ConsumeVarint(b).Some?
    ensures b == encoded + rest && IsVarint(encoded)
    ensures ConsumeVarint(b) == Some((VarintValue(encoded), |encoded|)) && rest == b[|encoded|..]
  {
    TakeVarintSound(b, 10);
    var n := ConsumeVarint(b).value.1;
    encoded, rest := b[..n], b[n..];
  }

  lemma BytesFound(b: bytes) returns (length: bytes, payload: bytes, rest: bytes)
    requires ConsumeBytes(b).Some?
    ensures b == length + payload + rest && IsVarint(length) && VarintValue(length) == |payload|
    ensures ConsumeBytes(b) == Some((payload, |length + payload|)) && rest == b[|length + payload|..]
  {
    var tail;
    length, tail := VarintFound(b);
    hide IsVarint, VarintValue, ConsumeVarint;
    var n := |length|;
    var m := ConsumeBytes(b).value.1;
    payload, rest := b[n..m], b[m..];
    assert b == b[..n] + b[n..m] + b[m..] && b[..n] == length;
  }

  /** A tag is never longer than the bytes it was read from. */
  lemma TagWithin(raw: bytes)
    requires ConsumeTag(raw).Some?
    ensures 0 < ConsumeTag(raw).value.2 <= |raw|
  {
  }

  /** Well-formed fields split a byte string in one way only. */
  lemma {:induction false} SplitUnique(xs: seq<Item>, ys: seq<Item>)
    requires forall i :: 0 <= i < |xs| ==> xs[i].WellFormed()
    requires forall i :: 0 <= i < |ys| ==> ys[i].WellFormed()
    requires WireAll(xs) == WireAll(ys)
    ensures xs == ys
    decreases |xs|
  {
    if xs != [] && ys != [] {
      HeadUnique(xs[0], WireAll(xs[1..]), ys[0], WireAll(ys[1..]));
      SplitUnique(xs[1..], ys[1..]);
      assert xs == [xs[0]] + xs[1..] && ys == [ys[0]] + ys[1..];
    } else {
      WireNonEmpty(xs);
      WireNonEmpty(ys);
    }
  }

  lemma WireNonEmpty(xs: seq<Item>)
    requires forall i :: 0 <= i < |xs| ==> xs[i].WellFormed()
    ensures WireAll(xs) == [] <==> xs == []
  {
  }

  lemma HeadUnique(x: Item, xRest: bytes, y: Item, yRest: bytes)
    requires x.WellFormed() && y.WellFormed()
    requires x.tag + (x.Body() + xRest) == y.tag + (y.Body() + yRest)
    ensures x == y && xRest == yRest
  {
    hide IsVarintWithin, ConsumeVarint;
    TagRead(x, x.Body() + xRest);
    TagRead(y, y.Body() + yRest);
    SplitEqual(x.tag, x.Body() + xRest, y.tag, y.Body() + yRest);
    BodyRead(x, xRest);
    BodyRead(y, yRest);
    SplitEqual(x.Body(), xRest, y.Body(), yRest);
    if x.BytesItem? {
      assert |x.payload| == |y.payload|;
      SplitEqual(x.length, x.payload, y.length, y.payload);
    }
  }
}
