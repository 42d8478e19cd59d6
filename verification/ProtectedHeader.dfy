/** The protected header of a sealed invocation: claims in, claims out, with `crit` checked exactly. */
module ProtectedHeader {
  import opened Wrappers
  import opened Bytes
  import opened Utf8
  import opened Cbor

  const LABEL_IN_REPLY_TO := -70001
  const LABEL_REQUEST_HASH := -70002
  const LABEL_SENDER_KEY_ID := -70003
  const LABEL_RESPONSE_KEY_ID := -70004
  const LABEL_RESPONSE_SUBJECT := -70005
  const LABEL_FRESHNESS_CHALLENGE := -70008

  const LABEL_ALG := 1
  const LABEL_CRIT := 2
  const LABEL_CONTENT := 3
  const LABEL_CWT_CLAIMS := 15

  const CWT_ISSUER := 1
  const CWT_AUDIENCE := 3
  const CWT_EXPIRES_AT := 4
  const CWT_ISSUED_AT := 6
  const CWT_ID := 7

  const ALG_A256GCM := 3
  const FRESHNESS_CHALLENGE_LEN := 32

  datatype HeaderError =
    | DecodeFailed
    | AlgMismatch
    | MissingContentType
    | MissingCwtClaims
    | MissingIat
    | MissingCti
    | BadFreshnessChallenge
    | MissingCrit
    | NonIntegerCrit
    | CritMismatch

  /** Optional byte strings are `None` where the source has nil. An empty string means an absent text. */
  datatype Claims = Claims(
    issuer: bytes,
    audience: bytes,
    expiresAt: int64,
    issuedAt: int64,
    messageID: Option<bytes>,
    senderKeyID: bytes,
    responseKeyID: bytes,
    responseSubject: bytes,
    inReplyTo: Option<bytes>,
    requestHash: Option<bytes>,
    freshnessChallenge: Option<bytes>)

  const NO_CLAIMS := Claims([], [], 0, 0, None, [], [], [], None, None, None)

  datatype Parsed = Parsed(contentType: bytes, claims: Claims)

  // ---------- crit ----------

  function AddWhen(labels: seq<int>, present: bool, l: int): seq<int> {
    if present then labels + [l] else labels
  }

  function CritLabels(c: Claims): seq<int> {
    var l0 := [LABEL_CONTENT, LABEL_CWT_CLAIMS];
    var l1 := AddWhen(l0, c.inReplyTo.Some?, LABEL_IN_REPLY_TO);
    var l2 := AddWhen(l1, c.requestHash.Some?, LABEL_REQUEST_HASH);
    var l3 := AddWhen(l2, c.senderKeyID != [], LABEL_SENDER_KEY_ID);
    var l4 := AddWhen(l3, c.responseKeyID != [], LABEL_RESPONSE_KEY_ID);
    var l5 := AddWhen(l4, c.responseSubject != [], LABEL_RESPONSE_SUBJECT);
    AddWhen(l5, c.freshnessChallenge.Some?, LABEL_FRESHNESS_CHALLENGE)
  }

  method BuildCritLabels(c: Claims) returns (labels: seq<int>)
    ensures labels == CritLabels(c)
  {
    labels := [LABEL_CONTENT, LABEL_CWT_CLAIMS];
    if c.inReplyTo.Some? {
      labels := labels + [LABEL_IN_REPLY_TO];
    }
    if c.requestHash.Some? {
      labels := labels + [LABEL_REQUEST_HASH];
    }
    if c.senderKeyID != [] {
      labels := labels + [LABEL_SENDER_KEY_ID];
    }
    if c.responseKeyID != [] {
      labels := labels + [LABEL_RESPONSE_KEY_ID];
    }
    if c.responseSubject != [] {
      labels := labels + [LABEL_RESPONSE_SUBJECT];
    }
    if c.freshnessChallenge.Some? {
      labels := labels + [LABEL_FRESHNESS_CHALLENGE];
    }
  }

  /** The claim that label `l` stands for is carried. */
  predicate Carried(c: Claims, l: int) {
    || l == 3 || l == 15
    || (l == -70001 && c.inReplyTo.Some?)
    || (l == -70002 && c.requestHash.Some?)
    || (l == -70003 && c.senderKeyID != [])
    || (l == -70004 && c.responseKeyID != [])
    || (l == -70005 && c.responseSubject != [])
    || (l == -70008 && c.freshnessChallenge.Some?)
  }

  /** The CBOR encoding of a label of this profile (section 3.1 of RFC 8949). */
  function LabelBytes(l: int): bytes {
    var major, n := if l < 0 then 0x20 else 0, if l < 0 then -1 - l else l;
    if n < 24 then [major + n]
    else [major + 26] + BigEndian(n, 4)
  }

  /** Bytewise lexicographic order: at the first difference, or where one ends before the other. */
  ghost predicate BytewiseLess(x: bytes, y: bytes) {
    exists k :: 0 <= k <= |x| && k < |y| && x[..k] == y[..k] && (k == |x| || x[k] < y[k])
  }

  lemma FourBytes(n: nat)
    requires n < 0x2_0000
    ensures BigEndian(n, 4) == [0, n / 0x1_0000, n / 0x100 % 0x100, n % 0x100]
  {
    assert BigEndian(n, 4) == BigEndian(n / 256, 3) + [n % 256];
    assert BigEndian(n / 256, 3) == BigEndian(n / 256 / 256, 2) + [n / 256 % 256];
    assert BigEndian(n / 256 / 256, 2) == BigEndian(n / 256 / 256 / 256, 1) + [n / 256 / 256 % 256];
    assert BigEndian(n / 256 / 256 / 256, 1) == BigEndian(n / 256 / 256 / 256 / 256, 0) + [n / 256 / 256 / 256 % 256];
  }

  /** The private labels grow bytewise as their numbers fall. */
  lemma PrivateLabelsOrder(l: int, k: int)
    requires -70008 <= k < l <= -70001
    ensures BytewiseLess(LabelBytes(l), LabelBytes(k))
  {
    var n, m := -1 - l, -1 - k;
    FourBytes(n);
    FourBytes(m);
    assert n / 0x1_0000 == 1 && m / 0x1_0000 == 1 && n / 0x100 % 0x100 == 17 && m / 0x100 % 0x100 == 17;
    hide BigEndian;
    var x, y := LabelBytes(l), LabelBytes(k);
    assert x == [0x3A, 0, 1, 17, n % 0x100] && y == [0x3A, 0, 1, 17, m % 0x100];
    assert x[..4] == y[..4] && x[4] < y[4];
  }

  /** Content type before CWT claims before every private label. */
  lemma PublicLabelsOrder(l: int)
    requires -70008 <= l <= -70001
    ensures BytewiseLess(LabelBytes(LABEL_CONTENT), LabelBytes(LABEL_CWT_CLAIMS))
    ensures BytewiseLess(LabelBytes(LABEL_CONTENT), LabelBytes(l))
    ensures BytewiseLess(LabelBytes(LABEL_CWT_CLAIMS), LabelBytes(l))
  {
  }

  ghost predicate StrictlyIncreasing(labels: seq<int>) {
    forall i, j :: 0 <= i < j < |labels| ==> BytewiseLess(LabelBytes(labels[i]), LabelBytes(labels[j]))
  }

  /** Content type and CWT claims, then private labels with falling numbers, none below `floor`. */
  ghost predicate Falling(labels: seq<int>, floor: int) {
    && |labels| >= 2 && labels[0] == LABEL_CONTENT && labels[1] == LABEL_CWT_CLAIMS
    && (forall i :: 2 <= i < |labels| ==> -70008 <= labels[i] <= -70001 && floor <= labels[i])
    && (forall i, j :: 2 <= i < j < |labels| ==> labels[j] < labels[i])
  }

  lemma FallingAdd(labels: seq<int>, floor: int, present: bool, l: int)
    requires Falling(labels, floor) && -70008 <= l <= -70001 && l < floor
    ensures Falling(AddWhen(labels, present, l), l)
    ensures forall k :: k in AddWhen(labels, present, l) <==> k in labels || (present && k == l)
  {
  }

  lemma FallingIncreases(labels: seq<int>, floor: int)
    requires Falling(labels, floor)
    ensures StrictlyIncreasing(labels)
  {
    hide BytewiseLess, LabelBytes;
    PublicLabelsOrder(-70001);
    forall i, j | 0 <= i < j < |labels|
      ensures BytewiseLess(LabelBytes(labels[i]), LabelBytes(labels[j]))
    {
      if i >= 2 {
        PrivateLabelsOrder(labels[i], labels[j]);
      } else if j >= 2 {
        PublicLabelsOrder(labels[j]);
      }
    }
  }

  /** `crit` lists exactly the labels of the claims carried, each once, in strictly increasing bytewise
      order of their encodings. */
  lemma CritLabelsCanonical(c: Claims)
    ensures forall l :: l in CritLabels(c) <==> Carried(c, l)
    ensures StrictlyIncreasing(CritLabels(c))
  {
    hide Falling, AddWhen, StrictlyIncreasing;
    var l0 := [LABEL_CONTENT, LABEL_CWT_CLAIMS];
    FallingStart();
    FallingAdd(l0, 0, c.inReplyTo.Some?, LABEL_IN_REPLY_TO);
    var l1 := AddWhen(l0, c.inReplyTo.Some?, LABEL_IN_REPLY_TO);
    FallingAdd(l1, LABEL_IN_REPLY_TO, c.requestHash.Some?, LABEL_REQUEST_HASH);
    var l2 := AddWhen(l1, c.requestHash.Some?, LABEL_REQUEST_HASH);
    FallingAdd(l2, LABEL_REQUEST_HASH, c.senderKeyID != [], LABEL_SENDER_KEY_ID);
    var l3 := AddWhen(l2, c.senderKeyID != [], LABEL_SENDER_KEY_ID);
    FallingAdd(l3, LABEL_SENDER_KEY_ID, c.responseKeyID != [], LABEL_RESPONSE_KEY_ID);
    var l4 := AddWhen(l3, c.responseKeyID != [], LABEL_RESPONSE_KEY_ID);
    FallingAdd(l4, LABEL_RESPONSE_KEY_ID, c.responseSubject != [], LABEL_RESPONSE_SUBJECT);
    var l5 := AddWhen(l4, c.responseSubject != [], LABEL_RESPONSE_SUBJECT);
    FallingAdd(l5, LABEL_RESPONSE_SUBJECT, c.freshnessChallenge.Some?, LABEL_FRESHNESS_CHALLENGE);
    FallingIncreases(CritLabels(c), LABEL_FRESHNESS_CHALLENGE);
  }

  lemma FallingStart()
    ensures Falling([LABEL_CONTENT, LABEL_CWT_CLAIMS], 0)
  {
  }

  // ---------- encoding ----------

  function PutWhen(m: map<int, Value>, present: bool, l: int, v: Value): (r: map<int, Value>)
    ensures |r| <= |m| + 1
  {
    if present then
      assert m[l := v].Keys == m.Keys + {l};
      m[l := v]
    else m
  }

  function OptionalBytes(o: Option<bytes>): Value {
    match o
    case None => Null
    case Some(b) => Bytes(b)
  }

  function Ints(labels: seq<int>): seq<Value> {
    seq(|labels|, i requires 0 <= i < |labels| => Int(labels[i]))
  }

  function CwtMap(c: Claims): map<int, Value> {
    var m0 := map[CWT_ISSUED_AT := Int(c.issuedAt), CWT_ID := OptionalBytes(c.messageID)];
    var m1 := PutWhen(m0, c.issuer != [], CWT_ISSUER, Text(c.issuer));
    var m2 := PutWhen(m1, c.audience != [], CWT_AUDIENCE, Text(c.audience));
    PutWhen(m2, c.expiresAt != 0, CWT_EXPIRES_AT, Int(c.expiresAt))
  }

  function PublicMap(contentType: bytes, c: Claims): map<int, Value> {
    map[LABEL_ALG := Int(ALG_A256GCM),
        LABEL_CRIT := Array(Ints(CritLabels(c))),
        LABEL_CONTENT := Text(contentType),
        LABEL_CWT_CLAIMS := Map(CwtMap(c))]
  }

  function ProtectedMap(contentType: bytes, c: Claims): map<int, Value> {
    var m0 := PublicMap(contentType, c);
    var m1 := PutWhen(m0, c.inReplyTo.Some?, LABEL_IN_REPLY_TO, OptionalBytes(c.inReplyTo));
    var m2 := PutWhen(m1, c.requestHash.Some?, LABEL_REQUEST_HASH, OptionalBytes(c.requestHash));
    var m3 := PutWhen(m2, c.senderKeyID != [], LABEL_SENDER_KEY_ID, Bytes(c.senderKeyID));
    var m4 := PutWhen(m3, c.responseKeyID != [], LABEL_RESPONSE_KEY_ID, Text(c.responseKeyID));
    var m5 := PutWhen(m4, c.responseSubject != [], LABEL_RESPONSE_SUBJECT, Text(c.responseSubject));
    PutWhen(m5, c.freshnessChallenge.Some?, LABEL_FRESHNESS_CHALLENGE, OptionalBytes(c.freshnessChallenge))
  }

  function EncodeProtected(codec: Codec, contentType: bytes, c: Claims): bytes {
    codec.encode(Map(ProtectedMap(contentType, c)))
  }

  method BuildCwt(c: Claims) returns (cwt: map<int, Value>)
    ensures cwt == CwtMap(c)
  {
    cwt := map[CWT_ISSUED_AT := Int(c.issuedAt), CWT_ID := OptionalBytes(c.messageID)];
    if c.issuer != [] {
      cwt := cwt[CWT_ISSUER := Text(c.issuer)];
    }
    if c.audience != [] {
      cwt := cwt[CWT_AUDIENCE := Text(c.audience)];
    }
    if c.expiresAt != 0 {
      cwt := cwt[CWT_EXPIRES_AT := Int(c.expiresAt)];
    }
  }

  /** Fills the header map claim by claim. */
  method EncryptProtected(codec: Codec, contentType: bytes, c: Claims) returns (raw: bytes)
    ensures raw == EncodeProtected(codec, contentType, c)
  {
    hide CritLabels, Ints, CwtMap;
    var labels := BuildCritLabels(c);
    var cwt := BuildCwt(c);
    var m := map[
      LABEL_ALG := Int(ALG_A256GCM),
      LABEL_CRIT := Array(Ints(labels)),
      LABEL_CONTENT := Text(contentType),
      LABEL_CWT_CLAIMS := Map(cwt)];
    ghost var done := PublicMap(contentType, c);
    assert m == done;
    if c.inReplyTo.Some? {
      m := m[LABEL_IN_REPLY_TO := Bytes(c.inReplyTo.value)];
    }
    done := PutWhen(done, c.inReplyTo.Some?, LABEL_IN_REPLY_TO, OptionalBytes(c.inReplyTo));
    assert m == done;
    if c.requestHash.Some? {
      m := m[LABEL_REQUEST_HASH := Bytes(c.requestHash.value)];
    }
    done := PutWhen(done, c.requestHash.Some?, LABEL_REQUEST_HASH, OptionalBytes(c.requestHash));
    assert m == done;
    if c.senderKeyID != [] {
      m := m[LABEL_SENDER_KEY_ID := Bytes(c.senderKeyID)];
    }
    done := PutWhen(done, c.senderKeyID != [], LABEL_SENDER_KEY_ID, Bytes(c.senderKeyID));
    assert m == done;
    if c.responseKeyID != [] {
      m := m[LABEL_RESPONSE_KEY_ID := Text(c.responseKeyID)];
    }
    done := PutWhen(done, c.responseKeyID != [], LABEL_RESPONSE_KEY_ID, Text(c.responseKeyID));
    assert m == done;
    if c.responseSubject != [] {
      m := m[LABEL_RESPONSE_SUBJECT := Text(c.responseSubject)];
    }
    done := PutWhen(done, c.responseSubject != [], LABEL_RESPONSE_SUBJECT, Text(c.responseSubject));
    assert m == done;
    if c.freshnessChallenge.Some? {
      m := m[LABEL_FRESHNESS_CHALLENGE := Bytes(c.freshnessChallenge.value)];
    }
    hide PutWhen;
    raw := codec.encode(Map(m));
  }

  // ---------- parsing ----------

  function TextOr(v: Value): bytes {
    if v.Text? then v.t else []
  }

  function BytesOption(v: Value): Option<bytes> {
    if v.Bytes? then Some(v.b) else None
  }

  /** The labels of a `crit` array, if they are all integers. */
  function IntLabels(a: seq<Value>): Option<seq<int>> {
    if forall i :: 0 <= i < |a| ==> Int64Value(a[i]).Some?
    then Some(seq(|a|, i requires 0 <= i < |a| => Int64Value(a[i]).value))
    else None
  }

  function CheckCrit(v: Value, c: Claims): Option<HeaderError> {
    if !v.Array? || v.a == [] then Some(MissingCrit)
    else
      match IntLabels(v.a)
      case None => Some(NonIntegerCrit)
      case Some(crit) => if crit != CritLabels(c) then Some(CritMismatch) else None
  }

  /** The claims of the CWT map. */
  function CwtPart(cwt: map<int, Value>): Result<Claims, HeaderError> {
    if Int64Value(Get(cwt, CWT_ISSUED_AT)).None? then Err(MissingIat)
    else if !Get(cwt, CWT_ID).Bytes? then Err(MissingCti)
    else
      Ok(Claims(
        TextOr(Get(cwt, CWT_ISSUER)),
        TextOr(Get(cwt, CWT_AUDIENCE)),
        match Int64Value(Get(cwt, CWT_EXPIRES_AT)) case Some(exp) => exp case None => 0,
        Int64Value(Get(cwt, CWT_ISSUED_AT)).value,
        Some(Get(cwt, CWT_ID).b),
        [], [], [], None, None, None))
  }

  /** The claims of the header itself, added to those of the CWT map. */
  function PrivatePart(m: map<int, Value>, c: Claims): Result<Claims, HeaderError> {
    var freshness := BytesOption(Get(m, LABEL_FRESHNESS_CHALLENGE));
    if freshness.Some? && |freshness.value| != FRESHNESS_CHALLENGE_LEN then Err(BadFreshnessChallenge)
    else
      Ok(c.(inReplyTo := BytesOption(Get(m, LABEL_IN_REPLY_TO)),
            requestHash := BytesOption(Get(m, LABEL_REQUEST_HASH)),
            senderKeyID := match BytesOption(Get(m, LABEL_SENDER_KEY_ID)) case Some(b) => b case None => [],
            responseKeyID := TextOr(Get(m, LABEL_RESPONSE_KEY_ID)),
            responseSubject := TextOr(Get(m, LABEL_RESPONSE_SUBJECT)),
            freshnessChallenge := freshness))
  }

  function ParseMap(m: map<int, Value>): Result<Parsed, HeaderError> {
    if Int64Value(Get(m, LABEL_ALG)) != Some(ALG_A256GCM) then Err(AlgMismatch)
    else if !Get(m, LABEL_CONTENT).Text? || Get(m, LABEL_CONTENT).t == [] then Err(MissingContentType)
    else
      match AsMap(Get(m, LABEL_CWT_CLAIMS))
      case None => Err(MissingCwtClaims)
      case Some(cwt) =>
        match CwtPart(cwt)
        case Err(e) => Err(e)
        case Ok(base) =>
          match PrivatePart(m, base)
          case Err(e) => Err(e)
          case Ok(c) =>
            match CheckCrit(Get(m, LABEL_CRIT), c)
            case Some(e) => Err(e)
            case None => Ok(Parsed(Get(m, LABEL_CONTENT).t, c))
  }

  /** Header bytes as a map with int64 keys. */
  function HeaderMap(codec: Codec, raw: bytes): Option<map<int, Value>> {
    match codec.decode(raw)
    case None => None
    case Some(v) => AsMap(v)
  }

  function ParseProtected(codec: Codec, raw: bytes): Result<Parsed, HeaderError> {
    match HeaderMap(codec, raw)
    case None => Err(DecodeFailed)
    case Some(m) => ParseMap(m)
  }

  method ParseCwt(cwt: map<int, Value>) returns (r: Result<Claims, HeaderError>)
    ensures r == CwtPart(cwt)
  {
    hide Get;
    var parsed := NO_CLAIMS;
    if Get(cwt, CWT_ISSUER).Text? {
      parsed := parsed.(issuer := Get(cwt, CWT_ISSUER).t);
    }
    if Get(cwt, CWT_AUDIENCE).Text? {
      parsed := parsed.(audience := Get(cwt, CWT_AUDIENCE).t);
    }
    var exp := Int64Value(Get(cwt, CWT_EXPIRES_AT));
    if exp.Some? {
      parsed := parsed.(expiresAt := exp.value);
    }
    var iat := Int64Value(Get(cwt, CWT_ISSUED_AT));
    if iat.None? {
      return Err(MissingIat);
    }
    parsed := parsed.(issuedAt := iat.value);
    if !Get(cwt, CWT_ID).Bytes? {
      return Err(MissingCti);
    }
    parsed := parsed.(messageID := Some(Get(cwt, CWT_ID).b));
    return Ok(parsed);
  }

  method ParsePrivate(m: map<int, Value>, c: Claims) returns (r: Result<Claims, HeaderError>)
    requires c == Claims(c.issuer, c.audience, c.expiresAt, c.issuedAt, c.messageID, [], [], [], None, None, None)
    ensures r == PrivatePart(m, c)
  {
    hide Get;
    var parsed := c;
    if Get(m, LABEL_IN_REPLY_TO).Bytes? {
      parsed := parsed.(inReplyTo := Some(Get(m, LABEL_IN_REPLY_TO).b));
    }
    assert parsed.inReplyTo == BytesOption(Get(m, LABEL_IN_REPLY_TO));
    if Get(m, LABEL_REQUEST_HASH).Bytes? {
      parsed := parsed.(requestHash := Some(Get(m, LABEL_REQUEST_HASH).b));
    }
    assert parsed.requestHash == BytesOption(Get(m, LABEL_REQUEST_HASH));
    if Get(m, LABEL_SENDER_KEY_ID).Bytes? {
      parsed := parsed.(senderKeyID := Get(m, LABEL_SENDER_KEY_ID).b);
    }
    if Get(m, LABEL_RESPONSE_KEY_ID).Text? {
      parsed := parsed.(responseKeyID := Get(m, LABEL_RESPONSE_KEY_ID).t);
    }
    assert parsed.responseKeyID == TextOr(Get(m, LABEL_RESPONSE_KEY_ID));
    if Get(m, LABEL_RESPONSE_SUBJECT).Text? {
      parsed := parsed.(responseSubject := Get(m, LABEL_RESPONSE_SUBJECT).t);
    }
    assert parsed.responseSubject == TextOr(Get(m, LABEL_RESPONSE_SUBJECT));
    if Get(m, LABEL_FRESHNESS_CHALLENGE).Bytes? {
      var value := Get(m, LABEL_FRESHNESS_CHALLENGE).b;
      if |value| != FRESHNESS_CHALLENGE_LEN {
        return Err(BadFreshnessChallenge);
      }
      parsed := parsed.(freshnessChallenge := Some(value));
    }
    return Ok(parsed);
  }

  method ParseCrit(v: Value, parsed: Claims) returns (err: Option<HeaderError>)
    ensures err == CheckCrit(v, parsed)
  {
    hide CritLabels;
    if !v.Array? || |v.a| == 0 {
      return Some(MissingCrit);
    }
    var crit: seq<int> := [];
    for i := 0 to |v.a|
      invariant |crit| == i
      invariant forall j :: 0 <= j < i ==> Int64Value(v.a[j]).Some? && Int64Value(v.a[j]).value == crit[j]
    {
      var l := Int64Value(v.a[i]);
      if l.None? {
        return Some(NonIntegerCrit);
      }
      crit := crit + [l.value];
    }
    assert IntLabels(v.a).Some? && IntLabels(v.a).value == crit;
    var expected := BuildCritLabels(parsed);
    if crit != expected {
      return Some(CritMismatch);
    }
    return None;
  }

  /** Fills the claims field by field and checks `crit` label by label. */
  method ParseEncryptProtected(codec: Codec, raw: bytes) returns (r: Result<Parsed, HeaderError>)
    ensures r == ParseProtected(codec, raw)
  {
    hide CritLabels, CheckCrit, PrivatePart, Get;
    var decoded := codec.decode(raw);
    if decoded.None? || AsMap(decoded.value).None? {
      return Err(DecodeFailed);
    }
    var m := AsMap(decoded.value).value;
    if Int64Value(Get(m, LABEL_ALG)) != Some(ALG_A256GCM) {
      return Err(AlgMismatch);
    }
    var contentType := Get(m, LABEL_CONTENT);
    if !contentType.Text? || contentType.t == [] {
      return Err(MissingContentType);
    }
    var cwt := AsMap(Get(m, LABEL_CWT_CLAIMS));
    if cwt.None? {
      return Err(MissingCwtClaims);
    }
    var base := ParseCwt(cwt.value);
    if base.Err? {
      return Err(base.error);
    }
    var parsed := ParsePrivate(m, base.value);
    if parsed.Err? {
      return Err(parsed.error);
    }
    var critErr := ParseCrit(Get(m, LABEL_CRIT), parsed.value);
    if critErr.Some? {
      return Err(critErr.value);
    }
    return Ok(Parsed(contentType.t, parsed.value));
  }

  // ---------- what the encoder puts where ----------

  const LABELS: set<int> := {
    LABEL_ALG, LABEL_CRIT, LABEL_CONTENT, LABEL_CWT_CLAIMS, LABEL_IN_REPLY_TO, LABEL_REQUEST_HASH,
    LABEL_SENDER_KEY_ID, LABEL_RESPONSE_KEY_ID, LABEL_RESPONSE_SUBJECT, LABEL_FRESHNESS_CHALLENGE}

  /** The entry under each label; null where there is none. */
  function HeaderEntry(contentType: bytes, c: Claims, l: int): Value {
    if l == 1 then Int(3)
    else if l == 2 then Array(Ints(CritLabels(c)))
    else if l == 3 then Text(contentType)
    else if l == 15 then Map(CwtMap(c))
    else if l == -70001 then OptionalBytes(c.inReplyTo)
    else if l == -70002 then OptionalBytes(c.requestHash)
    else if l == -70003 && c.senderKeyID != [] then Bytes(c.senderKeyID)
    else if l == -70004 && c.responseKeyID != [] then Text(c.responseKeyID)
    else if l == -70005 && c.responseSubject != [] then Text(c.responseSubject)
    else if l == -70008 then OptionalBytes(c.freshnessChallenge)
    else Null
  }

  lemma GetPut(m: map<int, Value>, present: bool, l: int, v: Value, k: int)
    ensures Get(PutWhen(m, present, l, v), k) == if present && k == l then v else Get(m, k)
    ensures k in PutWhen(m, present, l, v) <==> k in m || (present && k == l)
  {
  }

  lemma PublicEntry(contentType: bytes, c: Claims, k: int)
    ensures Get(PublicMap(contentType, c), k)
            == if k in {LABEL_ALG, LABEL_CRIT, LABEL_CONTENT, LABEL_CWT_CLAIMS}
               then HeaderEntry(contentType, c, k) else Null
    ensures k in PublicMap(contentType, c) <==> k in {LABEL_ALG, LABEL_CRIT, LABEL_CONTENT, LABEL_CWT_CLAIMS}
    ensures |PublicMap(contentType, c)| == 4
  {
  }

  lemma ProtectedEntry(contentType: bytes, c: Claims, k: int)
    ensures Get(ProtectedMap(contentType, c), k) == HeaderEntry(contentType, c, k)
    ensures k in ProtectedMap(contentType, c) ==> k in LABELS
    ensures |ProtectedMap(contentType, c)| <= 10
  {
    hide CritLabels, Ints, CwtMap, PublicMap, PutWhen, Get;
    PublicEntry(contentType, c, k);
    var m0 := PublicMap(contentType, c);
    GetPut(m0, c.inReplyTo.Some?, LABEL_IN_REPLY_TO, OptionalBytes(c.inReplyTo), k);
    var m1 := PutWhen(m0, c.inReplyTo.Some?, LABEL_IN_REPLY_TO, OptionalBytes(c.inReplyTo));
    GetPut(m1, c.requestHash.Some?, LABEL_REQUEST_HASH, OptionalBytes(c.requestHash), k);
    var m2 := PutWhen(m1, c.requestHash.Some?, LABEL_REQUEST_HASH, OptionalBytes(c.requestHash));
    GetPut(m2, c.senderKeyID != [], LABEL_SENDER_KEY_ID, Bytes(c.senderKeyID), k);
    var m3 := PutWhen(m2, c.senderKeyID != [], LABEL_SENDER_KEY_ID, Bytes(c.senderKeyID));
    GetPut(m3, c.responseKeyID != [], LABEL_RESPONSE_KEY_ID, Text(c.responseKeyID), k);
    var m4 := PutWhen(m3, c.responseKeyID != [], LABEL_RESPONSE_KEY_ID, Text(c.responseKeyID));
    GetPut(m4, c.responseSubject != [], LABEL_RESPONSE_SUBJECT, Text(c.responseSubject), k);
    var m5 := PutWhen(m4, c.responseSubject != [], LABEL_RESPONSE_SUBJECT, Text(c.responseSubject));
    GetPut(m5, c.freshnessChallenge.Some?, LABEL_FRESHNESS_CHALLENGE, OptionalBytes(c.freshnessChallenge), k);
  }

  lemma CwtGets(c: Claims)
    ensures var m := CwtMap(c);
            && Get(m, 1) == (if c.issuer != [] then Text(c.issuer) else Null)
            && Get(m, 3) == (if c.audience != [] then Text(c.audience) else Null)
            && Get(m, 4) == (if c.expiresAt != 0 then Int(c.expiresAt) else Null)
            && Get(m, 6) == Int(c.issuedAt)
            && Get(m, 7) == OptionalBytes(c.messageID)
            && m.Keys <= {1, 3, 4, 6, 7}
            && |m| <= 5
  {
  }

  // ---------- the round trip ----------

  /** What the claims must meet to survive a round trip, all of it visible to the encoder's caller. */
  predicate Encodable(contentType: bytes, c: Claims) {
    && contentType != [] && TextFieldsValid(contentType, c)
    && c.messageID.Some?
    && (c.freshnessChallenge.Some? ==> |c.freshnessChallenge.value| == FRESHNESS_CHALLENGE_LEN)
  }

  predicate TextFieldsValid(contentType: bytes, c: Claims) {
    && Utf8Valid(contentType)
    && Utf8Valid(c.issuer) && Utf8Valid(c.audience) && Utf8Valid(c.responseKeyID) && Utf8Valid(c.responseSubject)
  }

  lemma CritReadsBack(c: Claims)
    ensures CheckCrit(Array(Ints(CritLabels(c))), c) == None
  {
  }

  lemma CwtReadsBack(c: Claims)
    ensures CwtPart(CwtMap(c)) == if c.messageID.None? then Err(MissingCti) else
              Ok(Claims(c.issuer, c.audience, c.expiresAt, c.issuedAt, c.messageID, [], [], [], None, None, None))
    ensures AsMap(Map(CwtMap(c))) == Some(CwtMap(c))
  {
    CwtGets(c);
    hide Get, CwtMap;
  }

  lemma PrivateReadsBack(contentType: bytes, c: Claims)
    ensures var base := Claims(c.issuer, c.audience, c.expiresAt, c.issuedAt, c.messageID, [], [], [], None, None, None);
            PrivatePart(ProtectedMap(contentType, c), base) ==
            if c.freshnessChallenge.Some? && |c.freshnessChallenge.value| != FRESHNESS_CHALLENGE_LEN
            then Err(BadFreshnessChallenge) else Ok(c)
  {
    ProtectedEntry(contentType, c, LABEL_IN_REPLY_TO);
    ProtectedEntry(contentType, c, LABEL_REQUEST_HASH);
    ProtectedEntry(contentType, c, LABEL_SENDER_KEY_ID);
    ProtectedEntry(contentType, c, LABEL_RESPONSE_KEY_ID);
    ProtectedEntry(contentType, c, LABEL_RESPONSE_SUBJECT);
    ProtectedEntry(contentType, c, LABEL_FRESHNESS_CHALLENGE);
    hide Get, ProtectedMap, CritLabels, CwtMap;
  }

  /** The parser on the encoder's own map. */
  lemma ParseOwnMap(contentType: bytes, c: Claims)
    ensures ParseMap(ProtectedMap(contentType, c)) ==
            if contentType == [] then Err(MissingContentType)
            else if c.messageID.None? then Err(MissingCti)
            else if c.freshnessChallenge.Some? && |c.freshnessChallenge.value| != FRESHNESS_CHALLENGE_LEN
            then Err(BadFreshnessChallenge)
            else Ok(Parsed(contentType, c))
  {
    hide Get, ProtectedMap, CritLabels, CwtMap, CwtPart, PrivatePart, CheckCrit, AsMap;
    ProtectedEntry(contentType, c, LABEL_ALG);
    ProtectedEntry(contentType, c, LABEL_CRIT);
    ProtectedEntry(contentType, c, LABEL_CONTENT);
    ProtectedEntry(contentType, c, LABEL_CWT_CLAIMS);
    CwtReadsBack(c);
    PrivateReadsBack(contentType, c);
    CritReadsBack(c);
  }

  lemma CritPlain(c: Claims)
    ensures Plain(Array(Ints(CritLabels(c))), 3) && TextsValid(Array(Ints(CritLabels(c))))
  {
  }

  lemma CwtPlain(c: Claims)
    ensures Plain(Map(CwtMap(c)), 3)
    ensures TextsValid(Map(CwtMap(c))) <==> Utf8Valid(c.issuer) && Utf8Valid(c.audience)
  {
    CwtGets(c);
    var m := CwtMap(c);
    hide CwtMap;
    forall k | k in m
      ensures -TWO_64 <= k < TWO_64 && Plain(m[k], 2)
      ensures TextsValid(m[k]) <==> (k == CWT_ISSUER ==> Utf8Valid(c.issuer)) && (k == CWT_AUDIENCE ==> Utf8Valid(c.audience))
    {
      assert k in {CWT_ISSUER, CWT_AUDIENCE, CWT_EXPIRES_AT, CWT_ISSUED_AT, CWT_ID};
      assert m[k] == Get(m, k);
    }
    assert c.issuer != [] ==> CWT_ISSUER in m;
    assert c.audience != [] ==> CWT_AUDIENCE in m;
  }

  lemma EntryPlain(contentType: bytes, c: Claims, k: int)
    ensures Plain(HeaderEntry(contentType, c, k), 3)
    ensures TextsValid(HeaderEntry(contentType, c, k)) <==>
              && (k == LABEL_CONTENT ==> Utf8Valid(contentType))
              && (k == LABEL_CWT_CLAIMS ==> Utf8Valid(c.issuer) && Utf8Valid(c.audience))
              && (k == LABEL_RESPONSE_KEY_ID ==> Utf8Valid(c.responseKeyID))
              && (k == LABEL_RESPONSE_SUBJECT ==> Utf8Valid(c.responseSubject))
  {
    CritPlain(c);
    CwtPlain(c);
    hide CritLabels, CwtMap, Ints;
  }

  lemma ProtectedIsPlain(contentType: bytes, c: Claims)
    ensures Plain(Map(ProtectedMap(contentType, c)), 4)
    ensures TextsValid(Map(ProtectedMap(contentType, c))) <==> TextFieldsValid(contentType, c)
  {
    var m := ProtectedMap(contentType, c);
    ProtectedEntry(contentType, c, LABEL_CONTENT);
    ProtectedEntry(contentType, c, LABEL_CWT_CLAIMS);
    ProtectedEntry(contentType, c, LABEL_RESPONSE_KEY_ID);
    ProtectedEntry(contentType, c, LABEL_RESPONSE_SUBJECT);
    hide ProtectedMap, CwtMap, CritLabels;
    forall k | k in m
      ensures -TWO_64 <= k < TWO_64 && m[k] == HeaderEntry(contentType, c, k) && Plain(m[k], 3)
    {
      ProtectedEntry(contentType, c, k);
      EntryPlain(contentType, c, k);
    }
    forall k
      ensures TextsValid(HeaderEntry(contentType, c, k)) <==>
              && (k == LABEL_CONTENT ==> Utf8Valid(contentType))
              && (k == LABEL_CWT_CLAIMS ==> Utf8Valid(c.issuer) && Utf8Valid(c.audience))
              && (k == LABEL_RESPONSE_KEY_ID ==> Utf8Valid(c.responseKeyID))
              && (k == LABEL_RESPONSE_SUBJECT ==> Utf8Valid(c.responseSubject))
    {
      EntryPlain(contentType, c, k);
    }
    assert LABEL_CONTENT in m && LABEL_CWT_CLAIMS in m;
    assert c.responseKeyID != [] ==> LABEL_RESPONSE_KEY_ID in m;
    assert c.responseSubject != [] ==> LABEL_RESPONSE_SUBJECT in m;
  }

  /** The protected header survives encoding and parsing exactly if the claims are encodable, over all
      combinations of claims present and the whole range of timestamps. */
  lemma ProtectedRoundTrip(codec: Codec, contentType: bytes, c: Claims)
    requires Faithful(codec)
    ensures ParseProtected(codec, EncodeProtected(codec, contentType, c)) == Ok(Parsed(contentType, c))
            <==> Encodable(contentType, c)
    ensures !Encodable(contentType, c) ==> ParseProtected(codec, EncodeProtected(codec, contentType, c)).Err?
  {
    ProtectedIsPlain(contentType, c);
    ParseOwnMap(contentType, c);
    var v := Map(ProtectedMap(contentType, c));
    PlainDeeper(v, 4, 8);
    ProtectedKeys(contentType, c);
    hide Plain, TextsValid, ProtectedMap, ParseMap;
    assert codec.decode(codec.encode(v)) == if TextsValid(v) then Some(v) else None;
  }

  lemma ProtectedKeys(contentType: bytes, c: Claims)
    ensures AsMap(Map(ProtectedMap(contentType, c))) == Some(ProtectedMap(contentType, c))
  {
    var m := ProtectedMap(contentType, c);
    hide ProtectedMap, CwtMap, CritLabels;
    forall k | k in m
      ensures MIN_INT64 <= k <= MAX_INT64
    {
      ProtectedEntry(contentType, c, k);
    }
  }

  lemma {:induction false} PlainDeeper(v: Value, d: nat, e: nat)
    requires Plain(v, d) && d <= e
    ensures Plain(v, e)
    decreases d
  {
    match v
    case Array(a) =>
      forall i | 0 <= i < |a| ensures Plain(a[i], e - 1) { PlainDeeper(a[i], d - 1, e - 1); }
    case Map(m) =>
      forall k | k in m ensures Plain(m[k], e - 1) { PlainDeeper(m[k], d - 1, e - 1); }
    case Tagged(_, content) => PlainDeeper(content, d - 1, e - 1);
    case _ =>
  }

  // ---------- what the parser accepts ----------

  /** An accepted header lists in `crit` exactly the labels of the claims it yielded, in canonical order. */
  lemma AcceptedCritExact(codec: Codec, raw: bytes)
    requires ParseProtected(codec, raw).Ok?
    ensures var m := AsMap(codec.decode(raw).value).value; var c := ParseProtected(codec, raw).value.claims;
            && Get(m, LABEL_CRIT).Array?
            && IntLabels(Get(m, LABEL_CRIT).a) == Some(CritLabels(c))
            && StrictlyIncreasing(CritLabels(c))
            && forall l :: l in CritLabels(c) <==> Carried(c, l)
  {
    CritLabelsCanonical(ParseProtected(codec, raw).value.claims);
    hide CritLabels, StrictlyIncreasing, CwtPart, PrivatePart;
  }

  /** The two maps have the same entries under the labels of the profile. */
  ghost predicate SameEntries(m: map<int, Value>, m': map<int, Value>) {
    forall k :: k in LABELS ==> Get(m, k) == Get(m', k)
  }

  lemma SameEntriesParse(m: map<int, Value>, m': map<int, Value>)
    requires SameEntries(m, m')
    ensures ParseMap(m) == ParseMap(m')
  {
    hide Get, CwtPart, CheckCrit;
    assert PrivatePart(m, NO_CLAIMS) == PrivatePart(m', NO_CLAIMS);
  }

  /** Entries under labels the profile does not know never affect the result, however many there are. */
  lemma UnknownEntriesIgnored(codec: Codec, raw: bytes, raw': bytes)
    requires HeaderMap(codec, raw).Some? && HeaderMap(codec, raw').Some?
    requires SameEntries(HeaderMap(codec, raw).value, HeaderMap(codec, raw').value)
    ensures ParseProtected(codec, raw) == ParseProtected(codec, raw')
  {
    hide ParseMap, SameEntries;
    SameEntriesParse(HeaderMap(codec, raw).value, HeaderMap(codec, raw').value);
  }

  /** A header without CWT claims is refused for a missing time of issue: the absent entry reads as null,
      and null as an empty map. */
  lemma AbsentClaimsRefused(m: map<int, Value>)
    requires Int64Value(Get(m, LABEL_ALG)) == Some(ALG_A256GCM)
    requires Get(m, LABEL_CONTENT).Text? && Get(m, LABEL_CONTENT).t != []
    requires LABEL_CWT_CLAIMS !in m
    ensures ParseMap(m) == Err(MissingIat)
  {
    assert AsMap(Get(m, LABEL_CWT_CLAIMS)) == Some(map[]);
  }

  /** Parsing is a normal form: what it yields can be encoded, and parses to itself again. */
  lemma ParseNormalForm(codec: Codec, raw: bytes)
    requires Faithful(codec) && ParseProtected(codec, raw).Ok?
    ensures var p := ParseProtected(codec, raw).value;
            && Encodable(p.contentType, p.claims)
            && ParseProtected(codec, EncodeProtected(codec, p.contentType, p.claims)) == Ok(p)
  {
    var p := ParseProtected(codec, raw).value;
    ParsedIsEncodable(codec, raw);
    ProtectedRoundTrip(codec, p.contentType, p.claims);
  }

  lemma GetTexts(m: map<int, Value>, k: int)
    requires TextsValid(Map(m))
    ensures TextsValid(Get(m, k)) && Utf8Valid(TextOr(Get(m, k)))
  {
  }

  lemma ParsedIsEncodable(codec: Codec, raw: bytes)
    requires Faithful(codec) && ParseProtected(codec, raw).Ok?
    ensures var p := ParseProtected(codec, raw).value; Encodable(p.contentType, p.claims)
  {
    var v := codec.decode(raw).value;
    assert TextsValid(v);
    var m := AsMap(v).value;
    assert TextsValid(Map(m));
    GetTexts(m, LABEL_CONTENT);
    GetTexts(m, LABEL_CWT_CLAIMS);
    GetTexts(m, LABEL_RESPONSE_KEY_ID);
    GetTexts(m, LABEL_RESPONSE_SUBJECT);
    var cwt := AsMap(Get(m, LABEL_CWT_CLAIMS)).value;
    assert TextsValid(Map(cwt));
    GetTexts(cwt, CWT_ISSUER);
    GetTexts(cwt, CWT_AUDIENCE);
    hide CheckCrit, Get, TextsValid, Utf8Valid, Faithful;
  }
}
