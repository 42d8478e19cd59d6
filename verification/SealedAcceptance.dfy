/** Which headers and messages are accepted at all, whoever made them: each accepted one taken apart, with the
    registered numbers of CBOR and COSE written out. */
module SealedAcceptance {
  import opened Wrappers
  import opened Bytes
  import opened Cbor
  import opened ProtectedHeader
  import opened SealedInvocation
  import opened SealedOpening
  import opened SealedBinding

  // ---------- the protected header ----------

  /** Where the encoder writes `w`, the parser takes `v` for the same: it is `w`, or there is no `w` and `v` is
      not a byte string, or an empty one where that means the same. */
  predicate LikeBytes(v: Value, w: Value, emptyIsNone: bool) {
    v == w || (w == Null && (!v.Bytes? || (emptyIsNone && v.b == [])))
  }

  predicate LikeText(v: Value, w: Value) {
    v == w || (w == Null && (!v.Text? || v.t == []))
  }

  predicate LikeTime(v: Value, w: Value) {
    v == w || (w == Null && (v == Int(0) || !v.Int? || v.i < MIN_INT64 || v.i > MAX_INT64))
  }

  /** The CWT claims are the encoder's own, unknown ones and misplaced types aside. */
  predicate LikeOwnCwt(cwt: map<int, Value>, c: Claims) {
    var own := CwtMap(c);
    && LikeText(Get(cwt, 1), Get(own, 1)) && LikeText(Get(cwt, 3), Get(own, 3)) && LikeTime(Get(cwt, 4), Get(own, 4))
    && Get(cwt, 6) == Int(c.issuedAt)
    && c.messageID.Some? && Get(cwt, 7) == Bytes(c.messageID.value)
  }

  /** The header is the encoder's own for this content type and these claims, unknown labels and misplaced types
      aside. */
  predicate LikeOwn(m: map<int, Value>, contentType: bytes, c: Claims) {
    var own := ProtectedMap(contentType, c);
    && Get(m, 1) == Int(3)
    && Get(m, 2) == Get(own, 2)
    && Get(m, 3) == Text(contentType) && contentType != []
    && (Get(m, 15) == Null || (Get(m, 15).Map? && forall k :: k in Get(m, 15).m ==> MIN_INT64 <= k <= MAX_INT64))
    && LikeOwnCwt(if Get(m, 15).Map? then Get(m, 15).m else map[], c)
    && LikeBytes(Get(m, -70001), Get(own, -70001), false)
    && LikeBytes(Get(m, -70002), Get(own, -70002), false)
    && LikeBytes(Get(m, -70003), Get(own, -70003), true)
    && LikeText(Get(m, -70004), Get(own, -70004))
    && LikeText(Get(m, -70005), Get(own, -70005))
    && LikeBytes(Get(m, -70008), Get(own, -70008), false)
    && (c.freshnessChallenge.Some? ==> |c.freshnessChallenge.value| == 32)
  }

  /** `crit` is taken exactly if it is, item for item, the list the encoder writes for these claims. */
  lemma CritExactly(v: Value, c: Claims)
    ensures CheckCrit(v, c) == None <==> v == Array(Ints(CritLabels(c)))
  {
    CritLabelsCanonical(c);
    var labels := CritLabels(c);
    hide CritLabels, StrictlyIncreasing;
    assert 3 in labels;
    forall i | 0 <= i < |labels|
      ensures -70008 <= labels[i] <= 15
    {
      assert labels[i] in labels && Carried(c, labels[i]);
    }
    if CheckCrit(v, c) == None {
      assert IntLabels(v.a) == Some(labels);
      assert v.a == Ints(labels) by {
        forall i | 0 <= i < |v.a|
          ensures v.a[i] == Int(labels[i])
        {
          assert Int64Value(v.a[i]).Some?;
        }
      }
    }
    if v == Array(Ints(labels)) {
      assert IntLabels(v.a).Some?;
      assert IntLabels(v.a).value == labels;
    }
  }

  lemma CwtExactly(cwt: map<int, Value>, c: Claims)
    ensures CwtPart(cwt) == Ok(Claims(c.issuer, c.audience, c.expiresAt, c.issuedAt, c.messageID, [], [], [], None, None, None))
            <==> LikeOwnCwt(cwt, c)
  {
    CwtGets(c);
    hide Get, CwtMap;
  }

  lemma PrivateExactly(m: map<int, Value>, contentType: bytes, base: Claims, c: Claims)
    requires base == Claims(base.issuer, base.audience, base.expiresAt, base.issuedAt, base.messageID, [], [], [], None, None, None)
    ensures var own := ProtectedMap(contentType, c);
            PrivatePart(m, base) == Ok(c) <==>
              && base == Claims(c.issuer, c.audience, c.expiresAt, c.issuedAt, c.messageID, [], [], [], None, None, None)
              && LikeBytes(Get(m, -70001), Get(own, -70001), false)
              && LikeBytes(Get(m, -70002), Get(own, -70002), false)
              && LikeBytes(Get(m, -70003), Get(own, -70003), true)
              && LikeText(Get(m, -70004), Get(own, -70004))
              && LikeText(Get(m, -70005), Get(own, -70005))
              && LikeBytes(Get(m, -70008), Get(own, -70008), false)
              && (c.freshnessChallenge.Some? ==> |c.freshnessChallenge.value| == 32)
  {
    ProtectedEntry(contentType, c, -70001);
    ProtectedEntry(contentType, c, -70002);
    ProtectedEntry(contentType, c, -70003);
    ProtectedEntry(contentType, c, -70004);
    ProtectedEntry(contentType, c, -70005);
    ProtectedEntry(contentType, c, -70008);
    hide Get, ProtectedMap, CritLabels, CwtMap;
  }

  lemma CwtShape(cwt: map<int, Value>)
    requires CwtPart(cwt).Ok?
    ensures var b := CwtPart(cwt).value;
            b == Claims(b.issuer, b.audience, b.expiresAt, b.issuedAt, b.messageID, [], [], [], None, None, None)
  {
  }

  /** Every accepted header, and what it is read as: the encoder's own header for some content type and claims,
      with entries under other labels and wrongly typed entries in the place of absent claims ignored. */
  lemma HeaderAccepted(m: map<int, Value>, contentType: bytes, c: Claims)
    ensures ParseMap(m) == Ok(Parsed(contentType, c)) <==> LikeOwn(m, contentType, c)
  {
    ProtectedEntry(contentType, c, 2);
    hide Get, ProtectedMap, CritLabels, CwtMap, CwtPart, PrivatePart, CheckCrit, LikeOwnCwt, LikeBytes, LikeText, Ints;
    CritExactly(Get(m, 2), c);
    if AsMap(Get(m, 15)).Some? {
      var cwt := AsMap(Get(m, 15)).value;
      CwtExactly(cwt, c);
      if CwtPart(cwt).Ok? {
        CwtShape(cwt);
        PrivateExactly(m, contentType, CwtPart(cwt).value, c);
      } else {
        var base := Claims(c.issuer, c.audience, c.expiresAt, c.issuedAt, c.messageID, [], [], [], None, None, None);
        PrivateExactly(m, contentType, base, c);
      }
    }
  }

  // ---------- the messages ----------

  /** The bytes are a tag `number` around a struct of these items; null stands for a struct of nulls. */
  ghost predicate TagAround(codec: Codec, message: bytes, number: nat, items: seq<Value>) {
    exists v :: TagOn(codec, message, number, items, v)
  }

  ghost predicate TagOn(codec: Codec, message: bytes, number: nat, items: seq<Value>, v: Value) {
    && codec.decode(message) == Some(Tagged(number, v))
    && IsStruct(codec.decode(codec.encode(v)), items)
  }

  predicate IsStruct(v: Option<Value>, items: seq<Value>) {
    v == Some(Array(items)) || (v == Some(Null) && forall i :: 0 <= i < |items| ==> items[i] == Null)
  }

  /** A byte string, and a map with int64 keys; null stands for an empty one. */
  predicate IsBytes(v: Value, b: bytes) {
    v == Bytes(b) || (v == Null && b == [])
  }

  predicate IsMap(v: Value, m: map<int, Value>) {
    (v == Map(m) && forall k :: k in m ==> MIN_INT64 <= k <= MAX_INT64) || (v == Null && m == map[])
  }

  predicate IsHeader(codec: Codec, raw: bytes, m: map<int, Value>) {
    codec.decode(raw).Some? && IsMap(codec.decode(raw).value, m)
  }

  lemma TagTaken(codec: Codec, message: bytes, number: nat, n: nat, e1: Reason, e2: Reason, e3: Reason, items: seq<Value>)
    ensures TaggedBody(codec, message, number, n, e1, e2, e3) == Ok(items)
            <==> |items| == n && TagAround(codec, message, number, items)
  {
    var v := codec.decode(message);
    if v.Some? && v.value.Tagged? && v.value.number == number {
      var body := codec.decode(codec.encode(v.value.content));
      if body.Some? {
        StructTaken(body.value, n, items);
      }
      hide StructItems, IsStruct;
      if TaggedBody(codec, message, number, n, e1, e2, e3) == Ok(items) {
        assert TagOn(codec, message, number, items, v.value.content);
      }
    }
  }

  lemma StructTaken(v: Value, n: nat, items: seq<Value>)
    ensures StructItems(v, n) == Some(items) <==> |items| == n && IsStruct(Some(v), items)
  {
    if v == Null && IsStruct(Some(v), items) && |items| == n {
      assert items == seq(n, _ => Null);
    }
  }

  lemma FieldsTaken(codec: Codec, v: Value, b: bytes, m: map<int, Value>)
    ensures AsBytes(v) == Some(b) <==> IsBytes(v, b)
    ensures AsMap(v) == Some(m) <==> IsMap(v, m)
    ensures HeaderMap(codec, b) == Some(m) <==> IsHeader(codec, b, m)
  {
  }

  lemma MapTaken(v: Value)
    ensures AsMap(v).Some? <==> exists m :: IsMap(v, m)
  {
    if AsMap(v).Some? {
      assert IsMap(v, AsMap(v).value);
    }
  }

  /** What an accepted signed message consists of. */
  ghost predicate IsSign1(p: Primitives, message: bytes, public: bytes, s: Signed,
                          items: seq<Value>, u: map<int, Value>, m: map<int, Value>) {
    && |items| == 4 && TagAround(p.codec, message, 18, items)
    && IsBytes(items[0], s.header) && IsMap(items[1], u) && IsBytes(items[2], s.payload) && IsBytes(items[3], s.signature)
    && IsHeader(p.codec, s.header, m)
    && Get(m, 1) == Int(-8) && Get(m, 4) == Bytes(s.kid)
    && p.verify(public, SigStructure(p.codec, s.header, s.payload), s.signature)
  }

  /** Every accepted signed message: tag 18 around four fields, a protected header with algorithm -8 and the key id
      that was expected, and a signature of header and payload that verifies. */
  lemma Sign1Accepted(p: Primitives, message: bytes, expectedKid: bytes, public: bytes, s: Signed)
    ensures VerifySign1(p, message, expectedKid, public) == Ok(s)
            <==> s.kid == expectedKid && exists items, u, m :: IsSign1(p, message, public, s, items, u, m)
  {
    hide TaggedBody, TagAround, SigStructure, AsMap, AsBytes, IsBytes, IsMap, IsHeader, HeaderMap, Get;
    var r := TaggedBody(p.codec, message, TAG_SIGN1, 4, Sign1Decode, Sign1Tag, Sign1Body);
    if VerifySign1(p, message, expectedKid, public) == Ok(s) {
      var items, m := r.value, HeaderMap(p.codec, s.header).value;
      TagTaken(p.codec, message, TAG_SIGN1, 4, Sign1Decode, Sign1Tag, Sign1Body, items);
      FieldsTaken(p.codec, items[0], s.header, m);
      FieldsTaken(p.codec, items[1], [], AsMap(items[1]).value);
      FieldsTaken(p.codec, items[2], s.payload, m);
      FieldsTaken(p.codec, items[3], s.signature, m);
      assert IsSign1(p, message, public, s, items, AsMap(items[1]).value, m);
    }
    if s.kid == expectedKid {
      if items, u, m :| IsSign1(p, message, public, s, items, u, m) {
        TagTaken(p.codec, message, TAG_SIGN1, 4, Sign1Decode, Sign1Tag, Sign1Body, items);
        FieldsTaken(p.codec, items[0], s.header, m);
        FieldsTaken(p.codec, items[1], [], u);
        FieldsTaken(p.codec, items[2], s.payload, m);
        FieldsTaken(p.codec, items[3], s.signature, m);
      }
    }
  }

  /** The parts of an encrypted message: its four fields, its recipient's three, and the maps among them. */
  datatype Parts = Parts(items: seq<Value>, unprotected: map<int, Value>, recipient: seq<Value>,
                         recipientMap: map<int, Value>, recipientHeader: map<int, Value>, key: map<int, Value>)

  ghost predicate IsEncrypt(codec: Codec, message: bytes, e: Encrypted, t: Parts) {
    && |t.items| == 4 && TagAround(codec, message, 96, t.items)
    && IsBytes(t.items[0], e.header) && IsMap(t.items[1], t.unprotected) && IsBytes(t.items[2], e.ciphertext)
    && t.items[3] == Array([Array(t.recipient)]) && |t.recipient| == 3
    && ParseProtected(codec, e.header) == Ok(e.parsed)
    && Get(t.unprotected, 5) == Bytes(e.iv) && |e.iv| == 12
    && IsRecipient(codec, e, t)
  }

  ghost predicate IsRecipient(codec: Codec, e: Encrypted, t: Parts)
    requires |t.recipient| == 3
  {
    && IsBytes(t.recipient[0], e.recipientHeader) && IsMap(t.recipient[1], t.recipientMap)
    && IsHeader(codec, e.recipientHeader, t.recipientHeader) && Get(t.recipientHeader, 1) == Int(-25)
    && Get(t.recipientMap, 4) == Bytes(e.recipientKeyID)
    && IsMap(Get(t.recipientMap, -1), t.key)
    && Get(t.key, -2) == Bytes(e.ephemeral) && |e.ephemeral| == 32
  }

  lemma RecipientTaken(codec: Codec, r: Recipient, e: Encrypted, t: Parts)
    requires |t.recipient| == 3 && ToRecipient(Array(t.recipient)) == Some(r)
    requires IsRecipient(codec, e, t)
    ensures DecodeRecipient(codec, e.header, e.parsed, e.iv, e.ciphertext, r) == Ok(e)
  {
    hide AsMap, AsBytes, IsBytes, IsMap, IsHeader, HeaderMap, Get;
    FieldsTaken(codec, t.recipient[0], e.recipientHeader, t.recipientHeader);
    FieldsTaken(codec, t.recipient[1], [], t.recipientMap);
    FieldsTaken(codec, Get(t.recipientMap, -1), [], t.key);
  }

  /** And a recipient that is taken has these parts; null has none of them. */
  lemma RecipientFound(codec: Codec, v: Value, e: Encrypted, t: Parts) returns (t': Parts)
    requires ToRecipient(v).Some?
    requires DecodeRecipient(codec, e.header, e.parsed, e.iv, e.ciphertext, ToRecipient(v).value) == Ok(e)
    ensures t'.items == t.items && t'.unprotected == t.unprotected
    ensures |t'.recipient| == 3 && v == Array(t'.recipient) && IsRecipient(codec, e, t')
  {
    assert v.Array?;
    hide AsMap, AsBytes, IsBytes, IsMap, IsHeader, HeaderMap, Get;
    var r := ToRecipient(v).value;
    var m, key := HeaderMap(codec, r.header).value, AsMap(Get(r.unprotected, LABEL_EPHEMERAL)).value;
    t' := Parts(t.items, t.unprotected, v.a, r.unprotected, m, key);
    FieldsTaken(codec, v.a[0], r.header, m);
    FieldsTaken(codec, v.a[1], [], r.unprotected);
    FieldsTaken(codec, Get(r.unprotected, LABEL_EPHEMERAL), [], key);
  }

  lemma OneRecipient(v: Value)
    ensures ToRecipients(v).Some? && |ToRecipients(v).value| == 1 <==>
              v.Array? && |v.a| == 1 && ToRecipient(v.a[0]).Some?
    ensures v.Array? && |v.a| == 1 && ToRecipient(v.a[0]).Some? ==> ToRecipients(v).value[0] == ToRecipient(v.a[0]).value
  {
    hide ToRecipient;
  }

  lemma EncryptFound(codec: Codec, message: bytes) returns (t: Parts)
    requires DecodeEncrypt(codec, message).Ok?
    ensures IsEncrypt(codec, message, DecodeEncrypt(codec, message).value, t)
  {
    hide TaggedBody, TagAround, AsMap, AsBytes, IsBytes, IsMap, IsHeader, HeaderMap, Get, ToRecipient, ToRecipients,
         ParseProtected, IsRecipient;
    var e := DecodeEncrypt(codec, message).value;
    var items := TaggedBody(codec, message, TAG_ENCRYPT, 4, EncryptDecode, EncryptTag, EncryptBody).value;
    TagTaken(codec, message, TAG_ENCRYPT, 4, EncryptDecode, EncryptTag, EncryptBody, items);
    OneRecipient(items[3]);
    var u := AsMap(items[1]).value;
    FieldsTaken(codec, items[0], e.header, u);
    FieldsTaken(codec, items[1], [], u);
    FieldsTaken(codec, items[2], e.ciphertext, u);
    t := RecipientFound(codec, items[3].a[0], e, Parts(items, u, [], map[], map[], map[]));
    assert items[3] == Array([items[3].a[0]]);
  }

  /** Every accepted encrypted message: tag 96 around four fields, a protected header of the profile, a 12-byte
      nonce, and one recipient, no more and no fewer, with algorithm -25, a key id and an ephemeral key of 32 bytes. */
  lemma EncryptAccepted(codec: Codec, message: bytes, e: Encrypted)
    ensures DecodeEncrypt(codec, message) == Ok(e) <==> exists t :: IsEncrypt(codec, message, e, t)
  {
    if DecodeEncrypt(codec, message) == Ok(e) {
      var t := EncryptFound(codec, message);
    }
    if t :| IsEncrypt(codec, message, e, t) {
      EncryptTaken(codec, message, e, t);
    }
  }

  lemma EncryptTaken(codec: Codec, message: bytes, e: Encrypted, t: Parts)
    requires IsEncrypt(codec, message, e, t)
    ensures DecodeEncrypt(codec, message) == Ok(e)
  {
    hide TaggedBody, TagAround, AsMap, AsBytes, IsBytes, IsMap, IsHeader, HeaderMap, Get, ToRecipient, ToRecipients,
         ParseProtected, IsRecipient, DecodeRecipient;
    TagTaken(codec, message, TAG_ENCRYPT, 4, EncryptDecode, EncryptTag, EncryptBody, t.items);
    FieldsTaken(codec, t.items[0], e.header, t.unprotected);
    FieldsTaken(codec, t.items[1], [], t.unprotected);
    FieldsTaken(codec, t.items[2], e.ciphertext, t.unprotected);
    RecipientWellFormed(codec, e, t);
    OneRecipient(t.items[3]);
    RecipientTaken(codec, ToRecipient(Array(t.recipient)).value, e, t);
  }

  lemma RecipientWellFormed(codec: Codec, e: Encrypted, t: Parts)
    requires |t.recipient| == 3 && IsRecipient(codec, e, t)
    ensures ToRecipient(Array(t.recipient)).Some?
  {
    FieldsTaken(codec, t.recipient[0], e.recipientHeader, t.recipientHeader);
    FieldsTaken(codec, t.recipient[1], [], t.recipientMap);
    hide AsMap, AsBytes, IsBytes, IsMap, IsHeader, Get;
  }

  // ---------- refusals ----------

  /** The CWT claims of a header: none at all where there is no map. */
  function CwtOf(m: map<int, Value>): map<int, Value> {
    if Get(m, 15).Map? then Get(m, 15).m else map[]
  }

  /** Why a header is refused: the first of nine reasons. */
  lemma HeaderRefused(m: map<int, Value>)
    ensures var cwt, crit := CwtOf(m), Get(m, 2);
            if Get(m, 1) != Int(3) then ParseMap(m) == Err(AlgMismatch)
            else if forall t :: t != [] ==> Get(m, 3) != Text(t) then ParseMap(m) == Err(MissingContentType)
            else if Get(m, 15) != Null && forall c :: !IsMap(Get(m, 15), c) then ParseMap(m) == Err(MissingCwtClaims)
            else if forall t: int64 :: Get(cwt, 6) != Int(t) then ParseMap(m) == Err(MissingIat)
            else if forall b :: Get(cwt, 7) != Bytes(b) then ParseMap(m) == Err(MissingCti)
            else if exists b :: |b| != 32 && Get(m, -70008) == Bytes(b) then ParseMap(m) == Err(BadFreshnessChallenge)
            else if !crit.Array? || crit == Array([]) then ParseMap(m) == Err(MissingCrit)
            else if exists v :: v in crit.a && forall l: int64 :: v != Int(l) then ParseMap(m) == Err(NonIntegerCrit)
            else ParseMap(m).Ok? || ParseMap(m) == Err(CritMismatch)
  {
    hide CritLabels, Get, CheckCrit, PrivatePart, AsMap, IsMap, Int64Value;
    var cwt := CwtOf(m);
    KindTaken(Get(m, 1));
    KindTaken(Get(m, 3));
    MapTaken(Get(m, 15));
    NullKeyEmpty(Get(m, 15));
    KindTaken(Get(cwt, 6));
    KindTaken(Get(cwt, 7));
    KindTaken(Get(m, -70008));
    if AsMap(Get(m, 15)).Some? && CwtPart(cwt).Ok? {
      PrivateRefused(m, CwtPart(cwt).value);
      if PrivatePart(m, CwtPart(cwt).value).Ok? {
        CritRefused(Get(m, 2), PrivatePart(m, CwtPart(cwt).value).value);
      }
    }
  }

  lemma KindTaken(v: Value)
    ensures Int64Value(v).None? <==> forall t: int64 :: v != Int(t)
    ensures Int64Value(v) == Some(3) <==> v == Int(3)
    ensures v.Bytes? <==> exists b :: v == Bytes(b)
    ensures v.Text? && v.t != [] <==> exists t :: t != [] && v == Text(t)
  {
    assert v.Int? && MIN_INT64 <= v.i <= MAX_INT64 ==> v == Int(v.i);
    assert v.Bytes? ==> v == Bytes(v.b);
    if v.Text? {
      assert v == Text(v.t);
    }
  }

  lemma PrivateRefused(m: map<int, Value>, base: Claims)
    ensures PrivatePart(m, base).Err? <==> exists b :: |b| != 32 && Get(m, -70008) == Bytes(b)
    ensures PrivatePart(m, base).Err? ==> PrivatePart(m, base).error == BadFreshnessChallenge
  {
    hide Get;
    assert Get(m, -70008).Bytes? ==> Get(m, -70008) == Bytes(Get(m, -70008).b);
  }

  lemma CritRefused(v: Value, c: Claims)
    ensures if !v.Array? || v == Array([]) then CheckCrit(v, c) == Some(MissingCrit)
            else if exists x :: x in v.a && forall l: int64 :: x != Int(l) then CheckCrit(v, c) == Some(NonIntegerCrit)
            else CheckCrit(v, c) in {None, Some(CritMismatch)}
  {
    hide CritLabels, Int64Value;
    if v.Array? {
      forall x
        ensures Int64Value(x).None? <==> forall l: int64 :: x != Int(l)
      {
        KindTaken(x);
      }
      assert v == Array([]) <==> v.a == [];
      if IntLabels(v.a).None? {
        var i :| 0 <= i < |v.a| && Int64Value(v.a[i]).None?;
        assert v.a[i] in v.a;
      }
    }
  }

  /** Why a message of the right shape is not accepted as signed. */
  lemma Sign1Refused(p: Primitives, message: bytes, expectedKid: bytes, public: bytes, s: Signed,
                     items: seq<Value>, u: map<int, Value>, m: map<int, Value>)
    requires |items| == 4 && TagAround(p.codec, message, 18, items)
    requires IsBytes(items[0], s.header) && IsMap(items[1], u) && IsBytes(items[2], s.payload) && IsBytes(items[3], s.signature)
    requires IsHeader(p.codec, s.header, m)
    ensures var r := VerifySign1(p, message, expectedKid, public);
            if Get(m, 1) != Int(-8) then r == Err(Sign1Alg)
            else if !Get(m, 4).Bytes? then r == Err(Sign1KidMissing)
            else if Get(m, 4) != Bytes(expectedKid) then r == Err(Sign1Kid)
            else if !p.verify(public, SigStructure(p.codec, s.header, s.payload), s.signature) then r == Err(Sign1Signature)
            else r == Ok(Signed(s.header, s.payload, s.signature, expectedKid))
  {
    hide TaggedBody, TagAround, SigStructure, AsMap, AsBytes, IsBytes, IsMap, IsHeader, HeaderMap, Get;
    TagTaken(p.codec, message, TAG_SIGN1, 4, Sign1Decode, Sign1Tag, Sign1Body, items);
    FieldsTaken(p.codec, items[0], s.header, m);
    FieldsTaken(p.codec, items[1], [], u);
    FieldsTaken(p.codec, items[2], s.payload, m);
    FieldsTaken(p.codec, items[3], s.signature, m);
  }

  /** A message under another tag is refused for its tag, and one under none, or not CBOR at all, as undecodable. */
  lemma WrongTagRefused(p: Primitives, message: bytes, kid: bytes, public: bytes)
    ensures (forall n: nat, v :: p.codec.decode(message) != Some(Tagged(n, v))) ==>
              VerifySign1(p, message, kid, public) == Err(Sign1Decode) && DecodeEncrypt(p.codec, message) == Err(EncryptDecode)
    ensures forall n: nat, v :: p.codec.decode(message) == Some(Tagged(n, v)) ==>
              && (n != 18 ==> VerifySign1(p, message, kid, public) == Err(Sign1Tag))
              && (n != 96 ==> DecodeEncrypt(p.codec, message) == Err(EncryptTag))
  {
    var d := p.codec.decode(message);
    if d.Some? && d.value.Tagged? {
      assert d == Some(Tagged(d.value.number, d.value.content));
    }
  }

  /** Why a message of the right shape is not accepted as encrypted: it has no recipient or several, a refused
      header, or no nonce of 12 bytes. */
  lemma EncryptRefused(codec: Codec, message: bytes, items: seq<Value>, header: bytes, u: map<int, Value>,
                       ciphertext: bytes, rs: seq<Value>)
    requires |items| == 4 && TagAround(codec, message, 96, items)
    requires IsBytes(items[0], header) && IsMap(items[1], u) && IsBytes(items[2], ciphertext) && items[3] == Array(rs)
    requires forall i :: 0 <= i < |rs| ==> ToRecipient(rs[i]).Some?
    ensures var r := DecodeEncrypt(codec, message); var h := ParseProtected(codec, header);
            if |rs| != 1 then r == Err(RecipientCount)
            else if h.Err? then r == Err(BadHeader(h.error))
            else if forall iv :: |iv| == 12 ==> Get(u, 5) != Bytes(iv) then r == Err(BadNonce)
            else r.Ok? || r.error in {RecipientHeader, RecipientAlg, RecipientKidMissing, EphemeralMissing, BadEphemeral}
  {
    hide TaggedBody, TagAround, AsMap, AsBytes, IsBytes, IsMap, IsHeader, HeaderMap, Get, ToRecipient, ParseProtected;
    TagTaken(codec, message, TAG_ENCRYPT, 4, EncryptDecode, EncryptTag, EncryptBody, items);
    FieldsTaken(codec, items[0], header, u);
    FieldsTaken(codec, items[1], [], u);
    FieldsTaken(codec, items[2], ciphertext, u);
    assert ToRecipients(items[3]).Some? && |ToRecipients(items[3]).value| == |rs|;
    assert Get(u, 5).Bytes? ==> Get(u, 5) == Bytes(Get(u, 5).b);
  }

  /** Four fields of the wrong kinds are no encrypted message, and null stands for no recipients at all. */
  lemma WrongKindsRefused(codec: Codec, message: bytes, items: seq<Value>)
    requires |items| == 4 && TagAround(codec, message, 96, items)
    ensures var sound := (exists b :: IsBytes(items[0], b)) && (exists m :: IsMap(items[1], m)) && (exists b :: IsBytes(items[2], b));
            var r := DecodeEncrypt(codec, message);
            && (!sound ==> r == Err(EncryptBody))
            && (sound && !items[3].Array? ==> r == Err(if items[3] == Null then RecipientCount else EncryptBody))
            && (items[3].Array? && (exists v :: v in items[3].a && ToRecipient(v) == None) ==> r == Err(EncryptBody))
  {
    hide TaggedBody, TagAround, AsMap, AsBytes, IsBytes, IsMap, IsHeader, HeaderMap, Get, ToRecipient, ParseProtected, DecodeRecipient;
    TagTaken(codec, message, TAG_ENCRYPT, 4, EncryptDecode, EncryptTag, EncryptBody, items);
    BytesTaken(items[0]);
    MapTaken(items[1]);
    BytesTaken(items[2]);
  }

  lemma BytesTaken(v: Value)
    ensures AsBytes(v).Some? <==> exists b :: IsBytes(v, b)
  {
    if AsBytes(v).Some? {
      assert IsBytes(v, AsBytes(v).value);
    }
  }

  /** Why a recipient is refused. */
  lemma RecipientRefused(codec: Codec, e: Encrypted, r: Recipient, m: map<int, Value>)
    ensures (forall h :: !IsHeader(codec, r.header, h)) ==>
              DecodeRecipient(codec, e.header, e.parsed, e.iv, e.ciphertext, r) == Err(RecipientHeader)
    ensures IsHeader(codec, r.header, m) ==>
            var d, key := DecodeRecipient(codec, e.header, e.parsed, e.iv, e.ciphertext, r), Get(r.unprotected, -1);
            if Get(m, 1) != Int(-25) then d == Err(RecipientAlg)
            else if !Get(r.unprotected, 4).Bytes? then d == Err(RecipientKidMissing)
            else if forall k :: !IsMap(key, k) then d == Err(EphemeralMissing)
            else d == Err(BadEphemeral) || (d.Ok? && |d.value.ephemeral| == 32 && key.Map? && Get(key.m, -2) == Bytes(d.value.ephemeral))
  {
    hide AsMap, IsMap, IsHeader, HeaderMap, Get;
    FieldsTaken(codec, Null, r.header, m);
    if HeaderMap(codec, r.header).Some? {
      FieldsTaken(codec, Null, r.header, HeaderMap(codec, r.header).value);
    }
    var key := Get(r.unprotected, -1);
    MapTaken(key);
    NullKeyEmpty(key);
  }

  lemma NullKeyEmpty(v: Value)
    ensures v == Null ==> AsMap(v).Some?
    ensures AsMap(v).Some? ==> if v.Map? then AsMap(v).value == v.m else AsMap(v).value == map[] && Get(map[], -2) == Null
  {
  }

  // ---------- what is built ----------

  /** The recipient of a built message, as a value. */
  function WireRecipient(recipientHeader: bytes, kid: bytes, ephemeral: bytes): Value {
    var key := Map(map[1 := Int(1), -1 := Int(4), -2 := Bytes(ephemeral)]);
    Array([Bytes(recipientHeader), Map(map[4 := Bytes(kid), -1 := key]), Null])
  }

  /** What goes out for a sealing: an encrypted message under tag 96 with the content, and around it a signed one
      under tag 18, each with its own header. */
  lemma BuiltOnTheWire(p: Primitives, s: Sealing)
    requires Faithful(p.codec) && s.Valid() && BuildSealed(p, s).Ok?
    ensures Agreed(p, s) && BuildEncrypt(p, s).Ok?
    ensures p.codec.decode(RecipientHeaderBytes(p.codec)) == Some(Map(map[1 := Int(-25)]))
    ensures p.codec.decode(Sign1HeaderBytes(p.codec, s.signingKeyID)) == Some(Map(map[1 := Int(-8), 4 := Bytes(s.signingKeyID)]))
    ensures var header := EncodeProtected(p.codec, s.contentType, s.claims);
            p.codec.decode(BuildEncrypt(p, s).value)
            == Some(Tagged(96, Array([Bytes(header), Map(map[5 := Bytes(s.nonce)]), Bytes(SealedContent(p, s)),
                 Array([WireRecipient(RecipientHeaderBytes(p.codec), s.recipientKeyID, p.dhPublic(s.ephemeral))])])))
    ensures var header, payload := Sign1HeaderBytes(p.codec, s.signingKeyID), BuildEncrypt(p, s).value;
            p.codec.decode(BuildSealed(p, s).value)
            == Some(Tagged(18, Array([Bytes(header), Map(map[]), Bytes(payload),
                 Bytes(p.sign(s.signingSeed, SigStructure(p.codec, header, payload)))])))
  {
    BuiltHeaders(p.codec, s.signingKeyID);
    BuiltPayload(p, s);
    hide Plain, TextsValid, Faithful, BuildEncrypt, Sign1HeaderBytes, SigStructure, SealedContent, RecipientHeaderBytes,
         EncodeProtected, WireRecipient;
    var header, payload := Sign1HeaderBytes(p.codec, s.signingKeyID), BuildEncrypt(p, s).value;
    var signature := p.sign(s.signingSeed, SigStructure(p.codec, header, payload));
    Sign1ItemsPlain(header, payload, signature);
    TagPlain(TAG_SIGN1, Sign1Items(header, payload, signature));
    ReadsBack(p.codec, Sign1Value(header, payload, signature));
  }

  lemma TagPlain(number: nat, a: seq<Value>)
    requires number in {TAG_SIGN1, TAG_ENCRYPT} && Plain(Array(a), 7) && TextsValid(Array(a))
    ensures Plain(Tagged(number, Array(a)), 8) && TextsValid(Tagged(number, Array(a)))
  {
  }

  lemma BuiltHeaders(codec: Codec, kid: bytes)
    requires Faithful(codec)
    ensures codec.decode(RecipientHeaderBytes(codec)) == Some(Map(map[1 := Int(-25)]))
    ensures codec.decode(Sign1HeaderBytes(codec, kid)) == Some(Map(map[1 := Int(-8), 4 := Bytes(kid)]))
  {
    var r, m := Map(map[1 := Int(-25)]), Map(map[1 := Int(-8), 4 := Bytes(kid)]);
    assert r.m.Keys == {1} && m.m.Keys == {1, 4};
    ReadsBack(codec, r);
    ReadsBack(codec, m);
  }

  lemma BuiltPayload(p: Primitives, s: Sealing)
    requires Faithful(p.codec) && s.Valid() && BuildEncrypt(p, s).Ok?
    ensures Agreed(p, s)
    ensures var header := EncodeProtected(p.codec, s.contentType, s.claims);
            p.codec.decode(BuildEncrypt(p, s).value)
            == Some(Tagged(96, Array([Bytes(header), Map(map[5 := Bytes(s.nonce)]), Bytes(SealedContent(p, s)),
                 Array([WireRecipient(RecipientHeaderBytes(p.codec), s.recipientKeyID, p.dhPublic(s.ephemeral))])])))
  {
    hide Plain, TextsValid, Faithful, EncStructure, KdfContext, EncodeProtected, RecipientHeaderBytes;
    var header := EncodeProtected(p.codec, s.contentType, s.claims);
    var r := WireRecipient(RecipientHeaderBytes(p.codec), s.recipientKeyID, p.dhPublic(s.ephemeral));
    RecipientPlain(RecipientHeaderBytes(p.codec), s.recipientKeyID, p.dhPublic(s.ephemeral));
    EncryptItemsPlain(header, s.nonce, SealedContent(p, s), r);
    TagPlain(TAG_ENCRYPT, EncryptItems(header, s.nonce, SealedContent(p, s), r));
    ReadsBack(p.codec, EncryptValue(header, s.nonce, SealedContent(p, s), r));
  }
}
