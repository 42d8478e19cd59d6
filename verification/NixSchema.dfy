/** The six Nix cache messages: field tables, size caps and value rules. */
module NixSchema {
  import opened Wrappers
  import opened Bytes
  import opened Utf8
  import opened Wire

  const DESCRIBE_REQUEST_MAX := 295
  const DESCRIBE_RESPONSE_MAX := 203
  const ENROLL_REQUEST_MAX := 295
  const ENROLL_RESPONSE_MAX := 205
  const SIGN_REQUEST_MAX := 524939
  const SIGN_RESPONSE_MAX := 269
  const FINGERPRINT_MAX := 524626

  /** "PATH_INFO_V1" */
  const PATH_INFO_V1: bytes := [0x50, 0x41, 0x54, 0x48, 0x5F, 0x49, 0x4E, 0x46, 0x4F, 0x5F, 0x56, 0x31]

  datatype Schema =
    | DescribeRequestSchema
    | DescribeResponseSchema
    | EnrollRequestSchema
    | EnrollResponseSchema
    | SignRequestSchema
    | SignResponseSchema

  datatype Kind =
    | KeyId
    | KeyName
    | PublicKey
    | Identifier
    | Profile
    | Fingerprint
    | Signature
    | BackendVersion
    | EnrollmentDisposition

  function MaxSize(schema: Schema): nat {
    match schema
    case DescribeRequestSchema => DESCRIBE_REQUEST_MAX
    case DescribeResponseSchema => DESCRIBE_RESPONSE_MAX
    case EnrollRequestSchema => ENROLL_REQUEST_MAX
    case EnrollResponseSchema => ENROLL_RESPONSE_MAX
    case SignRequestSchema => SIGN_REQUEST_MAX
    case SignResponseSchema => SIGN_RESPONSE_MAX
  }

  function FieldCount(schema: Schema): nat {
    match schema
    case DescribeRequestSchema => 3
    case DescribeResponseSchema => 5
    case EnrollRequestSchema => 3
    case EnrollResponseSchema => 6
    case SignRequestSchema => 5
    case SignResponseSchema => 6
  }

  /** What field `number` holds, and on which wire type. */
  function FieldRule(schema: Schema, number: nat): Option<(Kind, nat)> {
    match schema
    case DescribeRequestSchema => RequestField(number)
    case EnrollRequestSchema => RequestField(number)
    case DescribeResponseSchema => IdentityField(number, 4)
    case EnrollResponseSchema =>
      if number == 4 then Some((EnrollmentDisposition, VARINT_TYPE)) else IdentityField(number, 5)
    case SignRequestSchema =>
      if number == 1 then Some((KeyId, BYTES_TYPE))
      else if number == 2 then Some((Profile, BYTES_TYPE))
      else if number == 3 then Some((Fingerprint, BYTES_TYPE))
      else if number == 4 || number == 5 then Some((Identifier, BYTES_TYPE))
      else None
    case SignResponseSchema =>
      if number == 1 then Some((KeyName, BYTES_TYPE))
      else if number == 2 then Some((PublicKey, BYTES_TYPE))
      else if number == 3 then Some((BackendVersion, VARINT_TYPE))
      else if number == 4 then Some((Signature, BYTES_TYPE))
      else if number == 5 || number == 6 then Some((Identifier, BYTES_TYPE))
      else None
  }

  function RequestField(number: nat): Option<(Kind, nat)> {
    if number == 1 then Some((KeyId, BYTES_TYPE))
    else if number == 2 || number == 3 then Some((Identifier, BYTES_TYPE))
    else None
  }

  function IdentityField(number: nat, firstID: nat): Option<(Kind, nat)> {
    if number == 1 then Some((KeyName, BYTES_TYPE))
    else if number == 2 then Some((PublicKey, BYTES_TYPE))
    else if number == 3 then Some((BackendVersion, VARINT_TYPE))
    else if number == firstID || number == firstID + 1 then Some((Identifier, BYTES_TYPE))
    else None
  }

  /** The tables know exactly the fields 1 to FieldCount. */
  lemma FieldRuleRange(schema: Schema, number: nat)
    ensures FieldRule(schema, number).Some? <==> 1 <= number <= FieldCount(schema)
    ensures FieldRule(schema, number).Some? ==> FieldRule(schema, number).value.1 in {BYTES_TYPE, VARINT_TYPE}
  {
  }

  // ---------- value rules ----------

  predicate NoControlBytes(s: bytes) {
    forall i :: 0 <= i < |s| ==> s[i] >= 0x20 && s[i] != 0x7F
  }

  predicate ValidKeyId(s: bytes) {
    Utf8Valid(s) && 1 <= |s| <= 256 && NoControlBytes(s)
  }

  predicate Alphanumeric(b: byte) {
    0x41 <= b <= 0x5A || 0x61 <= b <= 0x7A || 0x30 <= b <= 0x39
  }

  predicate KeyNameByte(s: bytes, i: nat)
    requires i < |s|
  {
    Alphanumeric(s[i]) || (i > 0 && s[i] in {0x2E, 0x5F, 0x2D})
  }

  /** Letters and digits, and after the first byte also '.', '_' and '-'. */
  predicate ValidKeyName(s: bytes) {
    1 <= |s| <= 128 && forall i :: 0 <= i < |s| ==> KeyNameByte(s, i)
  }

  predicate AllZero(s: bytes) {
    forall i :: 0 <= i < |s| ==> s[i] == 0
  }

  predicate ValidIdentifier(s: bytes) {
    |s| == 16 && !AllZero(s)
  }

  predicate ValidBytes(kind: Kind, s: bytes) {
    match kind
    case KeyId => ValidKeyId(s)
    case KeyName => ValidKeyName(s)
    case PublicKey => |s| == 32
    case Identifier => ValidIdentifier(s)
    case Profile => s == PATH_INFO_V1
    case Fingerprint => 1 <= |s| <= FINGERPRINT_MAX
    case Signature => |s| == 64
    case BackendVersion => false
    case EnrollmentDisposition => false
  }

  predicate ValidVarint(kind: Kind, v: nat) {
    match kind
    case BackendVersion => v == 1
    case EnrollmentDisposition => v == 1 || v == 2
    case _ => false
  }

  predicate ValidValue(kind: Kind, value: Value) {
    match value
    case Bytes(b) => ValidBytes(kind, b)
    case Varint(v) => ValidVarint(kind, v)
  }

  /** The bytes of a key name, as characters. */
  lemma KeyNameAlphabet(s: bytes, i: nat)
    requires i < |s|
    ensures var c := s[i] as char;
            KeyNameByte(s, i) <==>
              || 'A' <= c <= 'Z' || 'a' <= c <= 'z' || '0' <= c <= '9'
              || (i > 0 && (c == '.' || c == '_' || c == '-'))
  {
  }

  // ---------- the scans ----------

  method HasControlByte(s: bytes) returns (found: bool)
    ensures found <==> !NoControlBytes(s)
  {
    for i := 0 to |s|
      invariant NoControlBytes(s[..i])
    {
      if s[i] < 0x20 || s[i] == 0x7F {
        return true;
      }
    }
    assert s[..|s|] == s;
    return false;
  }

  method CheckKeyName(s: bytes) returns (ok: bool)
    ensures ok <==> ValidKeyName(s)
  {
    if |s| == 0 || |s| > 128 {
      return false;
    }
    for i := 0 to |s|
      invariant forall j :: 0 <= j < i ==> KeyNameByte(s, j)
    {
      var valid := Alphanumeric(s[i]);
      if i > 0 {
        valid := valid || s[i] == 0x2E || s[i] == 0x5F || s[i] == 0x2D;
      }
      if !valid {
        assert !KeyNameByte(s, i);
        return false;
      }
    }
    return true;
  }

  method CheckAllZero(s: bytes) returns (zero: bool)
    ensures zero <==> AllZero(s)
  {
    for i := 0 to |s|
      invariant forall j :: 0 <= j < i ==> s[j] == 0
    {
      if s[i] != 0 {
        return false;
      }
    }
    return true;
  }

  method ValidateBytes(kind: Kind, s: bytes) returns (ok: bool)
    ensures ok <==> ValidBytes(kind, s)
  {
    match kind
    case KeyId =>
      if !Utf8Valid(s) || |s| < 1 || |s| > 256 {
        return false;
      }
      var control := HasControlByte(s);
      return !control;
    case KeyName =>
      ok := CheckKeyName(s);
    case PublicKey =>
      return |s| == 32;
    case Identifier =>
      if |s| != 16 {
        return false;
      }
      var zero := CheckAllZero(s);
      return !zero;
    case Profile =>
      return s == PATH_INFO_V1;
    case Fingerprint =>
      return 1 <= |s| <= FINGERPRINT_MAX;
    case Signature =>
      return |s| == 64;
    case _ =>
      return false;
  }
}
