/** The WebAuthn registration-response decoder: the attestation object, its
    binary authenticator data (section 6.1 of the W3C Web Authentication
    Level 1 Recommendation), the attested credential data (section 6.4.1 of
    the same) and the COSE EC2 public key it carries (sections 7.1 and
    13.1.1 of RFC 8152). */
module RawMessage {
  import opened Wrappers
  import opened Integers
  import opened Errors
  import opened Cbor
  import opened Cursor
  import opened Constants

  type Bytes16 = s: seq<U8> | |s| == 16 witness seq(16, _ => 0)
  type Bytes32 = s: seq<U8> | |s| == 32 witness seq(32, _ => 0)

  /** The statement is decoded by the outer CBOR decoder and passed through. */
  datatype AttestationStatement = AttestationStatement(
    alg: I64,
    sig: seq<U8>,
    x5c: Option<Value>,
    ecdaaKeyId: Option<Value>)

  /** The outer record as the CBOR decoder delivers it; `authData` is still
      an arbitrary CBOR value. */
  datatype RawAttestationObject = RawAttestationObject(
    authData: Value,
    fmt: string,
    attStmt: AttestationStatement)

  datatype AttestationObject = AttestationObject(
    authData: AuthenticatorData,
    /** The authenticator-data bytes exactly as received. */
    rawAuthData: seq<U8>,
    fmt: string,
    attStmt: AttestationStatement)

  datatype AuthenticatorData = AuthenticatorData(
    rpIdHash: Bytes32,
    flags: U8,
    signCount: U32,
    attestedCredentialData: Option<AttestedCredentialData>,
    extensions: Value)

  datatype AttestedCredentialData = AttestedCredentialData(
    aaguid: Bytes16,
    credentialId: seq<U8>,
    credentialPublicKey: CredentialPublicKey)

  datatype CredentialPublicKey = CredentialPublicKey(
    keyType: I64,
    alg: I64,
    curve: I64,
    coords: Coordinates)

  /** The source names the second field `y` in both variants; in the
      compressed form it is the one-byte SEC1 prefix. */
  datatype Coordinates =
    | Compressed(x: Bytes32, sign: U8)
    | Uncompressed(x: Bytes32, y: Bytes32)

  /** The foreign decoders the source calls: `base64::decode`, and
      `serde_cbor::from_slice` at the two types it is used at. Each either
      yields a value or fails with a message. */
  datatype Decoders = Decoders(
    base64: string -> Result<seq<U8>, string>,
    attestationObject: seq<U8> -> Result<RawAttestationObject, string>,
    value: seq<U8> -> Result<Value, string>)

  /* ---------------- Authenticator data ---------------- */

  /** Length of rpIdHash, flags and signCount together. */
  const FixedHeaderLength: nat := 37

  /** `AuthenticatorData::from_vec`: walks the buffer with a cursor. The
      attested-credential block is read when more than 16 bytes follow the
      fixed header; the flags byte is not consulted. The second component is
      the cursor's whole buffer, not its unread tail. */
  function FromVec(data: seq<U8>, cbor: seq<U8> -> Result<Value, string>)
    : (r: Result<(AuthenticatorData, seq<U8>), Error>)
    ensures |data| < FixedHeaderLength ==> r == Err(UnexpectedEof)
    ensures r.Ok? ==> r.value.1 == data
    ensures r.Ok? ==> r.value.0.extensions == Null
    ensures r.Ok? ==> (r.value.0.attestedCredentialData.Some? <==> |data| - FixedHeaderLength > 16)
  {
    var hash :- ReadExact(Reader(data, 0), 32);
    var flags :- ReadU8(hash.1);
    var signCount :- ReadU32BigEndian(flags.1);
    var cursor := signCount.1;
    var rest :- if cursor.Remaining() > 16
      then ReadAttestedCredentialData(cursor, cbor)
      else Ok((None, cursor));
    Ok((AuthenticatorData(hash.0, flags.0, signCount.0, rest.0, Null), rest.1.IntoInner()))
  }

  /** Lines 61-80 of `from_vec`: aaguid, a big-endian u16 length, that many
      credential-id bytes, then every remaining byte as a CBOR COSE key. */
  function ReadAttestedCredentialData(cursor: Reader, cbor: seq<U8> -> Result<Value, string>)
    : (r: Result<(Option<AttestedCredentialData>, Reader), Error>)
    requires cursor.Valid()
    ensures cursor.Remaining() < 18 ==> r == Err(UnexpectedEof)
    ensures r.Ok? ==> r.value.1 == Reader(cursor.data, |cursor.data|)
    ensures r.Ok? ==>
      && r.value.0.Some?
      && cursor.Remaining() >= 18 + |r.value.0.value.credentialId|
      && r.value.0.value.aaguid == cursor.data[cursor.pos..cursor.pos + 16]
      && r.value.0.value.credentialId == cursor.data[cursor.pos + 18..cursor.pos + 18 + |r.value.0.value.credentialId|]
  {
    var aaguid :- ReadExact(cursor, 16);
    var length :- ReadU16BigEndian(aaguid.1);
    var credentialId :- ReadExact(length.1, length.0);
    var remaining := ReadRemaining(credentialId.1);
    var keyValue :- CborFailure(cbor(remaining.0));
    var key :- FromValue(keyValue);
    Ok((Some(AttestedCredentialData(aaguid.0, credentialId.0, key)), remaining.1))
  }

  /* ---------------- COSE public key ---------------- */

  const KeyTypeMissing := "Key type missing"
  const AlgorithmMissing := "algorithm missing"
  const CurveMissing := "curve missing"
  const XCoordinateMissing := "x coordinate missing"
  const YCoordinateMissing := "y coordinate missing"
  const NoAuthData := "Cannot proceed without auth data"

  /** A message like the one of the panic `&i[0..32]` raises on a shorter
      slice (Rust's message also names the slice's length). */
  const SliceTooShort := "range end index 32 out of range for slice"

  /** COSE labels: kty and alg (section 7.1 of RFC 8152), crv, x and y
      (section 13.1.1 of RFC 8152). */
  const LabelKeyType := 1
  const LabelAlgorithm := 3
  const LabelCurve := -1
  const LabelX := -2
  const LabelY := -3

  /** A non-map value is read as an empty map. */
  function EntriesOf(value: Value): (m: map<Key, Value>)
    ensures value.Map? ==> m == value.entries
    ensures !value.Map? ==> |m| == 0
  {
    if value.Map? then value.entries else map[]
  }

  /** An integer field read through `*i as i64`; any other value reads as 0. */
  function CoerceI64(value: Value): (r: I64)
    ensures value.Integer? ==> (r - value.i) % TwoTo64 == 0
    ensures value.Integer? && -TwoTo63 <= value.i < TwoTo63 ==> r == value.i
    ensures !value.Integer? ==> r == 0
  {
    match value
    case Integer(i) => WrapI64(i)
    case _ => 0
  }

  /** A key-type, algorithm or curve field: required to be present, but a
      value of the wrong type is coerced to 0 rather than rejected. */
  function ScalarField(m: map<Key, Value>, n: int, missing: string): (r: Result<I64, Error>)
    ensures r.Err? <==> IntKey(n) !in m
    ensures r.Err? ==> r.error == Other(missing)
    ensures r.Ok? && m[IntKey(n)].Integer? ==> r.value == WrapI64(m[IntKey(n)].i)
    ensures r.Ok? && !m[IntKey(n)].Integer? ==> r.value == 0
  {
    match Lookup(m, n)
    case Some(v) => Ok(CoerceI64(v))
    case None => Err(Other(missing))
  }

  /** `array.copy_from_slice(&i[0..32])`. In the source a slice shorter than
      32 bytes makes `&i[0..32]` panic; that outcome is the `Panic` error. */
  function First32(bytes: seq<U8>): (r: Result<Bytes32, Error>)
    ensures r.Ok? <==> |bytes| >= 32
    ensures r.Ok? ==> r.value == bytes[..32]
    ensures r.Err? ==> r.error.Panic?
  {
    if |bytes| < 32 then Err(Panic(SliceTooShort)) else Ok(bytes[..32])
  }

  /** Label -2 must hold a byte string. */
  function XCoordinate(m: map<Key, Value>): (r: Result<Bytes32, Error>)
    ensures IntKey(LabelX) in m && m[IntKey(LabelX)].Bytes? && |m[IntKey(LabelX)].bytes| >= 32 ==>
      r == Ok(m[IntKey(LabelX)].bytes[..32])
    ensures IntKey(LabelX) in m && m[IntKey(LabelX)].Bytes? && |m[IntKey(LabelX)].bytes| < 32 ==>
      r.Err? && r.error.Panic?
    ensures IntKey(LabelX) !in m || !m[IntKey(LabelX)].Bytes? ==> r == Err(Other(XCoordinateMissing))
  {
    match Lookup(m, LabelX)
    case Some(Bytes(b)) => First32(b)
    case _ => Err(Other(XCoordinateMissing))
  }

  /** Label -3 chooses the encoding: bytes give the full y coordinate, a
      boolean gives the compressed form with the matching prefix. */
  function PointCoordinates(m: map<Key, Value>, x: Bytes32): (r: Result<Coordinates, Error>)
    ensures IntKey(LabelY) in m && m[IntKey(LabelY)].Bytes? && |m[IntKey(LabelY)].bytes| >= 32 ==>
      r == Ok(Uncompressed(x, m[IntKey(LabelY)].bytes[..32]))
    ensures IntKey(LabelY) in m && m[IntKey(LabelY)].Bytes? && |m[IntKey(LabelY)].bytes| < 32 ==>
      r.Err? && r.error.Panic?
    ensures IntKey(LabelY) in m && m[IntKey(LabelY)].Bool? ==>
      r == Ok(Compressed(x, if m[IntKey(LabelY)].b then EcdsaYPrefixNegative else EcdsaYPrefixPositive))
    ensures IntKey(LabelY) !in m || !(m[IntKey(LabelY)].Bytes? || m[IntKey(LabelY)].Bool?) ==>
      r == Err(Other(YCoordinateMissing))
    ensures r.Ok? ==> r.value.x == x
  {
    match Lookup(m, LabelY)
    case Some(Bytes(b)) =>
      var y :- First32(b);
      Ok(Uncompressed(x, y))
    case Some(Bool(negative)) =>
      Ok(Compressed(x, if negative then EcdsaYPrefixNegative else EcdsaYPrefixPositive))
    case _ => Err(Other(YCoordinateMissing))
  }

  /** `CredentialPublicKey::from_value`: the labels are read in the order
      1, 3, -1, -2, -3 and the first failure is the result. */
  function FromValue(value: Value): (r: Result<CredentialPublicKey, Error>)
    ensures !value.Map? ==> r == Err(Other(KeyTypeMissing))
  {
    var m := EntriesOf(value);
    var keyType :- ScalarField(m, LabelKeyType, KeyTypeMissing);
    var alg :- ScalarField(m, LabelAlgorithm, AlgorithmMissing);
    var curve :- ScalarField(m, LabelCurve, CurveMissing);
    var x :- XCoordinate(m);
    var coords :- PointCoordinates(m, x);
    Ok(CredentialPublicKey(keyType, alg, curve, coords))
  }

  /* ---------------- Attestation object ---------------- */

  /** `AttestationObject::from_bytes`: decodes the outer record, insists that
      `authData` is a byte string, parses it, and passes `fmt` and `attStmt`
      through. Every failure is returned as is; there is no partial object. */
  function FromBytes(raw: seq<U8>, decoders: Decoders): (r: Result<AttestationObject, Error>)
    ensures decoders.attestationObject(raw).Err? ==>
      r == Err(CborError(decoders.attestationObject(raw).error))
    ensures decoders.attestationObject(raw).Ok? && !decoders.attestationObject(raw).value.authData.Bytes? ==>
      r == Err(Other(NoAuthData))
    ensures r.Ok? ==>
      var outer := decoders.attestationObject(raw).value;
      && outer.authData.Bytes?
      && r.value.rawAuthData == outer.authData.bytes
      && r.value.fmt == outer.fmt
      && r.value.attStmt == outer.attStmt
  {
    var outer :- CborFailure(decoders.attestationObject(raw));
    var data :- match outer.authData
      case Bytes(b) => Ok(b)
      case _ => Err(Other(NoAuthData));
    var parsed :- FromVec(data, decoders.value);
    Ok(AttestationObject(parsed.0, parsed.1, outer.fmt, outer.attStmt))
  }

  /** `AttestationObject::from_base64`: an invalid base64 string fails before
      any CBOR or byte parsing; otherwise the decoded bytes go to `FromBytes`. */
  function FromBase64(text: string, decoders: Decoders): (r: Result<AttestationObject, Error>)
    ensures decoders.base64(text).Err? ==> r == Err(Base64Error(decoders.base64(text).error))
    ensures decoders.base64(text).Ok? ==> r == FromBytes(decoders.base64(text).value, decoders)
  {
    var raw :- Base64Failure(decoders.base64(text));
    FromBytes(raw, decoders)
  }
}
