/** Properties of `RawMessage.FromValue`, the reading of a COSE EC2 key map:
    when it succeeds, what it yields, which error wins when several labels
    are bad, and a round trip through an encoder of the same map. */
module CredentialPublicKeyProperties {
  import opened Wrappers
  import opened Integers
  import opened Errors
  import opened Cbor
  import opened Constants
  import opened RawMessage

  /** The i64 a present key-type, algorithm or curve value is read as. */
  predicate ReadsAs(v: Value, r: I64) {
    if v.Integer? then r == WrapI64(v.i) else r == 0
  }

  /** A coordinate value the decoder can take 32 bytes from. */
  predicate LongBytes(v: Value) {
    v.Bytes? && |v.bytes| >= 32
  }

  /** The SEC1 prefix a boolean y value stands for. */
  function PrefixFor(negative: bool): U8 {
    if negative then EcdsaYPrefixNegative else EcdsaYPrefixPositive
  }

  /** `FromValue` succeeds exactly when labels 1, 3 and -1 are present,
      label -2 holds at least 32 bytes, and label -3 holds at least 32 bytes
      or a boolean. */
  lemma FromValueSucceedsIff(value: Value)
    ensures
      var m := EntriesOf(value);
      FromValue(value).Ok? <==>
        && value.Map?
        && IntKey(LabelKeyType) in m && IntKey(LabelAlgorithm) in m && IntKey(LabelCurve) in m
        && IntKey(LabelX) in m && LongBytes(m[IntKey(LabelX)])
        && IntKey(LabelY) in m && (LongBytes(m[IntKey(LabelY)]) || m[IntKey(LabelY)].Bool?)
  {
  }

  /** What a successful `FromValue` yields, field by field. */
  lemma FromValueFields(value: Value)
    requires FromValue(value).Ok?
    ensures
      var m, key := EntriesOf(value), FromValue(value).value;
      && ReadsAs(m[IntKey(LabelKeyType)], key.keyType)
      && ReadsAs(m[IntKey(LabelAlgorithm)], key.alg)
      && ReadsAs(m[IntKey(LabelCurve)], key.curve)
      && key.coords.x == m[IntKey(LabelX)].bytes[..32]
      && (m[IntKey(LabelY)].Bytes? ==> key.coords == Uncompressed(key.coords.x, m[IntKey(LabelY)].bytes[..32]))
      && (m[IntKey(LabelY)].Bool? ==> key.coords == Compressed(key.coords.x, PrefixFor(m[IntKey(LabelY)].b)))
  {
  }

  /** The labels are checked in the order 1, 3, -1, -2, -3 and the first
      failing one decides the error. A present but too short coordinate
      string is the point where the source panics. */
  lemma FromValueFirstFailure(value: Value)
    ensures
      var m, r := EntriesOf(value), FromValue(value);
      && (IntKey(LabelKeyType) !in m ==> r == Err(Other(KeyTypeMissing)))
      && (IntKey(LabelKeyType) in m && IntKey(LabelAlgorithm) !in m ==>
            r == Err(Other(AlgorithmMissing)))
      && (IntKey(LabelKeyType) in m && IntKey(LabelAlgorithm) in m && IntKey(LabelCurve) !in m ==>
            r == Err(Other(CurveMissing)))
      && (IntKey(LabelKeyType) in m && IntKey(LabelAlgorithm) in m && IntKey(LabelCurve) in m ==>
            && (IntKey(LabelX) !in m || !m[IntKey(LabelX)].Bytes? ==> r == Err(Other(XCoordinateMissing)))
            && (IntKey(LabelX) in m && m[IntKey(LabelX)].Bytes? && !LongBytes(m[IntKey(LabelX)]) ==>
                  r == Err(Panic(SliceTooShort)))
            && (IntKey(LabelX) in m && LongBytes(m[IntKey(LabelX)]) ==>
                  && (IntKey(LabelY) !in m || !(m[IntKey(LabelY)].Bytes? || m[IntKey(LabelY)].Bool?) ==>
                        r == Err(Other(YCoordinateMissing)))
                  && (IntKey(LabelY) in m && m[IntKey(LabelY)].Bytes? && !LongBytes(m[IntKey(LabelY)]) ==>
                        r == Err(Panic(SliceTooShort)))))
  {
  }

  /** The two booleans give two different prefixes, so the compressed form
      keeps the sign of y. */
  lemma {:induction false} CompressedSignIsKept(value: Value, value': Value)
    requires FromValue(value).Ok? && FromValue(value').Ok?
    requires FromValue(value).value.coords.Compressed? && FromValue(value').value.coords.Compressed?
    ensures
      var y, y' := EntriesOf(value)[IntKey(LabelY)], EntriesOf(value')[IntKey(LabelY)];
      FromValue(value).value.coords.sign == FromValue(value').value.coords.sign <==> y.b == y'.b
  {
    FromValueFields(value);
    FromValueFields(value');
    FromValueSucceedsIff(value);
    FromValueSucceedsIff(value');
  }

  /* ---------------- Encoding a key ---------------- */

  /** The COSE map a key is read from: integers for labels 1, 3 and -1, the
      x bytes at -2, and at -3 either the y bytes or the boolean whose
      prefix the key carries. */
  function CoseKey(key: CredentialPublicKey): Value {
    Map(map[
      IntKey(LabelKeyType) := Integer(key.keyType),
      IntKey(LabelAlgorithm) := Integer(key.alg),
      IntKey(LabelCurve) := Integer(key.curve),
      IntKey(LabelX) := Bytes(key.coords.x),
      IntKey(LabelY) := match key.coords
        case Uncompressed(_, y) => Bytes(y)
        case Compressed(_, sign) => Bool(sign == EcdsaYPrefixNegative)])
  }

  /** A key whose compressed prefix, if any, is one of the two SEC1 prefixes. */
  predicate KnownPrefix(key: CredentialPublicKey) {
    key.coords.Compressed? ==>
      key.coords.sign == EcdsaYPrefixPositive || key.coords.sign == EcdsaYPrefixNegative
  }

  /** Every key with a known prefix is read back unchanged from its map. */
  lemma {:induction false} CoseKeyRoundTrip(key: CredentialPublicKey)
    requires KnownPrefix(key)
    ensures FromValue(CoseKey(key)) == Ok(key)
  {
    var m := EntriesOf(CoseKey(key));
    assert m[IntKey(LabelKeyType)] == Integer(key.keyType);
    assert m[IntKey(LabelAlgorithm)] == Integer(key.alg);
    assert m[IntKey(LabelCurve)] == Integer(key.curve);
    assert m[IntKey(LabelX)] == Bytes(key.coords.x);
    assert key.coords.x[..32] == key.coords.x;
    match key.coords
    case Uncompressed(x, y) =>
      assert m[IntKey(LabelY)] == Bytes(y);
      assert y[..32] == y;
    case Compressed(x, sign) =>
      assert m[IntKey(LabelY)] == Bool(sign == EcdsaYPrefixNegative);
      assert EcdsaYPrefixPositive != EcdsaYPrefixNegative;
  }
}
