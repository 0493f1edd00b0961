/** Properties of `RawMessage.FromBytes` and `RawMessage.FromBase64`: the
    decoder succeeds exactly when each stage does, keeps the statement and
    format untouched, and returns the authenticator-data bytes verbatim. */
module AttestationObjectProperties {
  import opened Wrappers
  import opened Integers
  import opened Errors
  import opened Cbor
  import opened ByteOrder
  import opened RawMessage
  import AuthenticatorDataProperties

  /** Decoding is all or nothing: it succeeds exactly when the outer record
      decodes, its `authData` is a byte string and those bytes parse, and
      then the parsed authenticator data is the result's. A failure of the
      byte parser is returned unchanged. */
  lemma FromBytesStages(raw: seq<U8>, decoders: Decoders)
    ensures
      var outer := decoders.attestationObject(raw);
      var r := FromBytes(raw, decoders);
      && (r.Ok? <==>
            outer.Ok? && outer.value.authData.Bytes?
            && FromVec(outer.value.authData.bytes, decoders.value).Ok?)
      && (r.Ok? ==> r.value.authData == FromVec(outer.value.authData.bytes, decoders.value).value.0)
      && (outer.Ok? && outer.value.authData.Bytes?
          && FromVec(outer.value.authData.bytes, decoders.value).Err? ==>
            r == Err(FromVec(outer.value.authData.bytes, decoders.value).error))
  {
  }

  /** An `authData` of exactly the 37 header bytes gives an object with no
      attested credential whose fixed fields are those bytes. */
  lemma HeaderOnlyAuthData(raw: seq<U8>, decoders: Decoders)
    requires decoders.attestationObject(raw).Ok?
    requires decoders.attestationObject(raw).value.authData.Bytes?
    requires |decoders.attestationObject(raw).value.authData.bytes| == 37
    ensures
      var outer := decoders.attestationObject(raw).value;
      var data := outer.authData.bytes;
      var r := FromBytes(raw, decoders);
      && r.Ok?
      && r.value.authData.rpIdHash == data[..32]
      && r.value.authData.flags == data[32]
      && r.value.authData.signCount == BigEndian(data[33..37])
      && r.value.authData.attestedCredentialData == None
      && r.value.rawAuthData == data
      && r.value.fmt == outer.fmt
      && r.value.attStmt == outer.attStmt
  {
    var data := decoders.attestationObject(raw).value.authData.bytes;
    AuthenticatorDataProperties.FromVecWithoutCredentialBlock(data, decoders.value);
  }

  /** The string entry point is the byte entry point after base64: it
      succeeds exactly when both stages do. */
  lemma FromBase64Stages(text: string, decoders: Decoders)
    ensures
      var bytes := decoders.base64(text);
      && (FromBase64(text, decoders).Ok? <==> bytes.Ok? && FromBytes(bytes.value, decoders).Ok?)
      && (bytes.Err? ==> FromBase64(text, decoders).error.Base64Error?)
  {
  }
}
