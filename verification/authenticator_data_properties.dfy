/** Properties of `RawMessage.FromVec`: an offset-by-offset reading of the
    authenticator-data layout it agrees with on every input, the facts that
    follow from it, and round trips through an encoder of that layout. */
module AuthenticatorDataProperties {
  import opened Wrappers
  import opened Integers
  import opened Errors
  import opened Cbor
  import opened ByteOrder
  import opened Cursor
  import opened RawMessage

  /** The sign count as the weighted sum of bytes 33 to 36. */
  function SignCountAt(data: seq<U8>): (c: U32)
    requires |data| >= 37
  {
    data[33] as int * 0x100_0000 + data[34] as int * 0x1_0000 + data[35] as int * 0x100 + data[36] as int
  }

  /** The decoder's behaviour written against absolute offsets: header in
      bytes 0-36, and the credential block read from the bytes after it by
      `CredentialBlockByOffsets`. No reader state is involved. */
  function ParseByOffsets(data: seq<U8>, cbor: seq<U8> -> Result<Value, string>)
    : Result<(AuthenticatorData, seq<U8>), Error>
  {
    if |data| < 37 then Err(UnexpectedEof)
    else
      var credential :- CredentialBlockByOffsets(data[37..], cbor);
      Ok((AuthenticatorData(data[..32], data[32], SignCountAt(data), credential, Null), data))
  }

  /** The bytes after the header, by offsets relative to its end: nothing
      when at most 16 bytes are left, else the aaguid in 0-15, the
      credential-id length in 16-17, the id from 18, and the COSE key after it. */
  function CredentialBlockByOffsets(tail: seq<U8>, cbor: seq<U8> -> Result<Value, string>)
    : Result<Option<AttestedCredentialData>, Error>
  {
    if |tail| <= 16 then Ok(None)
    else if |tail| < 18 then Err(UnexpectedEof)
    else
      var length := tail[16] as int * 0x100 + tail[17] as int;
      if |tail| < 18 + length then Err(UnexpectedEof)
      else
        var keyValue :- CborFailure(cbor(tail[18 + length..]));
        var key :- FromValue(keyValue);
        Ok(Some(AttestedCredentialData(tail[..16], tail[18..18 + length], key)))
  }

  lemma SliceOfSuffix(data: seq<U8>, k: nat, a: nat, b: nat)
    requires a <= b && k + b <= |data|
    ensures data[k..][a..b] == data[k + a..k + b]
  {
    assert forall i | 0 <= i < b - a :: data[k..][a..b][i] == data[k + a + i];
  }

  lemma SuffixOfSuffix(data: seq<U8>, k: nat, a: nat)
    requires k + a <= |data|
    ensures data[k..][a..] == data[k + a..]
  {
    assert forall i | 0 <= i < |data| - k - a :: data[k..][a..][i] == data[k + a + i];
  }

  /** The reader-based credential block, started at byte 37, agrees with
      the offset reading of the bytes from 37 on. */
  lemma CredentialBlockMatchesOffsets(data: seq<U8>, cbor: seq<U8> -> Result<Value, string>)
    requires |data| > 37 + 16
    ensures
      var r := ReadAttestedCredentialData(Reader(data, 37), cbor);
      var s := CredentialBlockByOffsets(data[37..], cbor);
      && (r.Ok? <==> s.Ok?)
      && (r.Ok? ==> r.value.0 == s.value)
      && (r.Err? ==> r.error == s.error)
  {
    if |data| >= 55 {
      var tail := data[37..];
      SliceOfSuffix(data, 37, 0, 16);
      SliceOfSuffix(data, 37, 16, 18);
      BigEndianTwo(data[53..55]);
      var length := BigEndian(data[53..55]);
      if |data| >= 55 + length {
        SliceOfSuffix(data, 37, 18, 18 + length);
        SuffixOfSuffix(data, 37, 18 + length);
      }
    }
  }

  /** The cursor-based parser and the offset reading agree on every input. */
  lemma FromVecMatchesOffsets(data: seq<U8>, cbor: seq<U8> -> Result<Value, string>)
    ensures FromVec(data, cbor) == ParseByOffsets(data, cbor)
  {
    if |data| >= 37 {
      BigEndianFour(data[33..37]);
      assert ReadExact(Reader(data, 0), 32) == Ok((data[..32], Reader(data, 32)));
      assert ReadU8(Reader(data, 32)) == Ok((data[32], Reader(data, 33)));
      assert ReadU32BigEndian(Reader(data, 33)) == Ok((SignCountAt(data), Reader(data, 37)));
      var header := AuthenticatorData(data[..32], data[32], SignCountAt(data), None, Null);
      if |data| > 37 + 16 {
        CredentialBlockMatchesOffsets(data, cbor);
        var r := ReadAttestedCredentialData(Reader(data, 37), cbor);
        if r.Ok? {
          assert FromVec(data, cbor) == Ok((header.(attestedCredentialData := r.value.0), data));
        } else {
          assert FromVec(data, cbor) == Err(r.error);
        }
      } else {
        assert FromVec(data, cbor) == Ok((header, data));
      }
    }
  }

  /** On success the fixed fields are the bytes at their offsets. */
  lemma FromVecFixedFields(data: seq<U8>, cbor: seq<U8> -> Result<Value, string>)
    requires FromVec(data, cbor).Ok?
    ensures |data| >= 37
    ensures FromVec(data, cbor).value.0.rpIdHash == data[..32]
    ensures FromVec(data, cbor).value.0.flags == data[32]
    ensures FromVec(data, cbor).value.0.signCount == BigEndian(data[33..37])
    ensures FromVec(data, cbor).value.0.signCount == SignCountAt(data)
  {
    FromVecMatchesOffsets(data, cbor);
    BigEndianFour(data[33..37]);
  }

  /** With at most 16 bytes after the header, parsing succeeds whatever
      those bytes are, reads no credential block and ignores them. */
  lemma FromVecWithoutCredentialBlock(data: seq<U8>, cbor: seq<U8> -> Result<Value, string>)
    requires 37 <= |data| <= 37 + 16
    ensures FromVec(data, cbor) ==
      Ok((AuthenticatorData(data[..32], data[32], BigEndian(data[33..37]), None, Null), data))
  {
    FromVecMatchesOffsets(data, cbor);
    BigEndianFour(data[33..37]);
  }

  /** With more than 16 bytes after the header the credential block is
      parsed, and each way it can fail fails the whole call. */
  lemma FromVecCredentialBlock(data: seq<U8>, cbor: seq<U8> -> Result<Value, string>)
    requires |data| > 37 + 16
    ensures |data| < 55 ==> FromVec(data, cbor) == Err(UnexpectedEof)
    ensures |data| >= 55 ==>
      var length := BigEndian(data[53..55]);
      && (|data| < 55 + length ==> FromVec(data, cbor) == Err(UnexpectedEof))
      && (|data| >= 55 + length && cbor(data[55 + length..]).Err? ==>
            FromVec(data, cbor) == Err(CborError(cbor(data[55 + length..]).error)))
      && (|data| >= 55 + length && cbor(data[55 + length..]).Ok?
          && FromValue(cbor(data[55 + length..]).value).Err? ==>
            FromVec(data, cbor) == Err(FromValue(cbor(data[55 + length..]).value).error))
  {
    FromVecMatchesOffsets(data, cbor);
    if |data| >= 55 {
      BigEndianTwo(data[53..55]);
    }
  }

  /** A successfully parsed credential block holds the bytes at its offsets
      and the key decoded from everything after the credential id. */
  lemma FromVecCredentialContents(data: seq<U8>, cbor: seq<U8> -> Result<Value, string>)
    requires FromVec(data, cbor).Ok?
    requires FromVec(data, cbor).value.0.attestedCredentialData.Some?
    ensures |data| >= 55 && |data| >= 55 + BigEndian(data[53..55])
    ensures
      var length := BigEndian(data[53..55]);
      var credential := FromVec(data, cbor).value.0.attestedCredentialData.value;
      && credential.aaguid == data[37..53]
      && credential.credentialId == data[55..55 + length]
      && |credential.credentialId| == length
      && cbor(data[55 + length..]).Ok?
      && FromValue(cbor(data[55 + length..]).value) == Ok(credential.credentialPublicKey)
  {
    FromVecMatchesOffsets(data, cbor);
    BigEndianTwo(data[53..55]);
  }

  /** The presence of the credential block is decided by the byte count
      alone: changing the flags byte changes the parsed flags and nothing
      else, even when the new flags deny that a credential is attested. */
  lemma FlagsDoNotDecidePresence(data: seq<U8>, cbor: seq<U8> -> Result<Value, string>, flags: U8)
    requires |data| >= 37
    ensures
      var r, r' := FromVec(data, cbor), FromVec(data[32 := flags], cbor);
      && (r.Ok? <==> r'.Ok?)
      && (r.Err? ==> r' == r)
      && (r.Ok? ==> r'.value.0 == r.value.0.(flags := flags))
  {
    var data' := data[32 := flags];
    FromVecMatchesOffsets(data, cbor);
    FromVecMatchesOffsets(data', cbor);
    assert data'[..32] == data[..32];
    assert data'[37..] == data[37..];
  }

  /* ---------------- Encoding the layout ---------------- */

  /** rpIdHash, flags and the big-endian sign count. */
  function EncodeHeader(rpIdHash: Bytes32, flags: U8, signCount: U32): (s: seq<U8>)
    ensures |s| == 37
  {
    assert Pow256(4) == TwoTo32;
    rpIdHash + [flags] + EncodeBigEndian(signCount, 4)
  }

  /** aaguid, the big-endian credential-id length, the id and the key bytes. */
  function EncodeCredentialBlock(aaguid: Bytes16, credentialId: seq<U8>, keyBytes: seq<U8>): (s: seq<U8>)
    requires |credentialId| < TwoTo16
    ensures |s| == 18 + |credentialId| + |keyBytes|
  {
    assert Pow256(2) == TwoTo16;
    aaguid + EncodeBigEndian(|credentialId|, 2) + credentialId + keyBytes
  }

  lemma HeaderFields(rpIdHash: Bytes32, flags: U8, signCount: U32, tail: seq<U8>)
    ensures
      var data := EncodeHeader(rpIdHash, flags, signCount) + tail;
      && data[..32] == rpIdHash
      && data[32] == flags
      && BigEndian(data[33..37]) == signCount
      && data[37..] == tail
  {
    var data := EncodeHeader(rpIdHash, flags, signCount) + tail;
    assert Pow256(4) == TwoTo32;
    assert data[33..37] == EncodeBigEndian(signCount, 4);
  }

  /** A header followed by at most 16 bytes decodes to exactly the encoded
      fields, with no credential and the whole buffer handed back. */
  lemma {:induction false} RoundTripWithoutCredential(
    rpIdHash: Bytes32, flags: U8, signCount: U32, tail: seq<U8>,
    cbor: seq<U8> -> Result<Value, string>)
    requires |tail| <= 16
    ensures
      var data := EncodeHeader(rpIdHash, flags, signCount) + tail;
      FromVec(data, cbor) == Ok((AuthenticatorData(rpIdHash, flags, signCount, None, Null), data))
  {
    var data := EncodeHeader(rpIdHash, flags, signCount) + tail;
    HeaderFields(rpIdHash, flags, signCount, tail);
    FromVecWithoutCredentialBlock(data, cbor);
  }

  /** An encoded credential block reads back as the block it encodes. */
  lemma CredentialBlockRoundTrip(
    aaguid: Bytes16, credentialId: seq<U8>, keyBytes: seq<U8>,
    cbor: seq<U8> -> Result<Value, string>, key: CredentialPublicKey)
    requires |credentialId| < TwoTo16
    requires cbor(keyBytes).Ok? && FromValue(cbor(keyBytes).value) == Ok(key)
    ensures CredentialBlockByOffsets(EncodeCredentialBlock(aaguid, credentialId, keyBytes), cbor)
      == Ok(Some(AttestedCredentialData(aaguid, credentialId, key)))
  {
    var length := |credentialId|;
    assert Pow256(2) == TwoTo16;
    var lengthBytes := EncodeBigEndian(length, 2);
    var block := aaguid + lengthBytes + credentialId + keyBytes;
    assert block == EncodeCredentialBlock(aaguid, credentialId, keyBytes);
    BigEndianTwo(lengthBytes);
    assert block[16] as int * 0x100 + block[17] as int == length;
    assert block[..16] == aaguid;
    assert block[18..18 + length] == credentialId;
    assert block[18 + length..] == keyBytes;
    var keyValue := CborFailure(cbor(keyBytes));
    assert keyValue == Ok(cbor(keyBytes).value);
  }

  /** A header followed by a credential block whose key bytes decode to a
      valid COSE key decodes to exactly the encoded fields. */
  lemma {:induction false} RoundTripWithCredential(
    rpIdHash: Bytes32, flags: U8, signCount: U32,
    aaguid: Bytes16, credentialId: seq<U8>, keyBytes: seq<U8>,
    cbor: seq<U8> -> Result<Value, string>, key: CredentialPublicKey)
    requires |credentialId| < TwoTo16
    requires cbor(keyBytes).Ok? && FromValue(cbor(keyBytes).value) == Ok(key)
    ensures
      var data := EncodeHeader(rpIdHash, flags, signCount)
        + EncodeCredentialBlock(aaguid, credentialId, keyBytes);
      var credential := AttestedCredentialData(aaguid, credentialId, key);
      FromVec(data, cbor) == Ok((AuthenticatorData(rpIdHash, flags, signCount, Some(credential), Null), data))
  {
    var block := EncodeCredentialBlock(aaguid, credentialId, keyBytes);
    var data := EncodeHeader(rpIdHash, flags, signCount) + block;
    HeaderFields(rpIdHash, flags, signCount, block);
    BigEndianFour(data[33..37]);
    CredentialBlockRoundTrip(aaguid, credentialId, keyBytes, cbor, key);
    FromVecMatchesOffsets(data, cbor);
  }
}
