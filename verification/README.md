# WebAuthn attestation-object decoder, modelled in Dafny

This project models the registration-response decoder of the `slauth` crate
(`src/webauthn/proto/raw_message.rs`). The decoder turns the
`attestationObject` an authenticator returns during a WebAuthn registration
ceremony into structured data. It has three stages:

- `AttestationObject::from_bytes` and `from_base64` decode the outer CBOR
  record. They require `authData` to be a byte string. They pass `fmt` and
  `attStmt` through unchanged.
- `AuthenticatorData::from_vec` reads the binary authenticator-data layout
  defined in section 6.1 of the W3C Web Authentication Level 1
  Recommendation: `rpIdHash` (32 bytes), `flags` (1 byte) and a big-endian
  `signCount` (4 bytes). When more than 16 bytes follow these, it also reads
  the attested-credential block from section 6.4.1: `aaguid` (16 bytes), a
  big-endian u16 length, the credential id, and a trailing CBOR COSE key.
- `CredentialPublicKey::from_value` reads a COSE EC2 key map. It uses labels
  kty=1 and alg=3 from section 7.1 of RFC 8152, and crv=-1, x=-2 and y=-3
  from section 13.1.1 of RFC 8152. It chooses between the uncompressed
  point (y is a byte string) and the compressed point (y is a boolean
  mapped to a SEC1 prefix byte).

Everything is modelled with immutable datatypes and pure functions over
`seq<U8>`. The Rust `Cursor` becomes an explicit `Reader(data, pos)`.
Because no read ever changes `data`, "the whole buffer" (`into_inner`) and
"the unread tail" stay distinct.

Behaviours of the code that the model keeps on purpose:

- The credential block is detected by the test `remaining > 16`, not by the
  AT bit of `flags` (`FlagsDoNotDecidePresence`).
- `from_vec` returns the whole input buffer as its second component, not the
  unread tail.
- Key type, algorithm and curve must be present. A present value that is not
  an integer reads as 0. An integer goes through `as i64`, modelled
  explicitly as `WrapI64`.
- `&i[0..32]` panics in the source when a coordinate byte string is shorter
  than 32 bytes. The model makes this the distinct outcome `Error.Panic`.
  It travels through every caller unchanged, as the panic would.

Error behaviour of the code, as modelled:

- A coordinate byte string shorter than 32 bytes makes `&i[0..32]` panic
  instead of returning an error.
- A short read yields the plain end-of-file I/O error, without the name of
  the field being read.
- A non-byte-string `authData` and every missing COSE label yield
  `Error::Other` with the source's message.

Modules: `Wrappers` (Result/Option), `Integers` (u8/u16/u32/i64 and the
cast), `ByteOrder` (big-endian values), `Cursor` (the reader), `Errors`,
`Cbor` (the value tree), `Constants` (the four constants of constants.rs,
kept for reference, and the two y-coordinate prefixes the decoder imports),
`RawMessage` (the decoder), and three modules of properties: `AuthenticatorDataProperties`,
`CredentialPublicKeyProperties` and `AttestationObjectProperties`.

## Model

| member | source | states |
|---|---|---|
| Integers.WrapI64 | src/webauthn/proto/raw_message.rs:118 | `*i as i64` yields the i64 congruent to the CBOR integer modulo 2^64, and the integer itself whenever it already fits in an i64 |
| Integers.I64CongruenceUnique | src/webauthn/proto/raw_message.rs:125 | two i64 values congruent modulo 2^64 are equal, so the cast's result is uniquely determined by its contract |
| ByteOrder.EncodeBigEndian | src/webauthn/proto/raw_message.rs:58 | the n-byte big-endian encoding of a value below 256^n has n bytes and decodes back to that value |
| ByteOrder.EncodeBigEndianOfDecode | src/webauthn/proto/raw_message.rs:64 | encoding the big-endian value of any byte string gives the same bytes back, so big-endian reading is a bijection |
| ByteOrder.BigEndianFour | src/webauthn/proto/raw_message.rs:58 | a 4-byte big-endian read is b0*2^24 + b1*2^16 + b2*2^8 + b3 |
| ByteOrder.BigEndianTwo | src/webauthn/proto/raw_message.rs:64 | a 2-byte big-endian read is b0*2^8 + b1 |
| Cursor.ReadExact | src/webauthn/proto/raw_message.rs:54 | a read of n bytes fails with end-of-file exactly when fewer than n remain; otherwise it yields the next n bytes and advances by n over the same buffer |
| Cursor.ReadRemaining | src/webauthn/proto/raw_message.rs:69-70 | reading `remaining()` bytes cannot fail, yields every unread byte and leaves nothing to read |
| Cursor.ReadU8 | src/webauthn/proto/raw_message.rs:56 | `read_u8` fails exactly when no byte remains, else yields the byte at the position |
| Cursor.ReadU16BigEndian | src/webauthn/proto/raw_message.rs:64 | `read_u16::<BigEndian>` fails exactly when fewer than 2 bytes remain, else yields their big-endian value |
| Cursor.ReadU32BigEndian | src/webauthn/proto/raw_message.rs:58 | `read_u32::<BigEndian>` fails exactly when fewer than 4 bytes remain, else yields their big-endian value |
| Cbor.Lookup | src/webauthn/proto/raw_message.rs:116 | `map.get(&Value::Integer(n))` finds a value exactly when the integer key is present, and it is the mapped value |
| Errors.CborFailure | src/webauthn/proto/raw_message.rs:72 | a CBOR decoder failure becomes `CborError` with its message; a success passes through unchanged |
| Errors.Base64Failure | src/webauthn/proto/raw_message.rs:183 | a base64 failure becomes `Base64Error` with its message; a success passes through unchanged |
| RawMessage.FromVec | src/webauthn/proto/raw_message.rs:50-90 | fewer than 37 bytes fail with end-of-file; on success the second component is the entire input, `extensions` is Null, and a credential block is present exactly when more than 16 bytes follow the header |
| RawMessage.ReadAttestedCredentialData | src/webauthn/proto/raw_message.rs:61-80 | fewer than 18 bytes left fail with end-of-file; on success the reader ends at the end of the same buffer, `aaguid` is the next 16 bytes, and the credential id is the bytes after the 2-byte length, all inside the buffer |
| RawMessage.EntriesOf | src/webauthn/proto/raw_message.rs:111-114 | a map value gives its entries; any other value gives an empty map |
| RawMessage.CoerceI64 | src/webauthn/proto/raw_message.rs:117-120 | an integer reads as the i64 congruent to it modulo 2^64, and as itself when it fits; any other value reads as 0 |
| RawMessage.ScalarField | src/webauthn/proto/raw_message.rs:116-121 | an absent label fails with the label's message; a present integer reads through the i64 cast; any other present value reads as 0 |
| RawMessage.First32 | src/webauthn/proto/raw_message.rs:139-142 | taking 32 bytes succeeds exactly when at least 32 are there and yields the first 32; otherwise it is the panic outcome |
| RawMessage.XCoordinate | src/webauthn/proto/raw_message.rs:137-147 | a byte string of at least 32 bytes at label -2 gives its first 32 bytes; a shorter one is the panic outcome; an absent label or any other value fails with "x coordinate missing" |
| RawMessage.PointCoordinates | src/webauthn/proto/raw_message.rs:149-163 | at label -3, at least 32 bytes give the uncompressed point with their first 32 bytes as y; fewer bytes are the panic outcome; `true` gives the compressed point with the negative prefix and `false` with the positive one; an absent label or any other value fails with "y coordinate missing"; x is always kept |
| RawMessage.FromValue | src/webauthn/proto/raw_message.rs:110-114 | a value that is not a map is read as an empty map, so it fails with "Key type missing" |
| RawMessage.FromBytes | src/webauthn/proto/raw_message.rs:187-203 | an outer decode failure is a `CborError`; a non-byte-string `authData` fails with "Cannot proceed without auth data"; a success carries `authData`'s bytes verbatim as `rawAuthData` and the outer `fmt` and `attStmt` unchanged |
| RawMessage.FromBase64 | src/webauthn/proto/raw_message.rs:182-185 | invalid base64 fails with `Base64Error` before any parsing; valid base64 behaves as `from_bytes` on the decoded bytes |
| AuthenticatorDataProperties.CredentialBlockMatchesOffsets | src/webauthn/proto/raw_message.rs:61-80 | the reader-based credential block started at byte 37 gives the same result or error as reading the bytes from 37 on by fixed offsets |
| AuthenticatorDataProperties.FromVecMatchesOffsets | src/webauthn/proto/raw_message.rs:50-90 | on every input, the cursor parser equals an independent reading of the layout by absolute offsets |
| AuthenticatorDataProperties.FromVecFixedFields | src/webauthn/proto/raw_message.rs:53-58 | on success the input has at least 37 bytes, `rpIdHash` is bytes 0-31, `flags` is byte 32 and `signCount` is the big-endian value of bytes 33-36 |
| AuthenticatorDataProperties.FromVecWithoutCredentialBlock | src/webauthn/proto/raw_message.rs:60-89 | with 37 to 53 bytes the parse always succeeds with no credential block, whatever the extra bytes are, and returns the whole input |
| AuthenticatorDataProperties.FromVecCredentialBlock | src/webauthn/proto/raw_message.rs:60-74 | with more than 53 bytes the block is parsed: 54 bytes fail on the length read, a credential id running past the end fails, and a CBOR or key failure is the call's failure |
| AuthenticatorDataProperties.FromVecCredentialContents | src/webauthn/proto/raw_message.rs:61-80 | a parsed block has `aaguid` = bytes 37-52, a credential id of exactly the declared length starting at byte 55, and the key decoded from every byte after the id |
| AuthenticatorDataProperties.FlagsDoNotDecidePresence | src/webauthn/proto/raw_message.rs:60 | changing the flags byte changes only the parsed flags: success, failure and the credential block stay the same |
| AuthenticatorDataProperties.RoundTripWithoutCredential | src/webauthn/proto/raw_message.rs:83-89 | an encoded header followed by at most 16 bytes decodes to exactly the encoded fields, with no credential and the whole buffer returned |
| AuthenticatorDataProperties.CredentialBlockRoundTrip | src/webauthn/proto/raw_message.rs:61-80 | an encoded credential block whose key bytes decode to a valid key reads back as that block |
| AuthenticatorDataProperties.RoundTripWithCredential | src/webauthn/proto/raw_message.rs:50-90 | an encoded header plus credential block decodes to exactly the encoded authenticator data |
| CredentialPublicKeyProperties.FromValueSucceedsIff | src/webauthn/proto/raw_message.rs:110-171 | the key reads successfully exactly when the value is a map with labels 1, 3 and -1 present, at least 32 bytes at -2, and at least 32 bytes or a boolean at -3 |
| CredentialPublicKeyProperties.FromValueFields | src/webauthn/proto/raw_message.rs:116-163 | on success the scalar fields are the cast integers or 0, x is the first 32 bytes at -2, and y is either the first 32 bytes at -3 or the prefix chosen by the boolean |
| CredentialPublicKeyProperties.FromValueFirstFailure | src/webauthn/proto/raw_message.rs:111-163 | labels are checked in the order 1, 3, -1, -2, -3; the first failing label decides the error, and a short coordinate string is the panic outcome |
| CredentialPublicKeyProperties.CompressedSignIsKept | src/webauthn/proto/raw_message.rs:157-158 | two compressed keys get the same prefix exactly when their y booleans agree |
| CredentialPublicKeyProperties.CoseKeyRoundTrip | src/webauthn/proto/raw_message.rs:110-171 | every key whose compressed prefix is one of the two SEC1 prefixes reads back unchanged from its COSE map |
| AttestationObjectProperties.FromBytesStages | src/webauthn/proto/raw_message.rs:187-203 | decoding succeeds exactly when the outer decode, the byte-string check and `from_vec` all succeed; a `from_vec` failure is returned unchanged |
| AttestationObjectProperties.HeaderOnlyAuthData | src/webauthn/proto/raw_message.rs:190-202 | a 37-byte `authData` yields an object with no credential, fixed fields equal to those bytes, the bytes as `rawAuthData`, and `fmt` and `attStmt` passed through |
| AttestationObjectProperties.FromBase64Stages | src/webauthn/proto/raw_message.rs:182-185 | the string entry point succeeds exactly when base64 decoding and `from_bytes` both succeed |

## Left out

- CBOR decoding (`serde_cbor::from_slice`) is a foreign library. Both uses are function-valued parameters that return a value or an error message.
- Base64 decoding (`base64::decode`) is a foreign call. It is a function-valued parameter too.
- `serde_cbor::Value` has no `Float` or `Tag` variants here. Map keys are integers, text or bytes only. The decoder only tests for integers, byte strings and booleans, so the other shapes matter only as "anything else".
- Serde derives and serialization attributes are not modelled: they carry no decoding logic.
- The values of `ECDSA_Y_PREFIX_POSITIVTE` and `ECDSA_Y_PREFIX_NEGATIVE` are not defined in constants.rs. The model leaves them open and assumes only that they differ.
- The crate's error module is not part of this model. `Errors.Error` mirrors the variants this decoder produces.
- A Rust panic is not an error value. It is modelled as the `Panic` error variant, which every caller propagates unchanged.
- Bytes are the integer subset type `U8` (0 to 255), not a bit-vector type. The decoder does no bit operations on them.
- The `Message` trait declaration has no behaviour beyond its two implementations, which are modelled.
- RawMessage.ReadAttestedCredentialData: its own contract does not state the decoded key or the CBOR and key failures. Those are stated by `AuthenticatorDataProperties.CredentialBlockMatchesOffsets`.
