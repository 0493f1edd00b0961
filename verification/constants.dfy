/** Constants of the WebAuthn protocol module. The first four are copies of
    src/webauthn/proto/constants.rs kept for reference; the decoder does not
    use them. The two y-coordinate prefixes are imported by the decoder from
    the same module but are not defined in that file. */
module Constants {
  import opened Integers

  const ChallengeLength: nat := 32
  const CredentialIdLength: nat := 16

  /** COSE algorithm identifiers (section 8.1 of RFC 8152 and RFC 8812). */
  const CoseAlgorithmEs256: int := -7
  const CoseAlgorithmRs256: int := -257

  /** A pair of two different byte values. */
  type DistinctBytes = p: (U8, U8) | p.0 != p.1 witness (0, 1)

  /** The two SEC1 compressed-point prefixes the decoder assigns to the sign
      of the y coordinate (the source spells the first one
      `ECDSA_Y_PREFIX_POSITIVTE`). Their definitions are not part of this
      model, so their values are left open: all that is assumed is that
      they differ. */
  const EcdsaYPrefixes: DistinctBytes
  const EcdsaYPrefixPositive: U8 := EcdsaYPrefixes.0
  const EcdsaYPrefixNegative: U8 := EcdsaYPrefixes.1
}
