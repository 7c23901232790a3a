/** Fixed widths of the host/card wire format and the two fixed-offset embeddings
    into a 32-byte scalar buffer: the SHA-1 digest (challenge) and the epoch. */
module Layout {
  import opened Bytes

  /** USER_MAX_ID_LENGTH: width of the user identifier buffer. */
  const USER_MAX_ID_LENGTH: nat := 32
  /** sizeof(elliptic_curve_point_t): a card-format point, 0x04 followed by X and Y. */
  const POINT_LENGTH: nat := 65
  /** sizeof(elliptic_curve_multiplier_t): a card-format scalar multiplier. */
  const MULTIPLIER_LENGTH: nat := 32
  /** EC_SIZE == sizeof(elliptic_curve_fr_t): a serialised element of Fr. */
  const EC_SIZE: nat := 32
  /** SHA_DIGEST_LENGTH: a SHA-1 digest. */
  const SHA_DIGEST_LENGTH: nat := 20
  /** SHA_DIGEST_PADDING: zero bytes in front of a digest embedded as an Fr element. */
  const SHA_DIGEST_PADDING: nat := 12
  /** NONCE_LENGTH: the verifier's nonce. */
  const NONCE_LENGTH: nat := 32
  /** EPOCH_LENGTH and EPOCH_OFFSET: where generate_epoch writes inside an EC_SIZE buffer. */
  const EPOCH_LENGTH: nat := 4
  const EPOCH_OFFSET: nat := EC_SIZE - EPOCH_LENGTH
  /** MAX_APDU_LENGTH_T0: the host's send and receive frame buffers. */
  const MAX_APDU_LENGTH_T0: nat := 258

  /** Offsets of the four fields of a proof-of-key response:
      key_hat ‖ digest ‖ s ‖ s_id. */
  const DIGEST_OFFSET: nat := POINT_LENGTH
  const S_OFFSET: nat := DIGEST_OFFSET + SHA_DIGEST_LENGTH
  const S_ID_OFFSET: nat := S_OFFSET + MULTIPLIER_LENGTH
  /** The whole response: P + 20 + M + F bytes. */
  const PROOF_LENGTH: nat := S_ID_OFFSET + EC_SIZE

  type IdBytes = s: seq<byte> | |s| == USER_MAX_ID_LENGTH witness Zeros(USER_MAX_ID_LENGTH)
  type PointBytes = s: seq<byte> | |s| == POINT_LENGTH witness Zeros(POINT_LENGTH)
  type MultiplierBytes = s: seq<byte> | |s| == MULTIPLIER_LENGTH witness Zeros(MULTIPLIER_LENGTH)
  type FrBytes = s: seq<byte> | |s| == EC_SIZE witness Zeros(EC_SIZE)
  type DigestBytes = s: seq<byte> | |s| == SHA_DIGEST_LENGTH witness Zeros(SHA_DIGEST_LENGTH)
  type NonceBytes = s: seq<byte> | |s| == NONCE_LENGTH witness Zeros(NONCE_LENGTH)
  type EpochBytes = s: seq<byte> | |s| == EPOCH_LENGTH witness Zeros(EPOCH_LENGTH)
  /** A reply frame fits the receive buffer. */
  type Frame = s: seq<byte> | |s| <= MAX_APDU_LENGTH_T0

  /** The digest-to-scalar padding shared by prover and verifier: a 20-byte digest
      copied to offset 12 of a zeroed 32-byte buffer. */
  function EmbedDigest(d: DigestBytes): (r: FrBytes)
    ensures forall i :: 0 <= i < SHA_DIGEST_PADDING ==> r[i] == 0
    ensures r[SHA_DIGEST_PADDING..] == d
  {
    Write(Zeros(EC_SIZE), SHA_DIGEST_PADDING, d)
  }

  /** The digest carried by a padded challenge buffer. */
  function DigestOf(b: FrBytes): DigestBytes
  {
    b[SHA_DIGEST_PADDING..]
  }

  /** A 32-byte buffer is a padded digest exactly when its first 12 bytes are zero. */
  predicate IsPaddedDigest(b: FrBytes)
  {
    forall i :: 0 <= i < SHA_DIGEST_PADDING ==> b[i] == 0
  }

  /** Padding loses nothing, and every buffer with a zero prefix is some digest's padding. */
  lemma EmbedDigestRoundTrip(d: DigestBytes, b: FrBytes)
    ensures DigestOf(EmbedDigest(d)) == d
    ensures IsPaddedDigest(b) <==> EmbedDigest(DigestOf(b)) == b
  {
    if IsPaddedDigest(b) {
      var r := EmbedDigest(DigestOf(b));
      assert forall i :: 0 <= i < EC_SIZE ==> r[i] == b[i] by {
        forall i | 0 <= i < EC_SIZE
          ensures r[i] == b[i]
        {
          if i >= SHA_DIGEST_PADDING {
            assert r[i] == r[SHA_DIGEST_PADDING..][i - SHA_DIGEST_PADDING];
          }
        }
      }
    }
  }

  /** The epoch buffer of the verifier: EPOCH_LENGTH bytes at EPOCH_OFFSET of a
      zeroed EC_SIZE buffer. */
  function EmbedEpoch(ep: EpochBytes): (r: FrBytes)
    ensures forall i :: 0 <= i < EC_SIZE && !(EPOCH_OFFSET <= i < EPOCH_OFFSET + EPOCH_LENGTH) ==> r[i] == 0
    ensures r[EPOCH_OFFSET..EPOCH_OFFSET + EPOCH_LENGTH] == ep
  {
    Write(Zeros(EC_SIZE), EPOCH_OFFSET, ep)
  }

  /** The card's proof-of-key response: key_hat ‖ digest ‖ s ‖ s_id. */
  function EncodeProofResponse(keyHat: PointBytes, digest: DigestBytes, s: MultiplierBytes, sId: FrBytes): (r: seq<byte>)
    ensures |r| == PROOF_LENGTH
  {
    keyHat + digest + s + sId
  }

  /** The four fields read at fixed offsets from a receive buffer. */
  function KeyHatField(buf: seq<byte>): PointBytes
    requires PROOF_LENGTH <= |buf|
  {
    buf[..DIGEST_OFFSET]
  }

  function DigestField(buf: seq<byte>): DigestBytes
    requires PROOF_LENGTH <= |buf|
  {
    buf[DIGEST_OFFSET..S_OFFSET]
  }

  function SField(buf: seq<byte>): MultiplierBytes
    requires PROOF_LENGTH <= |buf|
  {
    buf[S_OFFSET..S_ID_OFFSET]
  }

  function SIdField(buf: seq<byte>): FrBytes
    requires PROOF_LENGTH <= |buf|
  {
    buf[S_ID_OFFSET..PROOF_LENGTH]
  }

  /** The fixed offsets read back exactly the fields the layout wrote, whatever
      follows the response in the buffer. */
  lemma ProofFieldsRoundTrip(keyHat: PointBytes, digest: DigestBytes, s: MultiplierBytes, sId: FrBytes, rest: seq<byte>)
    ensures var buf := EncodeProofResponse(keyHat, digest, s, sId) + rest;
      && KeyHatField(buf) == keyHat
      && DigestField(buf) == digest
      && SField(buf) == s
      && SIdField(buf) == sId
  {
    var buf := EncodeProofResponse(keyHat, digest, s, sId) + rest;
    assert buf[..DIGEST_OFFSET] == keyHat;
    assert buf[DIGEST_OFFSET..S_OFFSET] == digest;
    assert buf[S_OFFSET..S_ID_OFFSET] == s;
    assert buf[S_ID_OFFSET..PROOF_LENGTH] == sId;
  }

  /** The four fields tile the response: the layout is also the parse's inverse. */
  lemma ProofFieldsTile(buf: seq<byte>)
    requires PROOF_LENGTH <= |buf|
    ensures EncodeProofResponse(KeyHatField(buf), DigestField(buf), SField(buf), SIdField(buf)) == buf[..PROOF_LENGTH]
  {
  }
}
