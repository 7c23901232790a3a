/** Properties that join the user's host side and the verifier: both embed the
    20-byte digest the same way, and a proof retrieved from an honest card is
    accepted. */
module Protocol {
  import opened Bytes
  import opened Layout
  import opened Group
  import opened Primitives
  import opened Apdu
  import opened Ladder
  import opened Entities
  import User
  import Verifier

  /** When the card's digest field is SHA-1 of the verifier's transcript, the host
      decodes e from exactly the buffer the verifier decodes e' from: zeros in
      [0, 12), the digest in [12, 32). The two conversions are distinct functions,
      so e == e' only where they agree on that buffer. */
  lemma DigestEmbeddingAgrees(c: Crypto, buf: seq<byte>, keyHat: Point, t: Point, nonce: seq<byte>)
    requires PROOF_LENGTH <= |buf|
    requires DigestField(buf) == c.sha1(Verifier.Transcript(c, keyHat, t, nonce))
    ensures var b := EmbedDigest(DigestField(buf));
      && (forall i :: 0 <= i < SHA_DIGEST_PADDING ==> b[i] == 0)
      && b[SHA_DIGEST_PADDING..] == buf[DIGEST_OFFSET..S_OFFSET]
      && (c.cardFrToFr(b) == c.bytesToFr(b) ==> User.DecodeFields(c, buf).e == Verifier.Challenge(c, keyHat, t, nonce))
  {
  }

  /** End to end: an honest card answers 0x61 PROOF_LENGTH, then key_hat, the
      digest of the transcript over its commitment t, and Schnorr-style responses
      s = ρx + e·x and s_id = ρid − e·id for a key_hat with
      G1·x = key_hat·(k0 + k1·id + k2·epoch). If every field is valid, the two
      challenge conversions agree on the padded digest and t is valid, the host
      returns 0 with the decoded proof and the verifier accepts it. */
  lemma HonestCardAccepted(h: Host, c: Crypto, params: SystemParameters, keys: IssuerKeys,
                           nonce: NonceBytes, prior: ProofOfKey, epochBytes: EpochBytes,
                           keyHat: PointBytes, digest: DigestBytes, s: MultiplierBytes, sId: FrBytes, sw: seq<byte>,
                           x: Fr, id: Fr, rx: Fr, rid: Fr)
    requires |sw| <= MAX_APDU_LENGTH_T0 - PROOF_LENGTH
    requires h.build(User.ProofRequest(h.codes, nonce)).Some?
    requires h.build(GetResponse(PROOF_LENGTH as byte)).Some?
    requires var cmd1 := h.build(User.ProofRequest(h.codes, nonce)).value;
             var cmd2 := h.build(GetResponse(PROOF_LENGTH as byte)).value;
             && h.transmit([cmd1]) == Received([SW1_MORE_DATA, PROOF_LENGTH as byte])
             && h.transmit([cmd1, cmd2]) == Received(EncodeProofResponse(keyHat, digest, s, sId) + sw)
    requires var proof := ProofOfKey(c.cardToG1(keyHat), c.cardFrToFr(EmbedDigest(digest)),
                                     c.cardMultiplierToFr(s), c.cardFrToFr(sId));
             var t := PointAdd(PointMul(params.g1, rx), PointMul(proof.keyHat, FrMul(keys.k1, rid)));
             && FirstFailure(User.FieldChecks(c, proof)) == 4
             && PointMul(params.g1, x) == PointMul(proof.keyHat, FrAdd(FrAdd(keys.k0, FrMul(keys.k1, id)),
                                                   FrMul(keys.k2, Verifier.EpochScalar(c, epochBytes))))
             && proof.s == FrAdd(rx, FrMul(proof.e, x))
             && proof.sId == FrSub(rid, FrMul(proof.e, id))
             && digest == c.sha1(Verifier.Transcript(c, proof.keyHat, t, nonce))
             && c.cardFrToFr(EmbedDigest(digest)) == c.bytesToFr(EmbedDigest(digest))
             && c.isValidG1(t)
    ensures var run := User.ComputeProofOfKey(h, c, Some(nonce), NONCE_LENGTH, Some(prior));
      && run.status == User.Returned(0)
      && run.proof.Some?
      && Verifier.VerifyProofOfKey(c, params, keys, Some(nonce), run.proof.value, epochBytes) == 0
  {
    var proof := ProofOfKey(c.cardToG1(keyHat), c.cardFrToFr(EmbedDigest(digest)),
                            c.cardMultiplierToFr(s), c.cardFrToFr(sId));
    User.TwoExchangeRetrieval(h, c, nonce, prior, keyHat, digest, s, sId, sw);
    var run := User.ComputeProofOfKey(h, c, Some(nonce), NONCE_LENGTH, Some(prior));
    assert run.proof == Some(proof);
    var t := PointAdd(PointMul(params.g1, rx), PointMul(proof.keyHat, FrMul(keys.k1, rid)));
    assert proof.e == Verifier.Challenge(c, proof.keyHat, t, nonce);
    FirstFailureOfFour(c.isValidG1(proof.keyHat), c.isValidFr(proof.e), c.isValidFr(proof.s), c.isValidFr(proof.sId));
    Verifier.HonestProofAccepted(c, params, keys, nonce, proof, epochBytes, x, id, rx, rid);
  }
}
