/** The records the user and the verifier exchange (mcl values in discrete-log form). */
module Entities {
  import opened Layout
  import opened Group

  /** user_identifier_t: a fixed 32-byte buffer and a length field. */
  datatype UserIdentifier = UserIdentifier(buffer: IdBytes, bufferLength: nat)

  /** issuer_signature_t: the issuer's signature over the user's keys, two points of G1. */
  datatype IssuerSignature = IssuerSignature(userKey: Point, userKeyPrime: Point)

  /** user_proof_of_key_t: key_hat in G1 and the scalars e, s, s_id. */
  datatype ProofOfKey = ProofOfKey(keyHat: Point, e: Fr, s: Fr, sId: Fr)

  /** system_par_t, reduced to the one member the core reads: the generator G1. */
  datatype SystemParameters = SystemParameters(g1: Point)

  /** issuer_keys_t, reduced to the secret components sk of the issuer keys 0, 1 and 2. */
  datatype IssuerKeys = IssuerKeys(k0: Fr, k1: Fr, k2: Fr)
}
