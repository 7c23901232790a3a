/** The verifier role: nonce generation and verification of a proof of key.
    Verification derives the epoch scalar, recomputes the commitment t' from the
    proof and the issuer's secret key components, recomputes the Fiat-Shamir
    challenge over key_hat, t' and the nonce, and compares it with the proof's e. */
module Verifier {
  import opened Bytes
  import opened Layout
  import opened Group
  import opened Primitives
  import opened Ladder
  import opened Entities

  // ---------------------------------------------------------------------------
  // ve_generate_nonce

  /** What RAND_bytes reports (1 on success) and the NONCE_LENGTH bytes it wrote. */
  datatype RandOutcome = RandOutcome(status: int, bytes: NonceBytes)

  /** Return code and the caller's buffer afterwards (None: a NULL buffer). */
  datatype NonceRun = NonceRun(code: int, nonce: Option<seq<byte>>)

  /** A NULL buffer or a length other than NONCE_LENGTH is refused before any
      randomness is drawn; otherwise RAND_bytes writes the first NONCE_LENGTH bytes
      of the caller's buffer, leaves the rest alone, and its failure is reported
      as -2. The buffer must hold the nonce_length bytes it is said to have. */
  function GenerateNonce(nonce: Option<seq<byte>>, nonceLength: nat, rand: RandOutcome): (r: NonceRun)
    requires nonce.Some? && nonceLength == NONCE_LENGTH ==> NONCE_LENGTH <= |nonce.value|
    ensures r.code in {-2, -1, 0}
    ensures r.code == -1 <==> nonce.None? || nonceLength != NONCE_LENGTH
    ensures r.code == -1 ==> r.nonce == nonce
    ensures r.code != -1 ==>
              && r.nonce.Some? && |r.nonce.value| == |nonce.value|
              && r.nonce.value[..nonceLength] == rand.bytes
              && r.nonce.value[nonceLength..] == nonce.value[nonceLength..]
    ensures r.code == 0 <==> r.code != -1 && rand.status == 1
  {
    if nonce.None? || nonceLength != NONCE_LENGTH then NonceRun(-1, nonce)
    else
      var filled := Some(Write(nonce.value, 0, rand.bytes));
      if rand.status != 1 then NonceRun(-2, filled) else NonceRun(0, filled)
  }

  /** The argument checks do not consult the random source. */
  lemma NonceArgumentChecksDrawNothing(nonce: Option<seq<byte>>, nonceLength: nat, r1: RandOutcome, r2: RandOutcome)
    requires nonce.None? || nonceLength != NONCE_LENGTH
    ensures GenerateNonce(nonce, nonceLength, r1) == GenerateNonce(nonce, nonceLength, r2)
  {
  }

  // ---------------------------------------------------------------------------
  // ve_verify_proof_of_key

  /** The epoch scalar: the generate_epoch bytes placed at EPOCH_OFFSET of a zeroed
      EC_SIZE buffer, converted with mcl_bytes_to_Fr. */
  function EpochScalar(c: Crypto, epoch: EpochBytes): Fr
  {
    c.bytesToFr(EmbedEpoch(epoch))
  }

  /** t' as the source accumulates it: s·G1, then three terms in key_hat, each
      added as it is computed, then normalised. */
  function Commitment(params: SystemParameters, keys: IssuerKeys, proof: ProofOfKey, epoch: Fr): Point
  {
    var t0 := PointMul(params.g1, proof.s);
    var t1 := PointAdd(t0, PointMul(proof.keyHat, FrNeg(FrMul(proof.e, keys.k0))));
    var t2 := PointAdd(t1, PointMul(proof.keyHat, FrMul(keys.k1, proof.sId)));
    var t3 := PointAdd(t2, PointMul(proof.keyHat, FrNeg(FrMul(FrMul(proof.e, keys.k2), epoch))));
    Normalize(t3)
  }

  /** The single scalar applied to key_hat: −e·k0 + k1·s_id − e·k2·epoch. */
  function KeyHatScalar(keys: IssuerKeys, proof: ProofOfKey, epoch: Fr): Fr
  {
    FrAdd(FrAdd(FrNeg(FrMul(proof.e, keys.k0)), FrMul(keys.k1, proof.sId)),
          FrNeg(FrMul(FrMul(proof.e, keys.k2), epoch)))
  }

  /** The three-step accumulation is the single linear combination
      s·G1 + (−e·k0 + k1·s_id − e·k2·epoch)·key_hat. */
  lemma CommitmentIdentity(params: SystemParameters, keys: IssuerKeys, proof: ProofOfKey, epoch: Fr)
    ensures Commitment(params, keys, proof, epoch)
         == PointAdd(PointMul(params.g1, proof.s), PointMul(proof.keyHat, KeyHatScalar(keys, proof, epoch)))
  {
    var t0 := PointMul(params.g1, proof.s);
    var a := PointMul(proof.keyHat, FrNeg(FrMul(proof.e, keys.k0)));
    var b := PointMul(proof.keyHat, FrMul(keys.k1, proof.sId));
    var d := PointMul(proof.keyHat, FrNeg(FrMul(FrMul(proof.e, keys.k2), epoch)));
    PointAddAssoc(t0, a, b);
    PointMulDistributes(proof.keyHat, FrNeg(FrMul(proof.e, keys.k0)), FrMul(keys.k1, proof.sId));
    PointAddAssoc(t0, PointAdd(a, b), d);
    PointMulDistributes(proof.keyHat, FrAdd(FrNeg(FrMul(proof.e, keys.k0)), FrMul(keys.k1, proof.sId)),
                        FrNeg(FrMul(FrMul(proof.e, keys.k2), epoch)));
  }

  /** The Fiat-Shamir transcript: point data of key_hat, then of t', then the nonce. */
  function Transcript(c: Crypto, keyHat: Point, t: Point, nonce: seq<byte>): (r: seq<byte>)
    ensures |r| == |c.pointData(keyHat)| + |c.pointData(t)| + |nonce|
  {
    c.pointData(keyHat) + c.pointData(t) + nonce
  }

  /** With fixed-size point data the transcript determines its three parts. */
  lemma TranscriptInjective(c: Crypto, k1: Point, t1: Point, n1: seq<byte>, k2: Point, t2: Point, n2: seq<byte>)
    requires c.FixedPointData()
    requires Transcript(c, k1, t1, n1) == Transcript(c, k2, t2, n2)
    ensures c.pointData(k1) == c.pointData(k2)
    ensures c.pointData(t1) == c.pointData(t2)
    ensures n1 == n2
  {
    var m := c.pointDataSize;
    var x := Transcript(c, k1, t1, n1);
    assert |c.pointData(k1)| == m && |c.pointData(k2)| == m;
    assert |c.pointData(t1)| == m && |c.pointData(t2)| == m;
    assert c.pointData(k1) == x[..m] == c.pointData(k2);
    assert c.pointData(t1) == x[m..2 * m] == c.pointData(t2);
    assert n1 == x[2 * m..] == n2;
  }

  /** e' = mcl_bytes_to_Fr(0^12 ‖ SHA-1(transcript)). */
  function Challenge(c: Crypto, keyHat: Point, t: Point, nonce: seq<byte>): Fr
  {
    c.bytesToFr(EmbedDigest(c.sha1(Transcript(c, keyHat, t, nonce))))
  }

  /** The four checks of verification, in order, stated over the single linear
      combination rather than the accumulation: nonce present and non-empty,
      t' valid, e' valid, e' equal to the proof's e. */
  function VerifyChecks(c: Crypto, params: SystemParameters, keys: IssuerKeys, nonce: Option<seq<byte>>,
                        proof: ProofOfKey, epochBytes: EpochBytes): seq<bool>
  {
    var epoch := EpochScalar(c, epochBytes);
    var t := PointAdd(PointMul(params.g1, proof.s), PointMul(proof.keyHat, KeyHatScalar(keys, proof, epoch)));
    var n := if nonce.Some? then nonce.value else [];
    var e' := Challenge(c, proof.keyHat, t, n);
    [nonce.Some? && |n| != 0, c.isValidG1(t), c.isValidFr(e'), e' == proof.e]
  }

  /** ve_verify_proof_of_key. The nonce buffer holds exactly nonce_length bytes
      (None: a NULL pointer); `epochBytes` is what generate_epoch writes. The
      result is the code of the first failing check: −1 nonce, −2 t', −3 e',
      −4 mismatch; 0 exactly when all pass. */
  function VerifyProofOfKey(c: Crypto, params: SystemParameters, keys: IssuerKeys, nonce: Option<seq<byte>>,
                            proof: ProofOfKey, epochBytes: EpochBytes): (code: int)
    ensures var i := FirstFailure(VerifyChecks(c, params, keys, nonce, proof, epochBytes));
      code == if i < 4 then -(i + 1) else 0
  {
    var checks := VerifyChecks(c, params, keys, nonce, proof, epochBytes);
    FirstFailureOfFour(checks[0], checks[1], checks[2], checks[3]);
    assert checks == [checks[0], checks[1], checks[2], checks[3]];
    if nonce.None? || |nonce.value| == 0 then -1
    else
      var epoch := EpochScalar(c, epochBytes);
      var t := Commitment(params, keys, proof, epoch);
      CommitmentIdentity(params, keys, proof, epoch);
      if !c.isValidG1(t) then -2
      else
        var e' := Challenge(c, proof.keyHat, t, nonce.value);
        if !c.isValidFr(e') then -3
        else if proof.e != e' then -4
        else 0
  }

  /** Acceptance holds exactly when the nonce is present, t' and e' are valid and e' == e. */
  lemma VerifyAcceptsIff(c: Crypto, params: SystemParameters, keys: IssuerKeys, nonce: Option<seq<byte>>,
                         proof: ProofOfKey, epochBytes: EpochBytes)
    ensures var epoch := EpochScalar(c, epochBytes);
      var t := Commitment(params, keys, proof, epoch);
      VerifyProofOfKey(c, params, keys, nonce, proof, epochBytes) == 0
      <==> && nonce.Some? && |nonce.value| != 0
           && c.isValidG1(t)
           && c.isValidFr(Challenge(c, proof.keyHat, t, nonce.value))
           && proof.e == Challenge(c, proof.keyHat, t, nonce.value)
  {
    var checks := VerifyChecks(c, params, keys, nonce, proof, epochBytes);
    CommitmentIdentity(params, keys, proof, EpochScalar(c, epochBytes));
    AllPassIffNoFailure(checks);
  }

  /** A missing or empty nonce is refused before the epoch or any group operation
      is consulted. */
  lemma NonceCheckFirst(c1: Crypto, c2: Crypto, p1: SystemParameters, p2: SystemParameters,
                        k1: IssuerKeys, k2: IssuerKeys, nonce: Option<seq<byte>>,
                        q1: ProofOfKey, q2: ProofOfKey, ep1: EpochBytes, ep2: EpochBytes)
    requires nonce.None? || |nonce.value| == 0
    ensures VerifyProofOfKey(c1, p1, k1, nonce, q1, ep1) == VerifyProofOfKey(c2, p2, k2, nonce, q2, ep2) == -1
  {
  }

  /** The response s = ρx + e·x, read as an integer modulo Q. */
  lemma SResponseCong(e: Fr, x: Fr, rx: Fr)
    ensures Cong(FrAdd(rx, FrMul(e, x)), rx + e * x)
  {
    FrMulCong(e, x);
    FrAddCong(rx, FrMul(e, x));
    CongAdd(rx, rx, FrMul(e, x), e * x);
  }

  /** The response s_id = ρid − e·id, read as an integer modulo Q. */
  lemma SIdResponseCong(e: Fr, id: Fr, rid: Fr)
    ensures Cong(FrSub(rid, FrMul(e, id)), rid - e * id)
  {
    FrMulCong(e, id);
    FrSubCong(rid, FrMul(e, id));
    CongNeg(FrMul(e, id), e * id);
    CongAdd(rid, rid, -(FrMul(e, id) as int), -(e * id));
  }

  /** The negated product −a·b, read as an integer modulo Q. */
  lemma NegProductCong(a: Fr, b: Fr)
    ensures Cong(FrNeg(FrMul(a, b)), -(a * b))
  {
    FrMulCong(a, b);
    FrNegCong(FrMul(a, b));
    CongNeg(FrMul(a, b), a * b);
  }

  /** The epoch term −e·k2·epoch, read as an integer modulo Q. */
  lemma EpochTermCong(e: Fr, k2: Fr, ep: Fr)
    ensures Cong(FrNeg(FrMul(FrMul(e, k2), ep)), -(e * k2 * ep))
  {
    FrMulCong(e, k2);
    FrMulCong(FrMul(e, k2), ep);
    FrNegCong(FrMul(FrMul(e, k2), ep));
    CongMul(FrMul(e, k2), e * k2, ep, ep);
    CongNeg(FrMul(FrMul(e, k2), ep), e * k2 * ep);
  }

  /** The sum of the first two key_hat terms, read as an integer modulo Q. */
  lemma IdentityTermsCong(e: Fr, k0: Fr, k1: Fr, sId: Fr, sIdInt: int)
    requires Cong(sId, sIdInt)
    ensures Cong(FrAdd(FrNeg(FrMul(e, k0)), FrMul(k1, sId)), -(e * k0) + k1 * sIdInt)
  {
    NegProductCong(e, k0);
    FrMulCong(k1, sId);
    CongMul(k1, k1, sId, sIdInt);
    CongAdd(FrNeg(FrMul(e, k0)), -(e * k0), FrMul(k1, sId), k1 * sIdInt);
    FrAddCong(FrNeg(FrMul(e, k0)), FrMul(k1, sId));
  }

  /** The key_hat scalar, read as an integer modulo Q. */
  lemma KeyHatScalarCong(keys: IssuerKeys, proof: ProofOfKey, ep: Fr, sIdInt: int)
    requires Cong(proof.sId, sIdInt)
    ensures Cong(KeyHatScalar(keys, proof, ep),
                 -(proof.e * keys.k0) + keys.k1 * sIdInt - proof.e * keys.k2 * ep)
  {
    var uv := FrAdd(FrNeg(FrMul(proof.e, keys.k0)), FrMul(keys.k1, proof.sId));
    var w := FrNeg(FrMul(FrMul(proof.e, keys.k2), ep));
    IdentityTermsCong(proof.e, keys.k0, keys.k1, proof.sId, sIdInt);
    EpochTermCong(proof.e, keys.k2, ep);
    CongAdd(uv, -(proof.e * keys.k0) + keys.k1 * sIdInt, w, -(proof.e * keys.k2 * ep));
    FrAddCong(uv, w);
  }

  /** The issuer's coefficient k0 + k1·id + k2·epoch, read as an integer modulo Q. */
  lemma CoefficientCong(keys: IssuerKeys, id: Fr, ep: Fr)
    ensures Cong(FrAdd(FrAdd(keys.k0, FrMul(keys.k1, id)), FrMul(keys.k2, ep)),
                 keys.k0 + keys.k1 * id + keys.k2 * ep)
  {
    FrMulCong(keys.k1, id);
    FrAddCong(keys.k0, FrMul(keys.k1, id));
    CongAdd(keys.k0, keys.k0, FrMul(keys.k1, id), keys.k1 * id);
    FrMulCong(keys.k2, ep);
    FrAddCong(FrAdd(keys.k0, FrMul(keys.k1, id)), FrMul(keys.k2, ep));
    CongAdd(FrAdd(keys.k0, FrMul(keys.k1, id)), keys.k0 + keys.k1 * id, FrMul(keys.k2, ep), keys.k2 * ep);
  }

  /** Two congruences chained, then moved to one side. */
  lemma CongLinkZero(a: int, b: int, b': int)
    requires Cong(a, b) && Cong(b, b')
    ensures Cong(a - b', 0)
  {
    CongSubZero(a, b');
  }

  /** The relation G1·x = key_hat·(k0 + k1·id + k2·epoch), read as integers modulo Q. */
  lemma RelationCong(g: Point, k: Point, keys: IssuerKeys, x: Fr, id: Fr, ep: Fr)
    requires PointMul(g, x) == PointMul(k, FrAdd(FrAdd(keys.k0, FrMul(keys.k1, id)), FrMul(keys.k2, ep)))
    ensures Cong(g.log * x - k.log * (keys.k0 + keys.k1 * id + keys.k2 * ep), 0)
  {
    var cFr := FrAdd(FrAdd(keys.k0, FrMul(keys.k1, id)), FrMul(keys.k2, ep));
    var cInt := keys.k0 + keys.k1 * id + keys.k2 * ep;
    CoefficientCong(keys, id, ep);
    CongMul(k.log, k.log, cFr, cInt);
    CongLinkZero(g.log * x, k.log * cFr, k.log * cInt);
  }

  /** The ring identity behind completeness. */
  lemma ResponseExpansion(g: int, k: int, e: int, x: int, id: int, rx: int, rid: int, k0: int, k1: int, k2: int, ep: int)
    ensures g * (rx + e * x) + k * (-(e * k0) + k1 * (rid - e * id) - e * k2 * ep)
         == g * rx + k * (k1 * rid) + e * (g * x - k * (k0 + k1 * id + k2 * ep))
  {
    assert g * (rx + e * x) == g * rx + e * (g * x);
    assert k1 * (rid - e * id) == k1 * rid - e * (k1 * id);
    assert k * (-(e * k0) + (k1 * rid - e * (k1 * id)) - e * k2 * ep)
        == k * (k1 * rid) - e * (k * (k0 + k1 * id + k2 * ep));
  }

  /** Two residues in [0, Q) linked by a chain of congruences are equal. */
  lemma CongruentFrEqual(a: Fr, b: Fr, ai: int, bi: int, base: int)
    requires Cong(a, ai) && ai == bi && Cong(bi, base) && Cong(b, base)
    ensures a == b
  {
  }

  /** The commitment recomputed from honest responses is the prover's commitment
      G1·ρx + key_hat·(k1·ρid). */
  lemma HonestCommitment(params: SystemParameters, keys: IssuerKeys, proof: ProofOfKey, ep: Fr,
                         x: Fr, id: Fr, rx: Fr, rid: Fr)
    requires PointMul(params.g1, x)
          == PointMul(proof.keyHat, FrAdd(FrAdd(keys.k0, FrMul(keys.k1, id)), FrMul(keys.k2, ep)))
    requires proof.s == FrAdd(rx, FrMul(proof.e, x))
    requires proof.sId == FrSub(rid, FrMul(proof.e, id))
    ensures Commitment(params, keys, proof, ep)
         == PointAdd(PointMul(params.g1, rx), PointMul(proof.keyHat, FrMul(keys.k1, rid)))
  {
    var g := params.g1.log;
    var k := proof.keyHat.log;
    var e := proof.e;
    var sInt := rx + e * x;
    var aInt := -(e * keys.k0) + keys.k1 * (rid - e * id) - e * keys.k2 * ep;
    var z := g * x - k * (keys.k0 + keys.k1 * id + keys.k2 * ep);
    var base := g * rx + k * (keys.k1 * rid);
    var lhs := PointAdd(PointMul(params.g1, proof.s), PointMul(proof.keyHat, KeyHatScalar(keys, proof, ep)));
    var rhs := PointAdd(PointMul(params.g1, rx), PointMul(proof.keyHat, FrMul(keys.k1, rid)));
    CommitmentIdentity(params, keys, proof, ep);
    SResponseCong(e, x, rx);
    SIdResponseCong(e, id, rid);
    KeyHatScalarCong(keys, proof, ep, rid - e * id);
    PointCombinationCong(params.g1, proof.s, proof.keyHat, KeyHatScalar(keys, proof, ep), sInt, aInt);
    RelationCong(params.g1, proof.keyHat, keys, x, id, ep);
    ResponseExpansion(g, k, e, x, id, rx, rid, keys.k0, keys.k1, keys.k2, ep);
    CongDropMultiple(base, e, z);
    FrMulCong(keys.k1, rid);
    PointCombinationCong(params.g1, rx, proof.keyHat, FrMul(keys.k1, rid), rx, keys.k1 * rid);
    CongruentFrEqual(lhs.log, rhs.log, g * sInt + k * aInt, base + e * z, base);
  }

  /** Completeness of the verification equation. Take a key_hat related to the
      generator by G1·x = key_hat·(k0 + k1·id + k2·epoch), a commitment
      t = G1·ρx + key_hat·(k1·ρid), and the responses s = ρx + e·x and
      s_id = ρid − e·id. Then the recomputed t' is t, and a proof whose e is the
      challenge over t is accepted whenever t and e are valid. */
  lemma HonestProofAccepted(c: Crypto, params: SystemParameters, keys: IssuerKeys, nonce: seq<byte>,
                            proof: ProofOfKey, epochBytes: EpochBytes, x: Fr, id: Fr, rx: Fr, rid: Fr)
    requires |nonce| != 0
    requires PointMul(params.g1, x)
          == PointMul(proof.keyHat, FrAdd(FrAdd(keys.k0, FrMul(keys.k1, id)), FrMul(keys.k2, EpochScalar(c, epochBytes))))
    requires proof.s == FrAdd(rx, FrMul(proof.e, x))
    requires proof.sId == FrSub(rid, FrMul(proof.e, id))
    requires var t := PointAdd(PointMul(params.g1, rx), PointMul(proof.keyHat, FrMul(keys.k1, rid)));
      && c.isValidG1(t)
      && proof.e == Challenge(c, proof.keyHat, t, nonce)
      && c.isValidFr(proof.e)
    ensures Commitment(params, keys, proof, EpochScalar(c, epochBytes))
         == PointAdd(PointMul(params.g1, rx), PointMul(proof.keyHat, FrMul(keys.k1, rid)))
    ensures VerifyProofOfKey(c, params, keys, Some(nonce), proof, epochBytes) == 0
  {
    HonestCommitment(params, keys, proof, EpochScalar(c, epochBytes), x, id, rx, rid);
    VerifyAcceptsIff(c, params, keys, Some(nonce), proof, epochBytes);
  }
}
