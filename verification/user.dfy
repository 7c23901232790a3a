/** The host side of the user role, driving the MULTOS card: the identifier
    getter, provisioning of the identifier and issuer signature, and retrieval
    of a proof of key in two exchanges followed by a fixed-offset parse. */
module User {
  import opened Bytes
  import opened Layout
  import opened Group
  import opened Primitives
  import opened Apdu
  import opened Ladder
  import opened Entities

  // ---------------------------------------------------------------------------
  // ue_get_user_identifier

  /** The identifier the getter hands out: 0x10 followed by 31 zero bytes. */
  const STUB_IDENTIFIER: IdBytes := [0x10] + Zeros(USER_MAX_ID_LENGTH - 1)

  /** Return code and the destination record afterwards (None: a NULL destination). */
  datatype IdentifierRun = IdentifierRun(code: int, identifier: Option<UserIdentifier>)

  function GetUserIdentifier(reader: Host, identifier: Option<UserIdentifier>): (r: IdentifierRun)
    ensures identifier.None? ==> r.code == -1 && r.identifier.None?
    ensures identifier.Some? ==> r.code == 0 && r.identifier.Some?
    ensures identifier.Some? ==>
      && r.identifier.value.bufferLength == USER_MAX_ID_LENGTH
      && r.identifier.value.buffer[0] == 0x10
      && forall i :: 1 <= i < USER_MAX_ID_LENGTH ==> r.identifier.value.buffer[i] == 0
  {
    if identifier.None? then IdentifierRun(-1, None)
    else IdentifierRun(0, Some(UserIdentifier(STUB_IDENTIFIER, USER_MAX_ID_LENGTH)))
  }

  /** The reader and the destination's previous contents play no part. */
  lemma GetUserIdentifierIgnoresReader(r1: Host, r2: Host, id1: UserIdentifier, id2: UserIdentifier)
    ensures GetUserIdentifier(r1, Some(id1)) == GetUserIdentifier(r2, Some(id2))
  {
  }

  // ---------------------------------------------------------------------------
  // ue_set_user_identifier_issuer_signatures

  /** The provisioning data: identifier ‖ card(user_key) ‖ card(user_key_prime). */
  function ProvisioningPayload(c: Crypto, identifier: UserIdentifier, sig: IssuerSignature): (data: seq<byte>)
    ensures |data| == USER_MAX_ID_LENGTH + 2 * POINT_LENGTH
  {
    identifier.buffer + c.g1ToCard(sig.userKey) + c.g1ToCard(sig.userKeyPrime)
  }

  /** The card's reading of a provisioning payload: identifier, user_key, user_key_prime. */
  function SplitProvisioningPayload(data: seq<byte>): (IdBytes, PointBytes, PointBytes)
    requires |data| == USER_MAX_ID_LENGTH + 2 * POINT_LENGTH
  {
    (data[..USER_MAX_ID_LENGTH],
     data[USER_MAX_ID_LENGTH..USER_MAX_ID_LENGTH + POINT_LENGTH],
     data[USER_MAX_ID_LENGTH + POINT_LENGTH..])
  }

  /** The card recovers exactly the identifier bytes and the two encoded points, in order;
      and every payload of the right length is the concatenation of its parts. */
  lemma ProvisioningPayloadRoundTrip(c: Crypto, identifier: UserIdentifier, sig: IssuerSignature, data: seq<byte>)
    requires |data| == USER_MAX_ID_LENGTH + 2 * POINT_LENGTH
    ensures SplitProvisioningPayload(ProvisioningPayload(c, identifier, sig))
         == (identifier.buffer, c.g1ToCard(sig.userKey), c.g1ToCard(sig.userKeyPrime))
    ensures var (i, k, kp) := SplitProvisioningPayload(data); i + k + kp == data
  {
    var p := ProvisioningPayload(c, identifier, sig);
    assert p[..USER_MAX_ID_LENGTH] == identifier.buffer;
    assert p[USER_MAX_ID_LENGTH..USER_MAX_ID_LENGTH + POINT_LENGTH] == c.g1ToCard(sig.userKey);
    assert p[USER_MAX_ID_LENGTH + POINT_LENGTH..] == c.g1ToCard(sig.userKeyPrime);
  }

  /** The CASE3S command that provisions the card. */
  function ProvisioningCommand(codes: AppCodes, c: Crypto, identifier: UserIdentifier, sig: IssuerSignature): (spec: CommandSpec)
    ensures spec.kind == Case3S && spec.cla == codes.cla && spec.ins == codes.insSetUserIdentifierIssuerSignature
    ensures spec.p1 == 0 && spec.p2 == 0 && spec.le == 0
    ensures spec.lc as int == |spec.data| == USER_MAX_ID_LENGTH + 2 * POINT_LENGTH
    ensures spec.data == ProvisioningPayload(c, identifier, sig)
  {
    var data := ProvisioningPayload(c, identifier, sig);
    // lc accumulates in a uint8_t
    var lc := ToU8(USER_MAX_ID_LENGTH + POINT_LENGTH + POINT_LENGTH);
    CommandSpec(Case3S, codes.cla, codes.insSetUserIdentifierIssuerSignature, 0x00, 0x00, lc, data, 0)
  }

  /** Return code and the commands transmitted, in order. */
  datatype ProvisionRun = ProvisionRun(code: int, sent: seq<Command>)

  function SetUserIdentifierIssuerSignatures(h: Host, c: Crypto, identifier: UserIdentifier, sig: IssuerSignature): (r: ProvisionRun)
    ensures |r.sent| <= 1 && r.code <= 0
    ensures r.sent == [] <==> h.build(ProvisioningCommand(h.codes, c, identifier, sig)).None?
    ensures r.sent == [] ==> r.code == -1
    ensures r.sent != [] ==> h.build(ProvisioningCommand(h.codes, c, identifier, sig)) == Some(r.sent[0])
    ensures r.sent != [] ==> (r.code == 0 <==> h.transmit(r.sent).Received?)
    ensures r.sent != [] && r.code != 0 ==> h.transmit(r.sent) == Failed(r.code)
  {
    var spec := ProvisioningCommand(h.codes, c, identifier, sig);
    match h.build(spec)
    case None => ProvisionRun(-1, [])
    case Some(cmd) =>
      match h.transmit([cmd])
      case Failed(e) => ProvisionRun(e, [cmd])
      case Received(_) => ProvisionRun(0, [cmd])
  }

  /** The identifier's length field is never read. */
  lemma ProvisioningIgnoresBufferLength(h: Host, c: Crypto, buffer: IdBytes, n1: nat, n2: nat, sig: IssuerSignature)
    ensures SetUserIdentifierIssuerSignatures(h, c, UserIdentifier(buffer, n1), sig)
         == SetUserIdentifierIssuerSignatures(h, c, UserIdentifier(buffer, n2), sig)
  {
  }

  /** The card's status word is never inspected: any reply frame means success. */
  lemma ProvisioningIgnoresStatusWord(h: Host, c: Crypto, identifier: UserIdentifier, sig: IssuerSignature, f1: Frame, f2: Frame)
    requires h.build(ProvisioningCommand(h.codes, c, identifier, sig)).Some?
    ensures var cmd := h.build(ProvisioningCommand(h.codes, c, identifier, sig)).value;
      SetUserIdentifierIssuerSignatures(h.(transmit := _ => Received(f1)), c, identifier, sig)
      == SetUserIdentifierIssuerSignatures(h.(transmit := _ => Received(f2)), c, identifier, sig)
      == ProvisionRun(0, [cmd])
  {
  }

  // ---------------------------------------------------------------------------
  // ue_compute_proof_of_key

  /** How a host function ended: with a return code, or aborted by a failed C assert. */
  datatype Status = Returned(code: int) | AssertionFailed

  /** The CASE4S command that hands the nonce to the card and asks for P + 20 + M + F bytes. */
  function ProofRequest(codes: AppCodes, nonce: NonceBytes): (spec: CommandSpec)
    ensures spec.kind == Case4S && spec.cla == codes.cla && spec.ins == codes.insComputeProofOfKey
    ensures spec.p1 == 0 && spec.p2 == 0
    ensures spec.lc as int == NONCE_LENGTH && spec.data == nonce
    ensures spec.le as int == PROOF_LENGTH
  {
    CommandSpec(Case4S, codes.cla, codes.insComputeProofOfKey, 0x00, 0x00, ToU8(NONCE_LENGTH), nonce, ToU8(PROOF_LENGTH))
  }

  /** The four proof fields as decoded from a receive buffer; e comes from the
      digest padded into a 32-byte scalar buffer. */
  function DecodeFields(c: Crypto, buf: seq<byte>): ProofOfKey
    requires PROOF_LENGTH <= |buf|
  {
    ProofOfKey(c.cardToG1(KeyHatField(buf)),
               c.cardFrToFr(EmbedDigest(DigestField(buf))),
               c.cardMultiplierToFr(SField(buf)),
               c.cardFrToFr(SIdField(buf)))
  }

  /** The validity checks of the four fields, in the order they are made. */
  function FieldChecks(c: Crypto, p: ProofOfKey): seq<bool>
  {
    [c.isValidG1(p.keyHat), c.isValidFr(p.e), c.isValidFr(p.s), c.isValidFr(p.sId)]
  }

  /** `prior` with its first `n` fields (in the order key_hat, e, s, s_id) taken from `next`. */
  function Overwritten(prior: ProofOfKey, next: ProofOfKey, n: nat): ProofOfKey
  {
    ProofOfKey(if n >= 1 then next.keyHat else prior.keyHat,
               if n >= 2 then next.e else prior.e,
               if n >= 3 then next.s else prior.s,
               if n >= 4 then next.sId else prior.sId)
  }

  /** Outcome of the parse and the proof record afterwards. */
  datatype ParseRun = ParseRun(status: Status, proof: ProofOfKey)

  /** Decodes and validates key_hat, e, s and s_id in turn. Each field is stored
      before it is checked; the first invalid one ends the parse with its own code
      (-2, -3, -4, -5) and later fields are left as they were. When all four are
      valid, the bytes consumed must equal the length the card announced. */
  function ParseProofResponse(c: Crypto, buf: seq<byte>, prior: ProofOfKey, le: byte, assertsEnabled: bool): (r: ParseRun)
    requires PROOF_LENGTH <= |buf|
    ensures var d := DecodeFields(c, buf);
      var i := FirstFailure(FieldChecks(c, d));
      && r.proof == Overwritten(prior, d, if i < 4 then i + 1 else 4)
      && (i < 4 ==> r.status == Returned(-(i + 2)))
      && (i == 4 ==> r.status == if assertsEnabled && le as int != PROOF_LENGTH then AssertionFailed else Returned(0))
  {
    var d := DecodeFields(c, buf);
    FirstFailureOfFour(c.isValidG1(d.keyHat), c.isValidFr(d.e), c.isValidFr(d.s), c.isValidFr(d.sId));
    var keyHat := c.cardToG1(KeyHatField(buf));
    var p1 := prior.(keyHat := keyHat);
    if !c.isValidG1(keyHat) then ParseRun(Returned(-2), p1)
    else
      var e := c.cardFrToFr(EmbedDigest(DigestField(buf)));
      var p2 := p1.(e := e);
      if !c.isValidFr(e) then ParseRun(Returned(-3), p2)
      else
        var s := c.cardMultiplierToFr(SField(buf));
        var p3 := p2.(s := s);
        if !c.isValidFr(s) then ParseRun(Returned(-4), p3)
        else
          var sId := c.cardFrToFr(SIdField(buf));
          var p4 := p3.(sId := sId);
          if !c.isValidFr(sId) then ParseRun(Returned(-5), p4)
          // amount of data processed must equal the amount announced
          else if assertsEnabled && PROOF_LENGTH != le as int then ParseRun(AssertionFailed, p4)
          else ParseRun(Returned(0), p4)
  }

  /** The length the card announced in SW2 of its first reply, read from the receive buffer. */
  function PendingLength(frame: Frame): byte
  {
    FirstReceive(frame)[1]
  }

  /** The exchanges of a proof retrieval: either they end early with a status, or
      they leave the receive buffer and the announced length for the parse. Both
      carry the commands transmitted, in order. */
  datatype Retrieval =
    | Stopped(status: Status, sent: seq<Command>)
    | Retrieved(buffer: seq<byte>, le: byte, sent: seq<Command>)

  /** The two exchanges: the CASE4S request carrying the nonce, the check that the
      card answered 0x61 XX, and GET RESPONSE for XX bytes. */
  function RetrieveProof(h: Host, nonce: NonceBytes): (r: Retrieval)
    ensures 1 <= |r.sent| <= 2 || (r.sent == [] && r == Stopped(Returned(-1), []))
    ensures r.sent == [] <==> h.build(ProofRequest(h.codes, nonce)).None?
    // first exchange: the nonce request
    ensures |r.sent| >= 1 ==> h.build(ProofRequest(h.codes, nonce)) == Some(r.sent[0])
    // a transport failure stops the retrieval with the transport's code
    ensures r.sent != [] && h.transmit(r.sent).Failed? ==> r == Stopped(Returned(h.transmit(r.sent).code), r.sent)
    // the first reply must announce pending data with SW1 = 0x61
    ensures |r.sent| >= 1 && h.assertsEnabled && h.transmit([r.sent[0]]).Received?
              && FirstReceive(h.transmit([r.sent[0]]).frame)[0] != SW1_MORE_DATA ==>
              r == Stopped(AssertionFailed, r.sent) && |r.sent| == 1
    // second exchange: GET RESPONSE for exactly the announced length
    ensures |r.sent| == 2 ==>
              && h.transmit([r.sent[0]]).Received?
              && h.build(GetResponse(PendingLength(h.transmit([r.sent[0]]).frame))) == Some(r.sent[1])
    // once the first reply passes the assert, GET RESPONSE is sent exactly when it can be built
    ensures |r.sent| >= 1 && h.transmit([r.sent[0]]).Received?
              && (!h.assertsEnabled || FirstReceive(h.transmit([r.sent[0]]).frame)[0] == SW1_MORE_DATA) ==>
              (|r.sent| == 2 <==> h.build(GetResponse(PendingLength(h.transmit([r.sent[0]]).frame))).Some?)
    // a failed build of GET RESPONSE stops with -1 after one exchange
    ensures |r.sent| == 1 && h.transmit(r.sent).Received? && r.Stopped? && r.status.Returned? ==> r.status.code == -1
    // the assert fires only when asserts are on and the first reply lacks SW1 = 0x61
    ensures r.Stopped? && r.status == AssertionFailed ==>
              && h.assertsEnabled && |r.sent| == 1 && h.transmit(r.sent).Received?
              && FirstReceive(h.transmit(r.sent).frame)[0] != SW1_MORE_DATA
    // the buffer holds the second reply over the remains of the first
    ensures r.Retrieved? <==> |r.sent| == 2 && h.transmit(r.sent).Received?
    ensures r.Retrieved? ==>
              && r.le == PendingLength(h.transmit([r.sent[0]]).frame)
              && r.buffer == Receive(FirstReceive(h.transmit([r.sent[0]]).frame), h.transmit(r.sent).frame)
  {
    match h.build(ProofRequest(h.codes, nonce))
    case None => Stopped(Returned(-1), [])
    case Some(cmd1) =>
      match h.transmit([cmd1])
      case Failed(r) => Stopped(Returned(r), [cmd1])
      case Received(frame1) =>
        var recv1 := FirstReceive(frame1);
        // the card must announce pending data: SW1 = 0x61, SW2 = its length
        if h.assertsEnabled && recv1[0] != SW1_MORE_DATA then Stopped(AssertionFailed, [cmd1])
        else
          var le := recv1[1];
          match h.build(GetResponse(le))
          case None => Stopped(Returned(-1), [cmd1])
          case Some(cmd2) =>
            match h.transmit([cmd1, cmd2])
            case Failed(r) => Stopped(Returned(r), [cmd1, cmd2])
            case Received(frame2) => Retrieved(Receive(recv1, frame2), le, [cmd1, cmd2])
  }

  /** Outcome, the proof record afterwards (None: a NULL destination) and the
      commands transmitted, in order. */
  datatype ProofRun = ProofRun(status: Status, proof: Option<ProofOfKey>, sent: seq<Command>)

  /** The arguments that must be present before any command is built. */
  predicate ProofArgumentsPresent(nonce: Option<seq<byte>>, nonceLength: nat, proofOfKey: Option<ProofOfKey>)
  {
    nonce.Some? && nonceLength != 0 && proofOfKey.Some?
  }

  /** ue_compute_proof_of_key. `nonce` is the caller's buffer and `nonceLength` the
      length argument; the command always carries the first NONCE_LENGTH bytes of
      the buffer, so the buffer must hold that many once the checks pass. */
  function ComputeProofOfKey(h: Host, c: Crypto, nonce: Option<seq<byte>>, nonceLength: nat, proofOfKey: Option<ProofOfKey>): (run: ProofRun)
    requires ProofArgumentsPresent(nonce, nonceLength, proofOfKey) ==> NONCE_LENGTH <= |nonce.value|
    // argument checks come first and decide alone: no command is built or sent
    ensures !ProofArgumentsPresent(nonce, nonceLength, proofOfKey) ==> run == ProofRun(Returned(-1), proofOfKey, [])
    ensures ProofArgumentsPresent(nonce, nonceLength, proofOfKey) ==>
              run.sent == RetrieveProof(h, nonce.value[..NONCE_LENGTH]).sent && run.proof.Some?
    // a retrieval that stops early decides the outcome and leaves the record alone:
    // -1 for a failed build, the transport's own code, or the failed assert
    ensures ProofArgumentsPresent(nonce, nonceLength, proofOfKey)
            && RetrieveProof(h, nonce.value[..NONCE_LENGTH]).Stopped? ==>
              && run.status == RetrieveProof(h, nonce.value[..NONCE_LENGTH]).status
              && run.proof == proofOfKey
    // after both exchanges, outcome and record are those of the parse of the receive buffer
    ensures ProofArgumentsPresent(nonce, nonceLength, proofOfKey)
            && RetrieveProof(h, nonce.value[..NONCE_LENGTH]).Retrieved? ==>
              var rr := RetrieveProof(h, nonce.value[..NONCE_LENGTH]);
              var parsed := ParseProofResponse(c, rr.buffer, proofOfKey.value, rr.le, h.assertsEnabled);
              run.status == parsed.status && run.proof == Some(parsed.proof)
    // the record is only written once the whole response is in
    ensures run.proof != proofOfKey ==> |run.sent| == 2 && h.transmit(run.sent).Received?
    // success: both exchanges went through, every field is valid, and the record
    // holds the four decoded fields
    ensures run.status == Returned(0) ==>
              && ProofArgumentsPresent(nonce, nonceLength, proofOfKey)
              && RetrieveProof(h, nonce.value[..NONCE_LENGTH]).Retrieved?
              && var buf := RetrieveProof(h, nonce.value[..NONCE_LENGTH]).buffer;
                 && run.proof == Some(DecodeFields(c, buf))
                 && FirstFailure(FieldChecks(c, DecodeFields(c, buf))) == 4
  {
    if !ProofArgumentsPresent(nonce, nonceLength, proofOfKey) then ProofRun(Returned(-1), proofOfKey, [])
    else
      match RetrieveProof(h, nonce.value[..NONCE_LENGTH])
      case Stopped(status, sent) => ProofRun(status, proofOfKey, sent)
      case Retrieved(buf, le, sent) =>
        var parsed := ParseProofResponse(c, buf, proofOfKey.value, le, h.assertsEnabled);
        ProofRun(parsed.status, Some(parsed.proof), sent)
  }

  /** The length argument only matters through its test against zero. */
  lemma NonceLengthIgnored(h: Host, c: Crypto, nonce: Option<seq<byte>>, n1: nat, n2: nat, proofOfKey: Option<ProofOfKey>)
    requires n1 != 0 && n2 != 0
    requires ProofArgumentsPresent(nonce, n1, proofOfKey) ==> NONCE_LENGTH <= |nonce.value|
    ensures ComputeProofOfKey(h, c, nonce, n1, proofOfKey) == ComputeProofOfKey(h, c, nonce, n2, proofOfKey)
  {
  }

  /** Two successful exchanges leave the second reply over the remains of the first. */
  lemma RetrievalOfTwoReplies(h: Host, nonce: NonceBytes, f1: Frame, f2: Frame)
    requires h.build(ProofRequest(h.codes, nonce)).Some?
    requires h.build(GetResponse(PendingLength(f1))).Some?
    requires var cmd1 := h.build(ProofRequest(h.codes, nonce)).value;
             var cmd2 := h.build(GetResponse(PendingLength(f1))).value;
             && h.transmit([cmd1]) == Received(f1)
             && h.transmit([cmd1, cmd2]) == Received(f2)
    requires !h.assertsEnabled || FirstReceive(f1)[0] == SW1_MORE_DATA
    ensures RetrieveProof(h, nonce)
         == Retrieved(Receive(FirstReceive(f1), f2), PendingLength(f1),
                      [h.build(ProofRequest(h.codes, nonce)).value, h.build(GetResponse(PendingLength(f1))).value])
  {
  }

  /** Once both exchanges go through, the outcome is the parse of the receive buffer. */
  lemma SecondReplyParsed(h: Host, c: Crypto, nonce: NonceBytes, prior: ProofOfKey)
    requires RetrieveProof(h, nonce).Retrieved?
    ensures var r := RetrieveProof(h, nonce);
      var parsed := ParseProofResponse(c, r.buffer, prior, r.le, h.assertsEnabled);
      ComputeProofOfKey(h, c, Some(nonce), NONCE_LENGTH, Some(prior)) == ProofRun(parsed.status, Some(parsed.proof), r.sent)
  {
    assert nonce[..NONCE_LENGTH] == nonce;
  }

  /** A reply that lays out the four fields, written over any receive buffer,
      decodes to exactly those fields. */
  lemma ReceivedFieldsDecode(c: Crypto, recv: seq<byte>, keyHat: PointBytes, digest: DigestBytes,
                             s: MultiplierBytes, sId: FrBytes, sw: seq<byte>)
    requires |recv| == MAX_APDU_LENGTH_T0
    requires |sw| <= MAX_APDU_LENGTH_T0 - PROOF_LENGTH
    ensures DecodeFields(c, Receive(recv, EncodeProofResponse(keyHat, digest, s, sId) + sw))
         == ProofOfKey(c.cardToG1(keyHat), c.cardFrToFr(EmbedDigest(digest)),
                       c.cardMultiplierToFr(s), c.cardFrToFr(sId))
  {
    var frame: Frame := EncodeProofResponse(keyHat, digest, s, sId) + sw;
    var buf := Receive(recv, frame);
    ProofFieldsRoundTrip(keyHat, digest, s, sId, buf[PROOF_LENGTH..]);
    assert buf == EncodeProofResponse(keyHat, digest, s, sId) + buf[PROOF_LENGTH..] by {
      assert buf[..|frame|] == frame;
      assert buf[..PROOF_LENGTH] == frame[..PROOF_LENGTH];
    }
  }

  /** A card that answers 0x61 PROOF_LENGTH and then the proof fields (with any
      status word behind them) yields exactly the decoded fields, validated in order. */
  lemma TwoExchangeRetrieval(h: Host, c: Crypto, nonce: NonceBytes, prior: ProofOfKey,
                             keyHat: PointBytes, digest: DigestBytes, s: MultiplierBytes, sId: FrBytes, sw: seq<byte>)
    requires |sw| <= MAX_APDU_LENGTH_T0 - PROOF_LENGTH
    requires h.build(ProofRequest(h.codes, nonce)).Some?
    requires h.build(GetResponse(PROOF_LENGTH as byte)).Some?
    requires var cmd1 := h.build(ProofRequest(h.codes, nonce)).value;
             var cmd2 := h.build(GetResponse(PROOF_LENGTH as byte)).value;
             && h.transmit([cmd1]) == Received([SW1_MORE_DATA, PROOF_LENGTH as byte])
             && h.transmit([cmd1, cmd2]) == Received(EncodeProofResponse(keyHat, digest, s, sId) + sw)
    ensures var run := ComputeProofOfKey(h, c, Some(nonce), NONCE_LENGTH, Some(prior));
      var d := ProofOfKey(c.cardToG1(keyHat), c.cardFrToFr(EmbedDigest(digest)),
                          c.cardMultiplierToFr(s), c.cardFrToFr(sId));
      var i := FirstFailure(FieldChecks(c, d));
      && run.sent == [h.build(ProofRequest(h.codes, nonce)).value, h.build(GetResponse(PROOF_LENGTH as byte)).value]
      && run.proof == Some(Overwritten(prior, d, if i < 4 then i + 1 else 4))
      && run.status == (if i < 4 then Returned(-(i + 2)) else Returned(0))
  {
    var frame1: Frame := [SW1_MORE_DATA, PROOF_LENGTH as byte];
    var recv1 := FirstReceive(frame1);
    assert recv1[0] == SW1_MORE_DATA && PendingLength(frame1) == PROOF_LENGTH as byte;
    var frame2: Frame := EncodeProofResponse(keyHat, digest, s, sId) + sw;
    RetrievalOfTwoReplies(h, nonce, frame1, frame2);
    SecondReplyParsed(h, c, nonce, prior);
    ReceivedFieldsDecode(c, recv1, keyHat, digest, s, sId, sw);
  }
}
