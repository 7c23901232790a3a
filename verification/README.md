# Proof of key over a MULTOS card: host protocol and verifier, in Dafny

This project models the core of the privacy scheme's "proof of key" exchange.
Three roles take part: the issuer, the user and the verifier. The user's keys sit on a MULTOS smart card.

- **User host side** (`multos/user.c`):
  - The identifier getter.
  - Provisioning of the identifier and the issuer's signature. This is one CASE3S command.
  - Retrieval of a proof of key in two exchanges. First a CASE4S command carries the nonce. The card answers `0x61 XX`, and GET RESPONSE then fetches the XX pending bytes (ISO/IEC 7816-4:2005, sections 5.1.3 and 7.6.1).
  - A fixed-offset parse of `key_hat ‖ digest ‖ s ‖ s_id`. Each field is validated in order and has its own return code.
- **Verifier** (`verifier.c`):
  - Nonce generation.
  - Verification. It derives the epoch scalar and recomputes the commitment `t' = s·G1 + (−e·k0)·key_hat + (k1·s_id)·key_hat + (−e·k2·epoch)·key_hat` with the issuer's secret key components. It then recomputes the Fiat–Shamir challenge `e' = H(key_hat ‖ t' ‖ nonce)` and compares it with `e`.

How the model represents things:

- **Bytes** are `bv8`. Buffers are sequences.
- **`memcpy` into a zeroed array** is `Bytes.Write` over `Bytes.Zeros`.
- **Fr** is the integers modulo the group order `Q`. A point of **G1** is kept in discrete-log form, as its scalar relative to a fixed generator. Point addition and scalar multiplication are then arithmetic modulo `Q`, which makes the commitment's algebra provable.
- **Uninterpreted collaborators.** These are function-valued fields of `Primitives.Crypto`: the mcl validity checks, every conversion between mcl values and card bytes, the platform point data that is hashed, and SHA-1. The prover decodes `e` with `smartcard_Fr_to_mcl_Fr`. The verifier uses `mcl_bytes_to_Fr`. They are separate fields and are never assumed to agree, except where a lemma states that as a hypothesis.
- **`apdu_build_command`** is `Host.build`. It maps a command description to an opaque command, or fails.
- **The reader and card** are `Host.transmit`. It is given the history of commands sent so far and returns a reply frame or a negative transport code.
- **C `assert`** is the outcome `AssertionFailed`. It happens only when `Host.assertsEnabled` holds; a build with `NDEBUG` passes the check silently.
- **NULL pointers** are `Option.None`. The record an output pointer designates is passed in and returned, so partial writes can be seen.
- **Return-code ladders.** Both core functions return the code of the first failing check in a fixed list. `Ladder.FirstFailure` is the reference for that pattern. The contracts of `User.ParseProofResponse` and `Verifier.VerifyProofOfKey` are stated against it, not against their nested `if`s.

What the code does that a reader may not expect:

- `ue_compute_proof_of_key` rejects only a NULL nonce, `nonce_length == 0` or a NULL proof record. It does not check the length against `NONCE_LENGTH`, and it always sends the first `NONCE_LENGTH` bytes of the buffer.
- Provisioning never checks the identifier's length and never inspects the card's status word. Any reply means success.
- GET RESPONSE follows every received first reply. The `0x61` check on that reply is only a C assert: with asserts on it aborts, with `NDEBUG` it is skipped, and it never yields a return code.
- The consumed-length check comes after all four field validations.
- The digest occupies bytes 12..31 of the scalar buffer, behind 12 zero bytes.
- Verification reads the issuer's secret `sk` components, not public key material.

## Model

| member | source | states |
|---|---|---|
| `Bytes.Write` | privacy-scheme/src/controllers/multos/user.c:202 | `memcpy` into a buffer: the copied bytes land at the offset and every other byte is unchanged |
| `Layout.EmbedDigest` | privacy-scheme/src/controllers/multos/user.c:201-203 | the 20-byte digest sits behind 12 zero bytes of a 32-byte scalar buffer |
| `Layout.EmbedDigestRoundTrip` | privacy-scheme/src/controllers/verifier.c:133-142 | the padding loses nothing, and a 32-byte buffer is the padding of its own last 20 bytes exactly when its first 12 bytes are zero |
| `Layout.EmbedEpoch` | privacy-scheme/src/controllers/verifier.c:92-95 | the epoch buffer is zero everywhere except the EPOCH_LENGTH bytes at EPOCH_OFFSET, which hold the generated epoch |
| `Layout.ProofFieldsRoundTrip` | privacy-scheme/src/controllers/multos/user.c:189-228 | the reads at offsets 0, P, P+20 and P+20+M return exactly the key_hat, digest, s and s_id a card laid out, whatever follows them |
| `Layout.ProofFieldsTile` | privacy-scheme/src/controllers/multos/user.c:189-231 | the four fields tile the first P+20+M+F bytes of the buffer with no gap or overlap |
| `Group.PointAddAssoc` | privacy-scheme/src/controllers/verifier.c:104-114 | point addition, used three times to accumulate t', is associative |
| `Group.PointMulDistributes` | privacy-scheme/src/controllers/verifier.c:103-113 | p·a + p·b = p·(a + b): adding multiples of key_hat adds their scalars |
| `Ladder.FirstFailure` | privacy-scheme/src/controllers/verifier.c:87-159 | the index of the first failing check: every earlier check holds and that one fails |
| `Apdu.GetResponse` | privacy-scheme/src/controllers/multos/user.c:171-172 | the follow-up command is CASE2S with CLA 0x00, INS 0xC0, P1 = P2 = 0, no data and Le = the announced length |
| `Apdu.Receive` | privacy-scheme/src/controllers/multos/user.c:179-180 | the assumed behaviour of the transport: a reply overwrites the start of the receive buffer, and the bytes behind it keep what the buffer held |
| `Apdu.FirstReceive` | privacy-scheme/src/controllers/multos/user.c:157-169 | after the first reply the buffer holds the reply and zeros behind it, so SW1 and SW2 are read even from a short reply |
| `User.GetUserIdentifier` | privacy-scheme/src/controllers/multos/user.c:30-46 | a NULL destination gives -1 and no record; otherwise the code is 0, the buffer is 0x10 followed by 31 zero bytes, and buffer_length is 32 |
| `User.GetUserIdentifierIgnoresReader` | privacy-scheme/src/controllers/multos/user.c:30-45 | the result depends on neither the reader nor the destination's previous contents |
| `User.ProvisioningPayloadRoundTrip` | privacy-scheme/src/controllers/multos/user.c:69-81 | the card splits the payload back into the identifier bytes, enc(user_key) and enc(user_key_prime), in that order; every payload of that length is the concatenation of its three parts |
| `User.ProvisioningCommand` | privacy-scheme/src/controllers/multos/user.c:69-84 | CASE3S with the application's CLA and INS, P1 = P2 = 0, Le = 0, and lc = 32 + 2·P equal to the payload length (no uint8 wrap) |
| `User.SetUserIdentifierIssuerSignatures` | privacy-scheme/src/controllers/multos/user.c:83-98 | a build failure gives -1 and nothing is sent; otherwise exactly one command is sent; a transport failure returns the transport's own code; any reply gives 0 |
| `User.ProvisioningIgnoresBufferLength` | privacy-scheme/src/controllers/multos/user.c:72 | the identifier's buffer_length never changes the outcome |
| `User.ProvisioningIgnoresStatusWord` | privacy-scheme/src/controllers/multos/user.c:90-98 | two cards that return different reply frames give the same result, 0 |
| `User.ProofRequest` | privacy-scheme/src/controllers/multos/user.c:144-150 | the first command is CASE4S with the application's CLA and INS, lc = NONCE_LENGTH, the nonce bytes as data, and Le = P + 20 + M + F (no uint8 wrap) |
| `User.ParseProofResponse` | privacy-scheme/src/controllers/multos/user.c:189-231 | the first invalid field decides the code (-2 key_hat, -3 e, -4 s, -5 s_id); fields up to and including it are written and later ones are left alone; with all four valid the result is 0, or an assertion failure when asserts are on and the announced length is not P+20+M+F |
| `User.RetrieveProof` | privacy-scheme/src/controllers/multos/user.c:149-185 | at most two commands, the nonce request first; a build failure stops with -1; a transport failure stops with the transport's code; the assert aborts exactly when asserts are on and the first reply's SW1 is not 0x61; past it, GET RESPONSE for the announced SW2 is sent exactly when it can be built, and -1 otherwise; the parse sees the second reply over the remains of the first |
| `User.ComputeProofOfKey` | privacy-scheme/src/controllers/multos/user.c:139-233 | a NULL nonce, nonce_length 0 or a NULL proof gives -1 with nothing built or sent and the record untouched; otherwise the commands are those of the retrieval; a retrieval that stops early (-1 for a failed build, the transport's code, or the assert) gives its status and leaves the record untouched; after both exchanges the status and record are those of the parse (-2..-5 per field, the length assert, or 0); on 0 the record holds the four decoded fields, all valid |
| `User.NonceLengthIgnored` | privacy-scheme/src/controllers/multos/user.c:139-145 | any two non-zero nonce_length values give the same run, so the command always carries NONCE_LENGTH bytes |
| `User.RetrievalOfTwoReplies` | privacy-scheme/src/controllers/multos/user.c:156-185 | with both builds and both exchanges succeeding, the retrieval sends exactly the request and GET RESPONSE, and hands on the second reply over the first |
| `User.SecondReplyParsed` | privacy-scheme/src/controllers/multos/user.c:187-233 | once both exchanges succeed, the outcome and the proof record are those of the fixed-offset parse of the receive buffer |
| `User.ReceivedFieldsDecode` | privacy-scheme/src/controllers/multos/user.c:189-228 | a reply laying out key_hat, digest, s and s_id, written over any receive buffer, decodes to exactly those four fields, with e taken from the digest behind 12 zero bytes |
| `User.TwoExchangeRetrieval` | privacy-scheme/src/controllers/multos/user.c:147-231 | a card that answers 0x61 PROOF_LENGTH and then the four fields yields exactly their decodings, with e decoded from the padded digest and the first invalid field deciding the code |
| `Verifier.GenerateNonce` | privacy-scheme/src/controllers/verifier.c:30-47 | -1 exactly for a NULL buffer or a length other than NONCE_LENGTH, leaving the buffer as it was; otherwise the first nonce_length bytes of the buffer are the random bytes and the rest is unchanged, and the code is 0 exactly when RAND_bytes returned 1, else -2 |
| `Verifier.NonceArgumentChecksDrawNothing` | privacy-scheme/src/controllers/verifier.c:34-40 | a refused argument gives the same result whatever the random source would produce |
| `Verifier.CommitmentIdentity` | privacy-scheme/src/controllers/verifier.c:97-116 | the three-step accumulation of t' equals the single combination s·G1 + (−e·k0 + k1·s_id − e·k2·epoch)·key_hat |
| `Verifier.TranscriptInjective` | privacy-scheme/src/controllers/verifier.c:128-133 | with fixed-size point data the hash input determines key_hat's data, t''s data and the nonce |
| `Verifier.VerifyProofOfKey` | privacy-scheme/src/controllers/verifier.c:59-160 | the result is the code of the first failing check, in the order non-empty nonce (-1), valid t' (-2), valid e' (-3), e' = e (-4), and 0 when none fails; the checks are stated over the single linear combination |
| `Verifier.VerifyAcceptsIff` | privacy-scheme/src/controllers/verifier.c:116-159 | the verifier accepts exactly when the nonce is present and non-empty, t' is valid, and e' is valid and equal to the proof's e |
| `Verifier.NonceCheckFirst` | privacy-scheme/src/controllers/verifier.c:87-95 | a NULL or empty nonce gives -1 whatever the epoch, parameters, keys, proof and primitives are |
| `Verifier.HonestProofAccepted` | privacy-scheme/src/controllers/verifier.c:97-159 | if G1·x = key_hat·(k0 + k1·id + k2·epoch), s = ρx + e·x and s_id = ρid − e·id, then t' = G1·ρx + key_hat·(k1·ρid); a proof whose e is the challenge over that t' is accepted when t' and e are valid |
| `Protocol.DigestEmbeddingAgrees` | privacy-scheme/src/controllers/verifier.c:133-142 | when the card's digest is SHA-1 of the verifier's transcript, the host and the verifier decode from the same buffer (12 zero bytes, then the digest); e = e' wherever the two conversions agree on it |
| `Protocol.HonestCardAccepted` | privacy-scheme/src/controllers/verifier.c:97-159 | a card that answers honestly gives the host code 0, and the verifier accepts the proof the host decoded |

## Left out

- Transport and I/O: `sc_transmit_data`, `sc_get_error` messages, elapsed-time measurement, `printf`/`fprintf` and the debug displays under `NDEBUG`. The card and reader are the `Host.transmit` oracle.
- `apdu_build_command` encodings: the function is not part of this model, so the command cases are not encoded to bytes.
- mcl curve and field internals (mul, add, neg, normalize, isValid, and the byte↔mcl conversions). Fr and G1 are arithmetic modulo `Q` in discrete-log form. `mclBnG1_normalize` is the identity because it does not change the group element. Validity and the conversions are uninterpreted.
- SHA-1, `RAND_bytes`, `generate_epoch` and `digest_get_platform_point_data` are not part of this model. They are uninterpreted, or their output is a parameter.
- Width values: `sizeof(elliptic_curve_point_t)`, `sizeof(elliptic_curve_multiplier_t)`, `NONCE_LENGTH`, `EPOCH_LENGTH`, `EPOCH_OFFSET` and `MAX_APDU_LENGTH_T0` are defined in headers that are not part of this model. The constants use 65, 32, 32, 4, 28 and 258. The proofs rely only on these facts:
  - 32 + 2·P, NONCE_LENGTH and P+20+M+F fit in a byte;
  - the epoch fits in EC_SIZE bytes;
  - the response fits the receive buffer.
- `Group.Q` is the BN254 group order that mcl's bn_c256 uses by default. The curve is chosen at mcl initialisation, outside this model. Nothing proved depends on the value.
- The application's CLA and INS byte values are defined outside this model. They are the `AppCodes` record.
- `ue_compute_proof_of_key` takes `sys_parameters`, `ie_signature` and `ue_identifier` but never reads them. The model drops them. `reader_t` is the `Host`.
- System parameters other than G1, and the public parts of the issuer keys, are never read by the core. They are left out.
- `User.ComputeProofOfKey`: requires the nonce buffer to hold NONCE_LENGTH bytes once the argument checks pass (nonce and proof record present, nonce_length non-zero); an input the checks refuse may have a buffer of any length. The C would read past a shorter buffer, which a sequence cannot express.
- `User.RetrieveProof`: `dwRecvLength` is never consulted, as in the C. A reply longer than the receive buffer is outside the `Frame` type.
- `Verifier.GenerateNonce`: requires a buffer that passes the checks to hold nonce_length bytes, since RAND_bytes would write past a shorter one. What RAND_bytes leaves in those bytes on failure is taken from the oracle's outcome. The model does not say more.
- No mutation of the verifier's inputs: `VerifyProofOfKey` is a pure function of its arguments and the epoch bytes, so this holds by construction and has no member of its own.
- Unforgeability, zero knowledge, and "flipping any byte is rejected" need properties of SHA-1 and the curve that uninterpreted functions do not have. They are not stated. The card firmware that computes the proof is also out.
- Epoch agreement between the card and the verifier is a protocol assumption. The verifier derives its epoch independently.
- `controllers/user.h` holds only prototypes and the `reader_t` typedef. Its "0 if success else -1" comments understate the codes the implementation returns; the model follows the implementation.
