# Cypherock MPC-TSS threshold ECDSA, modelled in Dafny

This project models the arithmetic core of Cypherock's MPC-TSS prototype, a
threshold-ECDSA wallet. In it, N = 5 parties with threshold t = 2:

- share keys with a Shamir-style distributed key generation (DKG);
- derive BIP32-style change-level keys and check them;
- multiply secret shares with a correlated oblivious transfer (OT) built
  from 256 one-out-of-two transfers;
- combine their shares into an ECDSA signature (r, s).

The model also covers two smaller components of the repository. One is the
earlier single-process Feldman verifiable-secret-sharing prototype in
`dkg-c`. The other is the finite-field OT demonstration `ot_poc`, together
with its byte XOR pad. Beside them sits the in-memory key/value registry of
the Python relay server.

Elliptic-curve points are modelled as the additive group Z_n of the
secp256k1 order n: the point P = s·G is represented by s mod n
(`Curve.Point`). Point addition, scalar multiplication and negation then
reduce to arithmetic modulo n, and the group laws are lemmas of the `Curve`
module. The hash functions, the x coordinate of a point, BIP32 derivation,
the modular inverse and every random draw are parameters of the operations
that use them.

The system is one process per party. The model takes one party's view:
- the sockets become sequences of what each round delivers;
- a serving round becomes a sequence of `Leg`s, each with whether the
  `accept` and the id read succeeded, the id read, and the status of the
  steps after the id check; `SendOnly` limits that status to success or
  NET_SEND_FAIL where those steps are a single `send` (`broadcast_shares`,
  `dkg_private_share`), and the OT round derives it from its send, read and
  send;
- a fetching round becomes a `Fetch`, with the outcome of the dial and the
  value read.

The imperative C routines are Dafny methods over arrays and loops. Each
method is proved against a specification function. The properties the
protocol relies on are lemmas about those functions:
- interpolation recovers the polynomial;
- interpolation in the exponent commutes with ·G;
- an honest DKG produces the sum of the constant terms times G;
- an honest correlated OT gives shares V − U ≡ x·y (mod n);
- an honest Feldman share verifies.

Module layout:
- Building blocks: `ModArith`, `Poly`, `Roots`, `Lagrange`, `Curve`,
  `Config`.
- `src/mpc_helpers.c` → `MpcHelpers`.
- The polynomial and party records → `MpcTypes`.
- `src/network.c` → `Transport` (connect retry, serving round), `Network`
  (broadcast, DKG), `CorrelatedOt`, `NetworkOt` (`ot`).
- `src/mpc.c` → `Mpc` (polynomials, OT precomputation, DKG extension),
  `Signing` (`mpc_signature_phase`).
- `dkg-c/src/mpc.c` → `Feldman`.
- `src/ot.c` → `OtDemo`.
- `server.py` → `Registry`.

Behaviours of the code that the model keeps:
- `init_polynomial` stores `fx[0] = coeff[0] mod n`.
- Interpolation always uses the nodes 1..t+1.
- `init_polynomial` does not check the degree against the member count.
- The last consistency check of the signature phase is the authenticator
  check w·G = W.
- `receiver` retries only a refused connect. Any other connect error
  returns INVALID_CONNECTION at once, without using the retry budget.

## Model

| member | source | states |
|---|---|---|
| Config.Code | src/mpc.h:39-52 | every `MPC_STATUS` has its numeric value, at most 11, and only success is 0 |
| Config.CodeRoundTrip | src/mpc.h:39-52 | the value encoding and decoding of statuses are mutually inverse |
| MpcHelpers.AcceptedMeaning | src/mpc_helpers.c:15-25 | the rejection loop keeps exactly the draws below the bound, and nothing else |
| MpcHelpers.AcceptedAppend | src/mpc_helpers.c:15-25 | the draws kept from two runs of draws are the kept draws of each, in order |
| MpcHelpers.GenPolynomialCoeff | src/mpc_helpers.c:9-26 | the first coeff_count slots receive the first coeff_count draws below the order, in order; out-of-range draws are redrawn, never reduced; later slots are untouched |
| MpcHelpers.EvaluatePolynomial | src/mpc_helpers.c:28-61 | with the argument read as the degree d, the result is Σ_{i=0..d} coeff[i]·x^i mod n |
| MpcHelpers.EvaluationStep | src/mpc_helpers.c:39-56 | one loop iteration keeps the running sum equal to the partial power sum mod n and the running power equal to x^(i+1) mod n |
| MpcHelpers.EvaluateAtZero | src/mpc_helpers.c:36-55 | evaluating at x = 0 gives coeff[0] mod n |
| Poly.PowerSumIsHorner | src/mpc_helpers.c:39-56 | the loop's power sum Σ c_i·x^i equals the Horner value of the coefficients |
| MpcHelpers.Lambda32 | src/mpc_helpers.c:113 | `bn_read_uint32(\|λ\|)` with the sign restored keeps λ whenever \|λ\| < 2^32, and is always below 2^32 in magnitude |
| MpcHelpers.LagrangeLambda | src/mpc_helpers.c:99-110 | the num/den loop followed by `num /= den` yields the integer λ of node x_cord at the evaluation point |
| Lagrange.LambdaExact | src/mpc_helpers.c:109-110 | for every node 1..t+1 and every evaluation point, `num % den == 0` holds and the division is exact |
| Lagrange.DenNonzero | src/mpc_helpers.c:101-110 | the denominator the loop accumulates is never zero |
| Lagrange.LambdaAtOwnNode | src/mpc_helpers.c:101-110 | λ is 1 when the evaluation point is the node itself |
| Lagrange.LambdaAtOtherNode | src/mpc_helpers.c:101-110 | λ is 0 when the evaluation point is another node of 1..t+1 |
| Lagrange.LambdaBound | src/mpc_helpers.c:99-110 | \|λ\| ≤ (ip + t + 1)^(t+1) for a non-negative evaluation point |
| Lagrange.Interpolation | src/mpc_helpers.c:121-137 | Σ_i λ_i(x)·f(i) over the nodes 1..t+1 equals f(x) for any polynomial with at most t+1 coefficients and any integer x, over the integers |
| MpcHelpers.EvaluateLagrangeTerm | src/mpc_helpers.c:92-119 | the result is below n and ≡ λ·point (mod n); a negative λ goes through 0 − \|λ\|·point |
| MpcHelpers.TermCases | src/mpc_helpers.c:112-118 | both sign branches of the term give λ·point mod n |
| MpcHelpers.EvaluateExpLagrangeTerm | src/mpc_helpers.c:63-90 | the result is λ·P, with λ reduced into the order first |
| MpcHelpers.LagrangeInterpolate | src/mpc_helpers.c:123-137 | the result is the sum of the t+1 Lagrange terms mod n |
| MpcHelpers.LagrangeExpInterpolate | src/mpc_helpers.c:139-153 | starting at infinity and adding λ_i·P_i gives (the scalar interpolation of the discrete logarithms)·G |
| MpcHelpers.NodeCords | src/network.c:224-227 | the x coordinates the callers pass are 1..t+1 |
| MpcHelpers.StandardNodesExact | src/mpc_helpers.c:109 | with the nodes 1..t+1, the assertion before each division holds |
| MpcHelpers.TermSumIsWeightedSum | src/mpc_helpers.c:123-137 | the sum of terms over shares congruent to f(1..t+1) is congruent to the Lagrange weighted sum of f |
| MpcHelpers.InterpolationRecovers | src/mpc_helpers.c:123-137 | interpolating the shares f(1), …, f(t+1) of a polynomial with at most t+1 coefficients gives f(ip) mod n |
| MpcHelpers.TermSumCongruent | src/mpc_helpers.c:123-137 | interpolating congruent share vectors gives congruent results |
| MpcHelpers.ExpInterpolationCommutes | src/mpc_helpers.c:139-153 | for points y_i·G, exponent interpolation equals (the scalar interpolation of the y_i)·G |
| MpcHelpers.ExpInterpolationRecovers | src/mpc_helpers.c:139-153 | interpolating the public shares f(i)·G at ip gives f(ip)·G |
| MpcHelpers.ConfigLambdasFit | src/config.h:13 | with the configured t = 2, every λ at a party index up to 255 fits the 32-bit transfer |
| MpcTypes.Polynomial.constructor | src/mpc.h:10-16 | a polynomial with THRESHOLD + 1 coefficient slots and N_PARTIES + 1 evaluation slots, in two distinct fresh arrays, its evaluations reduced |
| MpcTypes.Party.constructor | src/mpc.h:18-37 | a zeroed party (id, name, port and key) with OT_TERM_SIZE slots for its a, b and A values, a and b distinct |
| Mpc.Chosen | src/mpc.c:46-54 | init_polynomial installs exactly coeff_count coefficients |
| Mpc.InstallCoefficients | src/mpc.c:42-54 | the coefficients are the caller's, copied verbatim, or else the gen_polynomial_coeff draws; a0 then overwrites coefficient 0; the slots past coeff_count stay as they were |
| Mpc.InitPolynomial | src/mpc.c:29-68 | records the two counts and installs Chosen; fx[i] is the polynomial of degree coeff_count − 1 at i mod n for every i in 0..members, so fx[0] = coeff[0] mod n (= a0 mod n when a0 is given); later fx slots are untouched |
| Mpc.ZeroConstantTerm | src/mpc.c:240-241 | the D and E polynomials, built with a0 = 0, evaluate to 0 at 0, and their other coefficients are the random draws |
| Mpc.MpcInitParty | src/mpc.c:70-85 | a null party or name gives WRONG_PARAM and changes nothing; otherwise the id is truncated to 8 bits and stored, then the name, then port PORTS[id − 1] looked up with the stored id |
| Mpc.OtScalarsA | src/mpc.c:209-214 | the 256 a[i] are the even-numbered random draws |
| Mpc.OtScalarsB | src/mpc.c:219-221 | the 256 b[i] are the odd-numbered random draws |
| Mpc.OtInit | src/mpc.c:206-223 | a[i] and b[i] receive the i-th draws in order, and A[i] = a[i]·G |
| Mpc.Slots | src/network.c:97-192 | a broadcast over n slots leaves n slot values |
| Mpc.BroadcastAll | src/network.c:91-195 | a broadcast over all n slots returns the status of the first failing round; on success every slot holds what its owner sent, and the own slot holds the own value |
| Mpc.ShareLevels | src/mpc.c:91-146 | both polynomials are built from the derived keys before the two DKGs; the status is that of the account-level DKG, then of the change-level DKG, encoded as the comparison value; on success Q is the change-level group key |
| Mpc.VerifyDerived | src/mpc.c:152-196 | the status is that of the key broadcast, then of the chain-code broadcast, then CHECK_FAIL exactly when Σ of the publicly derived change keys ≠ Q |
| Mpc.DkgExtension | src/mpc.c:87-204 | the returned status is ExtensionStatus; the private key becomes the change-level child of the own account node on success, and stays unchanged otherwise; id, name and port are unchanged |
| Mpc.ExtensionHidesDkgStatus | src/mpc.c:136-146 | because `status = dkg(...) != MPC_OP_SUCCESS` stores the comparison, a failing DKG at either level returns 1 (`MPC_OP_NET_INVALID_CONNECTION`), whatever dkg returned |
| Mpc.DerivedSumHonest | src/mpc.c:182-190 | when every derived key is a constant term times G, their sum is the sum of the constant terms times G |
| Mpc.HonestWireDkg | src/network.c:312-338 | an honest DKG run with N = 5 and t = 2 succeeds, and its key is Σ constant terms·G |
| Mpc.ExtensionHonest | src/mpc.c:87-204 | with honest peers, and derived keys that match the change-level constant terms, the extension succeeds and its check passes |
| Transport.RetryMeaning | src/network.c:69-86 | from `tries` refusals on, the loop times out exactly when every remaining attempt is refused, and succeeds exactly when a connect follows refusals only; otherwise it fails with INVALID_CONNECTION |
| Transport.DialStatusMeaning | src/network.c:54-89 | `receiver` times out exactly when all TIMEOUT_TRIES connects are refused, and succeeds exactly when a connect succeeds after refusals only; a socket or address failure, or any other connect error, fails at once |
| Network.Receiver | src/network.c:54-89 | the retry loop returns DialStatus: SOCKET_FAIL, INVALID_CONNECTION, CONNECTION_TIMEOUT or success as above |
| Transport.ServedCount | src/network.c:104-124 | the number of peers completely served is at most the number of connections |
| Transport.ServeStep | src/network.c:104-124 | a peer whose accept, id read or `connected[]` check fails ends the round with that status; a peer that succeeds advances the round with its id marked |
| Transport.ServeSuccess | src/network.c:99-124 | a successful serving round served every leg; the ids are distinct and none was already marked, the own id included |
| Transport.Pigeonhole | src/network.c:99-124 | n − 1 distinct ids from 1..n, none equal to the own id, are exactly the other ids |
| Transport.ServeCovers | src/network.c:99-124 | a successful serving round of n − 1 legs served every other party exactly once |
| Transport.ServeStatusRange | src/network.c:99-150 | when each peer's only step after the id check is a send, the serving round ends in success, a failed accept, the read-failure status, INVALID_CONNECTION for an id already marked, or SEND_FAIL, and nothing else |
| Transport.FetchStatusRange | src/network.c:54-191 | a fetching round ends in success, SOCKET_FAIL, INVALID_CONNECTION, CONNECTION_TIMEOUT, SEND_FAIL or READ_FAIL, and nothing else |
| Transport.FirstFail | src/network.c:97-192 | the index of the first failing round: every earlier round succeeded and that round failed |
| Transport.Outcome | src/network.c:97-194 | a sequence of rounds succeeds exactly when every round succeeds |
| Network.FirstFailIs | src/network.c:97-192 | FirstFail names the round that stops the sequence |
| Network.FetchRound | src/network.c:154-190 | the client side of a round returns the dial's status, then SEND_FAIL, then READ_FAIL |
| Network.ServeRound | src/network.c:98-152 | the status is ServeStatus with the own id pre-marked; the served ids are the legs completed; on success they cover every other party exactly once; with send-only legs the status is one of those `ServeStatusRange` allows |
| Network.Rounds | src/network.c:97-192 | a broadcast of n shares has one status per round |
| Network.RoundsRange | src/network.c:91-195 | with send-only serving, a sequence of rounds ends in a status of a serving round or of a fetching round, and nothing else |
| Network.BroadcastShares | src/network.c:91-195 | returns the first failing round's status; slot i − 1 is overwritten by party i's value only for rounds before the failure and i ≠ party_id; a party with id > n_shares sends nothing; every peer is sent the own slot; on success all other parties were served once; the status is one a serving or fetching round can give |
| Network.Evaluations | src/network.c:278 | each served peer id is sent fx[id] |
| Network.DkgPrivateShare | src/network.c:244-310 | the status is that of the first failing round, with an unreadable peer id giving INVALID_DATA; on success S_i = fx[party_id] + Σ the peers' values mod n; every peer id is sent exactly fx[id]; the serving round covers every other party; the status is one a serving or fetching round can give |
| Network.PrivateShareHonest | src/network.c:250-303 | when every peer sends its own polynomial at party_id, S_i is the sum polynomial at party_id mod n |
| Network.SumOthersHonest | src/network.c:252-307 | the values read in the rounds before k, plus the own evaluation, add up to the partial sum polynomial at party_id |
| Network.SumPolyEval | src/network.c:252-307 | the sum polynomial evaluates to the sum of the evaluations, with at most t+1 coefficients |
| Network.Received | src/network.c:207-222 | the broadcast shares array has t+1 entries: the own Q_i in its slot, the values read elsewhere |
| Network.DkgVerifyAndCalculate | src/network.c:197-242 | returns the broadcast's status, else CHECK_FAIL exactly when the interpolation at party_id ≠ Q_i; Q is written (interpolated at 0) only on success and when requested |
| Network.VerifyHonest | src/network.c:224-239 | with public shares F(k)·G from a polynomial of at most t+1 coefficients, verification passes and Q = F(0)·G |
| Network.Dkg | src/network.c:312-338 | Q_i = S_i·point (G when no point is given); a failing step's status is returned unchanged; Q is the verification's key |
| Network.DkgHonest | src/network.c:312-338 | when every party shares a polynomial of at most t+1 coefficients honestly and every round goes through, dkg succeeds and Q = Σ constant terms·G |
| CorrelatedOt.BitHorner | src/network.c:388-395 | the accumulator Uij = 2·Uij + U_i mod n over bits 255..0 stays below n |
| CorrelatedOt.SenderMessages | src/network.c:397-436 | one message pair per bit |
| CorrelatedOt.Choices | src/network.c:471-479 | one choice B_i per bit |
| CorrelatedOt.Decoded | src/network.c:491-508 | one unmasked value V_i per bit |
| CorrelatedOt.OtBit | src/network.c:397-508 | when A = a·G, the receiver unmasks U_i for a clear bit and U_i + x mod n for a set bit, whatever the hash |
| CorrelatedOt.PublicKeys | src/mpc.c:217 | A_i = a_i·G for every i |
| CorrelatedOt.Correlated | src/network.c:432-508 | the value the receiver should get for each bit: U_k + x mod n where bit k of y is set, U_k where it is clear |
| CorrelatedOt.DecodedHonest | src/network.c:388-512 | every bit of an honest transfer decodes to its correlated value |
| CorrelatedOt.BitsShr | src/network.c:472-495 | reading bits w−1..i of y gives y >> i minus its part above bit w, and stays below 2^(w−i) |
| CorrelatedOt.BitsAreLowPart | src/network.c:472-495 | the bits `bn_testbit` reads below w are y mod 2^w |
| CorrelatedOt.HornerDiffStep | src/network.c:388-511 | one Horner step of both accumulators keeps V − U ≡ x·(bits read so far) |
| CorrelatedOt.HornerDiff | src/network.c:388-511 | the receiver's accumulator minus the sender's is x times the chosen bits, mod n |
| CorrelatedOt.DiffIsProduct | src/network.c:388-511 | over all bits, V − U ≡ x·(y mod 2^\|u\|) (mod n) |
| CorrelatedOt.OtCorrect | src/network.c:388-514 | when the sender's A_i are a_i·G, the receiver's V and the sender's U differ by x·(y mod 2^256) mod n |
| CorrelatedOt.OtCorrectScalar | src/network.c:388-514 | with 256 bits and a reduced y, V − U ≡ x·y (mod n) |
| NetworkOt.AsLegs | src/network.c:361-376 | the OT serving round has one status leg per peer |
| NetworkOt.SenderRun | src/network.c:388-437 | over bits 255..0 the messages are H(a·B) ⊕ U_i and H(a·(B − A)) ⊕ (U_i + x mod n), and Uij is the Horner accumulation of the U_i |
| NetworkOt.MaskPair | src/network.c:397-436 | the two masked messages of one bit |
| NetworkOt.ReceiverChoose | src/network.c:471-479 | B_i = b_i·G, plus A_i exactly when bit i of y is set |
| NetworkOt.ReceiverDecode | src/network.c:491-512 | V_i = H(b·A) ⊕ m[i][bit], and Vij is their Horner accumulation in the same bit order |
| NetworkOt.TransferTo | src/network.c:378-442 | returns the status of sending A, reading B and sending m; on success m and Uij are those of SenderRun |
| NetworkOt.Transfers | src/network.c:353-448 | one message set per peer |
| NetworkOt.OtServeRound | src/network.c:349-448 | returns ServeStatus with the `connected[]` check; the messages sent are those of the completed transfers; on success U = u0 + Σ −Uij mod n |
| NetworkOt.ServeSumStep | src/network.c:444-445 | subtracting a transfer's Uij extends U by one term of Σ −Uij |
| NetworkOt.TransfersStep | src/network.c:439-442 | a completed transfer extends the sent messages by one |
| NetworkOt.ServeAdvance | src/network.c:366-376 | a peer served completely advances the round's status and count by one leg |
| NetworkOt.ServePeer | src/network.c:361-445 | reads and checks one peer's id against `connected[]` and marks it; on success the messages and Uij are SenderRun's |
| NetworkOt.OtFetchRound | src/network.c:450-516 | returns the first failing step's status; the choices sent are Choices(b, A, y); on success Vij is the Horner accumulation of the decoded values |
| NetworkOt.OtRounds | src/network.c:348-518 | `ot` has one round per party |
| NetworkOt.OtTurn | src/network.c:348-517 | round i is served when i = id and fetched otherwise; on success it adds Σ −Uij or Vij to U mod n |
| NetworkOt.RoundStep | src/network.c:348-517 | adding round i's contribution extends the running sum mod n |
| NetworkOt.Ot | src/network.c:340-520 | returns the first failing round's status; on success U is Σ of the rounds' contributions mod n |
| Signing.SumSlots | src/mpc.c:300-301 | adding the slots mod n from zero gives their total mod n |
| Signing.SignerExact | src/mpc.c:327-328 | every signer's λ at 0 divides exactly |
| Signing.SignPolynomial | src/mpc.c:238-241 | a fresh polynomial of t + 1 coefficients whose evaluations at 0..t+1 are those of Chosen |
| Signing.Presig | src/mpc.c:244-260 | the status is that of the DKG of K, then of the DKG of A over R; on success R = NonceR and W = AuthW |
| Signing.Authenticate | src/mpc.c:265-316 | the own share is the OT output plus a0_K·a0_A, and w = Σ shares mod n; the status is CHECK_FAIL exactly when w·G ≠ W, after the OT and the broadcast succeed; on success the result is w⁻¹ |
| Signing.Multiply | src/mpc.c:318-345 | k_share = w⁻¹·a0_A; v_i = (OT output + λ·x·k_share)·R.x mod n; the OT's status is returned |
| Signing.SignShare | src/mpc.c:347-384 | s_i = h·(w⁻¹·A_i) + h·D_i + E_i from the three private shares; the first failing exchange's status is returned; on success the result is λ·s_i |
| Signing.Combine | src/mpc.c:386-407 | the status is the broadcast's; s = Σ over the slots of v_i + λ·s_i, mod n |
| Signing.FinalShareOfParts | src/mpc.c:390 | the broadcast value is v_i + λ·s_i mod n |
| Signing.SignTail | src/mpc.c:318-407 | the steps after the authenticator check return their first failure, else s |
| Signing.SignaturePhase | src/mpc.c:225-419 | with n = t + 1 parties, every non-success status of a DKG, OT, broadcast or private share is returned at once; otherwise the signature is (R.x, s) |
| Feldman.FCode | dkg-c/src/mpc.h:77-83 | the prototype's status values; VALID_COMMITS is 4 and INVALID_COMMITS is 5 |
| Feldman.FeldmanParty.constructor | dkg-c/src/mpc.h:24-47 | a party with its id and key, and no polynomial or commitments yet |
| Feldman.Coefficients | dkg-c/src/mpc.c:119-134 | the coefficient list is the private key followed by the t random coefficients |
| Feldman.Commitments | dkg-c/src/mpc.c:118-144 | C_i = c_i·G for every coefficient |
| Feldman.GenPolynomial | dkg-c/src/mpc.c:73-101 | a null configuration or party gives WRONG_PARAM and changes nothing; otherwise the result is success, with t coefficients, the first t draws below the order |
| Feldman.CalculateCommitments | dkg-c/src/mpc.c:103-147 | a null configuration or party gives WRONG_PARAM; otherwise C_0 = secret·G and C_i = poly[i−1]·G for i in 1..t |
| Feldman.EvaluatePoly | dkg-c/src/mpc.c:149-197 | a null configuration, party or share, or index 0, gives WRONG_PARAM and writes nothing; otherwise the share is secret + Σ poly[i]·index^(i+1) mod n, or the key itself when t = 0 |
| Feldman.ShareIsEvaluation | dkg-c/src/mpc.c:158-190 | the share is the polynomial at the index mod n, and fully reduced once t > 0 |
| Feldman.PowerIsPow | dkg-c/src/mpc.c:199-217 | recursive halving computes x^y mod m; power(x, 0) = 1 |
| Feldman.CombineCommitments | dkg-c/src/mpc.c:236-247 | the accumulation loop yields Σ_{i≤t} power(id, i)·C_i |
| Feldman.VerifyCommitments | dkg-c/src/mpc.c:219-258 | as written: a null input gives WRONG_PARAM; otherwise the result is VALID_COMMITS exactly when Σ power(id, i)·C_i = share·G with `power` reducing mod the field prime, and INVALID_COMMITS otherwise; it never returns success |
| Feldman.VerifyCommitmentsModOrder | dkg-c/src/mpc.c:219-258 | the same verification with `power` reducing mod the group order |
| Feldman.CommitSumHonest | dkg-c/src/mpc.c:236-247 | combining honest commitments is (the weighted coefficient sum)·G |
| Feldman.WeightedSumModOrder | dkg-c/src/mpc.c:236-239 | with exponents mod n, the weighted sum is the power sum mod n |
| Feldman.HonestShareVerifies | dkg-c/src/mpc.c:219-258 | with `power` mod n, every honest share verifies against honest commitments, for any key, coefficients and id |
| Feldman.HonestShareVerifiesBelowPrime | dkg-c/src/mpc.c:199-258 | while id^t stays below the field prime, the prime reduction changes nothing and honest shares verify |
| Feldman.DriverShareVerifies | dkg-c/src/main.c:50-61 | the driver's run with t = 2, the share of party 1 for index 2 checked by party 2, yields VALID_COMMITS |
| Feldman.TopOnly | dkg-c/src/mpc.h:49-52 | a polynomial for an 8-bit threshold of 33: 33 coefficients, all zero but the last |
| Feldman.PrimeReductionRejectsHonestShare | dkg-c/src/mpc.c:199-217 | party 255 rejects the honest share of a t = 33 polynomial under the prime-reducing `power`, yet accepts it under reduction mod n |
| Feldman.ScanSumBigEndian | dkg-c/src/mpc.c:294-302 | scanning all 256 bits, least significant first, reads the big-endian scalar |
| Feldman.BitPosition | dkg-c/src/mpc.c:295-297 | i = 255..0 reads bit 255 − i: byte i/8, bit 7 − i mod 8 |
| Feldman.PrivateToPublicKey | dkg-c/src/mpc.c:287-307 | right-to-left double-and-add yields k·G for the big-endian scalar k |
| OtDemo.XorBytes | src/ot.c:9-12 | the XOR of two equal-length strings has their length |
| OtDemo.Xorr | src/ot.c:9-12 | r[i] = m[i] ⊕ k[i] for i < sz, and nothing else is written |
| OtDemo.XorRoundTrip | src/ot.c:101-106 | decrypting with the same key gives the message back |
| OtDemo.XorWrongKey | src/ot.c:101-106 | decrypting with a different key changes the message |
| OtDemo.PowPow | src/ot.c:79-86 | (g^a)^b = (g^b)^a = g^(ab) mod p, the Diffie-Hellman agreement |
| OtDemo.CancelInverse | src/ot.c:93-94 | multiplying A·B by an inverse of A gives B back |
| OtDemo.OtKeys | src/ot.c:67-98 | B = g^b, times A only when c == 1; kr_arg = g^(ab); with c ≠ 1 the k0 argument equals kr's, and with c == 1 the k1 argument (B·A⁻¹)^a equals it |
| OtDemo.EncryptDecrypt | src/ot.c:100-106 | d = (m ⊕ k) ⊕ kr, which is m when k = kr |
| OtDemo.Transfer | src/ot.c:100-106 | both decryptions, each equal to its message when its key equals kr |
| OtDemo.OtPoc | src/ot.c:32-121 | with c ≠ 1, d0 = m0 and the verdict is m0; with c == 1, d1 = m1; the "unknown message" branch is unreachable |
| Registry.WithEntry | server.py:83 | a store write changes `store[pubKey]` in one store of one group and nothing else |
| Registry.Server.constructor | server.py:8-10 | the three dictionaries start empty |
| Registry.Server.StoreEntityInfo | server.py:18-25 | stores entityInfo under the client's fingerprint, overwriting, without checking it; answers {} with 200 |
| Registry.Server.GetEntityInfo | server.py:27-30 | returns the stored value, or '' for an unknown fingerprint, with 200 |
| Registry.Server.StoreGroupInfo | server.py:32-55 | appends groupID to pub_to_gid[pubKey], creating the list; a new group gets its info, one signature and three empty stores; an existing one gets only signatures[pubKey] |
| Registry.Server.GetGroupInfo | server.py:57-67 | 404 for an unknown group; 200 only when the group is known and has a signature for pubKey; a missing signature raises |
| Registry.Server.GetGroupID | server.py:71-74 | the key's list of group ids, or [] for an unknown key, with 200 |
| Registry.Server.StoreEntry | server.py:76-87 | the shared POST body: 404 and no change for an unknown group, otherwise `store[pubKey] = value` |
| Registry.Server.GetEntry | server.py:89-100 | the shared GET body: 200 exactly when the group is known and the key present |
| Registry.Server.StoreShareData | server.py:76-87 | POST /shareData through StoreEntry |
| Registry.Server.GetShareData | server.py:89-100 | GET /shareData through GetEntry |
| Registry.Server.StoreIndividualPublicKey | server.py:102-113 | POST /individualPublicKey through StoreEntry |
| Registry.Server.GetIndividualPublicKey | server.py:115-126 | GET /individualPublicKey through GetEntry |
| Registry.Server.StoreGroupKeyInfo | server.py:128-139 | POST /groupKeyInfo through StoreEntry |
| Registry.Server.GetGroupKeyInfo | server.py:141-152 | GET /groupKeyInfo through GetEntry |
| Registry.EntityInfoRoundTrip | server.py:18-30 | a stored entity info is read back, and other fingerprints are unaffected |
| Registry.GroupIdsAppend | server.py:39-42 | joining appends the id, duplicates included; other keys' lists stay |
| Registry.GroupInfoRoundTrip | server.py:44-64 | the first store fixes the group info, later stores only set signatures; the stored signature is returned with the info |
| Registry.GroupInfoMissingSignature | server.py:62-64 | a key without a signature in a known group makes getGroupInfo raise |
| Registry.EntryRoundTrip | server.py:76-152 | for a known group, a stored entry comes back with 200; for an unknown group the POST answers 404 and changes nothing, and the GET answers 404 |
| Registry.EntryFrame | server.py:76-152 | a store POST leaves the other stores, keys, groups and dictionaries as they were |

## Left out

- Sockets, as the connection plumbing of `open_socket`, `sender`, `accept`, `connect`, `sleep` and byte counts: each round's outcome is an input (`Leg`, `Fetch`, `Dial`), and the processes run neither concurrently nor in lock step.
- Elliptic-curve arithmetic and bignum limbs: points are their discrete logarithms mod n, so `point_add`, `point_multiply`, `bn_addmod`, `bn_subtractmod`, `bn_multiply` and `bn_mod` (as in `evaluate_lagarange_term`, src/mpc_helpers.c:112-118) are exact arithmetic mod n. The partial reduction of `bn_lshift`, `bn_addmod`, `bn_subtractmod` and `bn_multiply` is not modelled.
- SHA-256, SHA-256d, `bn_inverse`, the affine x coordinate, and the 0x04‖x‖y and 33-byte encodings: these are uninterpreted function parameters.
- BIP32/BIP39 derivation (`gen_hdnode`, `hdnode_private_ckd`, `hdnode_public_ckd`, `hdnode_from_xpub`): the derived private keys and the public derivation are inputs.
- Randomness (`rand_bytes`, `crypto_random_generate`, `random256bits`): modelled as sequences of draws the caller supplies; the entropy draw of `mpc_init_party` is dropped.
- Printing, VERBOSE dumps, `print_hex_array`, `printout_struct` (gdb), `raise_error` and both `main` programs, except the driver sequence of `dkg-c/src/main.c` cited above.
- `mpc_init_group` and `mpc_group_generate_shared_keypair` of `dkg-c/src/mpc.c`: group set-up, and summing and printing the group key, which only chain the operations modelled.
- The `memzero` calls of `init_polynomial`: every slot they clear is written before it is read.
- Feldman.EvaluatePoly: the share buffer is one array cell holding the number, not its 32-byte big-endian encoding.
- MpcHelpers.LagrangeLambda: int64 overflow of num and den is not modelled; the 32-bit truncation applied afterwards is modelled, by Lambda32.
- Network.ServeRound, Network.BroadcastShares, Network.DkgPrivateShare, Network.DkgVerifyAndCalculate, Network.Dkg, NetworkOt.OtServeRound, NetworkOt.OtTurn, NetworkOt.Ot, and Mpc and Signing through `ExchangeFits`, `WireFits` and `OtFits`: peer ids are never range-checked in the source (`connected[id - 1]` is indexed directly); the model requires 1 ≤ id ≤ n on every leg (`IdsInRange`).
- OtDemo.OtKeys, OtDemo.OtPoc: they require `inverse` to invert A = g^a mod p, which excludes a drawn g ≡ 0 (mod p), that is g = 0 or g = p; for such g `bn_inverse` has nothing to invert and the choice c = 1 need not decrypt.
- Registry: the Flask routing, JSON decoding and `jsonify`; `request.json.get` returning None for a missing field (fields are plain strings); the 500 response Flask turns a raised KeyError into (modelled as a SERVER_ERROR response); and `compute_fingerprint`, which the handlers never call.
- `dkg-c/src/mpc.h` declares functions that `dkg-c/src/mpc.c` does not define (`init_polynomial`, `mpc_group_presig`, `mpc_group_generate_sig`, `verify_k_r`), and its party record lacks the `polynomial` and `commitments` fields the code uses; the model follows the `.c` definitions.
- `mpc_init_party` of `dkg-c/src/mpc.c`: the HD-node derivation from fresh entropy; it only ends in `mpc_party_gen_polynomial`, which is modelled.

## Findings

| source | as written | input that shows it | evidently intended | confidence | as-written member | corrected member |
|---|---|---|---|---|---|---|
| dkg-c/src/mpc.c:199-217, 236-239 | `power` reduces id^i modulo the field prime p, but the exponents of curve points live modulo the group order n | threshold t = 33 and party id 255, both representable in the 8-bit fields of `mpc_config` and `mpc_party` (dkg-c/src/mpc.h:25, 50-51), coefficients all 0 except a_33 = 1: 255^33 > p, so (255^33 mod p)·G ≠ 255^33·G and the honest share is rejected | reduce the powers modulo the group order n | not executed | Feldman.VerifyCommitments (Feldman.PrimeReductionRejectsHonestShare) | Feldman.VerifyCommitmentsModOrder (Feldman.HonestShareVerifies) |
