/** `mpc_signature_phase`: the parties 1..t+1 build R = k·G and W = a·R with
    two DKGs, turn their additive shares of a and k into shares of a·k with
    the OT multiplication, check Σ shares·G = W, multiply the shares of k⁻¹
    with the Lagrange terms of the private key shares, and broadcast
    v_i + λ_i·s_i; s is the sum of those and r the x coordinate of R.

    The step functions (`…Of`) take the values one step depends on; the
    `Signer` functions assemble them for one party's run. */
module Signing {
  import opened ModArith
  import opened Curve
  import opened Config
  import opened Wrappers
  import opened Transport
  import opened MpcTypes
  import opened MpcHelpers
  import opened Lagrange
  import opened Network
  import opened NetworkOt
  import opened Mpc

  // ---------------------------------------------------------------------------
  // Inputs of one party's run.

  /** The serving and fetching sides of one `ot` call. */
  datatype OtWire = OtWire(serve: seq<OtServe>, fetch: seq<OtFetch>)

  /** The transport of the phase, step by step. */
  datatype SignWire = SignWire(k: DkgWire, a: DkgWire, ot1: OtWire, bc1: Exchange<nat>, ot2: OtWire,
                               shareA: Exchange<nat>, shareD: Exchange<nat>, shareE: Exchange<nat>,
                               bc2: Exchange<nat>)

  /** The random draws for the polynomials K, A, D and E and for the OT
      precomputation. */
  datatype SignDraws = SignDraws(k: seq<nat>, a: seq<nat>, d: seq<nat>, e: seq<nat>, ot: seq<nat>)

  /** What the phase takes from outside: the OT hash H, the digest (SHA-256
      applied twice to MESSAGE, read as a number), the modular inverse
      `bn_inverse` and the affine x coordinate of a point. */
  datatype SignLib = SignLib(H: Point -> nat, hash: nat, inverse: nat -> nat, xCoord: Point -> nat)

  /** One party's run: its id, its private key share, and the inputs above. */
  datatype Signer = Signer(pid: nat, privateKey: nat, d: SignDraws, w: SignWire, lib: SignLib)

  datatype Signature = Signature(r: nat, s: nat)

  /** The phase runs among the parties 1..t+1. */
  const SIGNERS: nat := THRESHOLD + 1

  predicate OtFits(x: OtWire)
  {
    |x.serve| == SIGNERS - 1 && IdsInRange(AsLegs(x.serve), SIGNERS) && ServeSized(x.serve) &&
    FetchSized(x.fetch) && SIGNERS <= |x.fetch|
  }

  predicate DrawsFit(d: SignDraws)
  {
    |Accepted(d.k, ORDER)| >= SIGNERS && |Accepted(d.a, ORDER)| >= SIGNERS &&
    |Accepted(d.d, ORDER)| >= SIGNERS && |Accepted(d.e, ORDER)| >= SIGNERS &&
    |d.ot| >= 2 * OT_TERM_SIZE
  }

  predicate SignWireFits(w: SignWire)
  {
    WireFits(w.k, SIGNERS, THRESHOLD) && WireFits(w.a, SIGNERS, THRESHOLD) &&
    OtFits(w.ot1) && OtFits(w.ot2) &&
    ExchangeFits(w.bc1, SIGNERS) && ExchangeFits(w.bc2, SIGNERS) &&
    ExchangeFits(w.shareA, SIGNERS) && ExchangeFits(w.shareD, SIGNERS) && ExchangeFits(w.shareE, SIGNERS)
  }

  predicate SignerFits(g: Signer)
  {
    1 <= g.pid <= SIGNERS && DrawsFit(g.d) && SignWireFits(g.w)
  }

  // ---------------------------------------------------------------------------
  // The steps.

  /** The sum of a sequence, added from the front. */
  function Total(s: seq<int>): int
  {
    if s == [] then 0 else Total(s[..|s| - 1]) + s[|s| - 1]
  }

  /** Σ of the n slots after a broadcast, modulo the order. */
  function SlotSum(pid: nat, own: nat, x: Exchange<nat>): nat
    requires ExchangeFits(x, SIGNERS)
  {
    Total(Slots(own, x.fetch, pid, SIGNERS)) % ORDER
  }

  function OtStatus(pid: nat, x: OtWire): Status
    requires OtFits(x)
  {
    Outcome(OtRounds(SIGNERS, pid, x.serve, x.fetch))
  }

  /** The own share of a·k: the OT output plus a0_K·a0_A. */
  function ProductShareOf(pid: nat, b: seq<nat>, kA0: nat, aA0: nat, ot1: OtWire, H: Point -> nat): nat
    requires |b| == OT_TERM_SIZE && OtFits(ot1)
  {
    (OtShare(b, pid, SIGNERS, ot1.serve, ot1.fetch, kA0, H) + (kA0 * aA0) % ORDER) % ORDER
  }

  /** The status of the authenticator step for the sum w: the OT, the
      broadcast, and the comparison w·G = W. */
  function AuthStatusOf(pid: nat, ot1: OtWire, bc1: Exchange<nat>, w: nat, W: Point): Status
    requires OtFits(ot1) && ExchangeFits(bc1, SIGNERS)
  {
    if OtStatus(pid, ot1) != Success then OtStatus(pid, ot1)
    else if BroadcastStatus(bc1, pid, SIGNERS) != Success then BroadcastStatus(bc1, pid, SIGNERS)
    else if MulBase(w) != W then CheckFail
    else Success
  }

  /** λ_pid(0) applied to a scalar, as `evaluate_lagarange_term` does. */
  function LagrangeAtZero(pid: nat, v: nat): nat
  {
    (Lambda32(Lambda(THRESHOLD, pid, 0)) * v) % ORDER
  }

  /** v_i = (OT output + λ·x·k_share)·R.x, for the OT of k_share against the
      Lagrange term λ·x of the private key share x. */
  function VShareOf(pid: nat, b: seq<nat>, privateKey: nat, kShare: nat, ot2: OtWire, H: Point -> nat, rx: nat): nat
    requires |b| == OT_TERM_SIZE && OtFits(ot2)
  {
    var term := LagrangeAtZero(pid, privateKey);
    (rx * ((OtShare(b, pid, SIGNERS, ot2.serve, ot2.fetch, term, H) + (term * kShare) % ORDER) % ORDER)) % ORDER
  }

  function ShareRound(x: Exchange<nat>, pid: nat): Status
    requires ExchangeFits(x, SIGNERS)
  {
    Outcome(Rounds(SIGNERS, pid, x.serve, x.fetch, InvalidData))
  }

  /** The status of the three private share exchanges, for A, D and E. */
  function ShareStatusOf(pid: nat, xa: Exchange<nat>, xd: Exchange<nat>, xe: Exchange<nat>): Status
    requires ExchangeFits(xa, SIGNERS) && ExchangeFits(xd, SIGNERS) && ExchangeFits(xe, SIGNERS)
  {
    if ShareRound(xa, pid) != Success then ShareRound(xa, pid)
    else if ShareRound(xd, pid) != Success then ShareRound(xd, pid)
    else ShareRound(xe, pid)
  }

  /** s_i = h·(w⁻¹·A_i) + h·D_i + E_i from the private shares of A, D and E
      (each the own evaluation plus what the peers sent). */
  function SShareOf(pid: nat, hash: nat, winv: nat, ownA: nat, ownD: nat, ownE: nat,
                    xa: Exchange<nat>, xd: Exchange<nat>, xe: Exchange<nat>): nat
    requires ExchangeFits(xa, SIGNERS) && ExchangeFits(xd, SIGNERS) && ExchangeFits(xe, SIGNERS)
  {
    var ai := PrivateShare(ownA, xa.fetch, pid, SIGNERS);
    var di := PrivateShare(ownD, xd.fetch, pid, SIGNERS);
    var ei := PrivateShare(ownE, xe.fetch, pid, SIGNERS);
    (((hash * ((winv * ai) % ORDER)) % ORDER + (hash * di) % ORDER) % ORDER + ei) % ORDER
  }

  // ---------------------------------------------------------------------------
  // One party's run.

  /** The coefficients of K and A (random) and of D and E (random with a zero
      constant term). */
  function CoeffsK(g: Signer): seq<nat>
    requires SignerFits(g)
  {
    Chosen(SIGNERS, None, None, g.d.k)
  }

  function CoeffsA(g: Signer): seq<nat>
    requires SignerFits(g)
  {
    Chosen(SIGNERS, None, None, g.d.a)
  }

  function CoeffsD(g: Signer): seq<nat>
    requires SignerFits(g)
  {
    Chosen(SIGNERS, None, Some(0), g.d.d)
  }

  function CoeffsE(g: Signer): seq<nat>
    requires SignerFits(g)
  {
    Chosen(SIGNERS, None, Some(0), g.d.e)
  }

  /** R, the group key of the DKG of K. */
  function NonceR(g: Signer): Point
    requires SignerFits(g)
  {
    DkgKey(OwnEvaluation(CoeffsK(g), g.pid), g.pid, SIGNERS, THRESHOLD, None, g.w.k)
  }

  /** W, the group key of the DKG of A over R. */
  function AuthW(g: Signer): Point
    requires SignerFits(g)
  {
    DkgKey(OwnEvaluation(CoeffsA(g), g.pid), g.pid, SIGNERS, THRESHOLD, Some(NonceR(g)), g.w.a)
  }

  /** The status of the DKGs of K and of A over R. */
  function PresigStatus(g: Signer): Status
    requires SignerFits(g)
  {
    var st := DkgStatus(OwnEvaluation(CoeffsK(g), g.pid), g.pid, SIGNERS, THRESHOLD, None, g.w.k);
    if st != Success then st
    else DkgStatus(OwnEvaluation(CoeffsA(g), g.pid), g.pid, SIGNERS, THRESHOLD, Some(NonceR(g)), g.w.a)
  }

  function ProductShare(g: Signer): nat
    requires SignerFits(g)
  {
    ProductShareOf(g.pid, OtScalarsB(g.d.ot), CoeffsK(g)[0], CoeffsA(g)[0], g.w.ot1, g.lib.H)
  }

  /** w, the sum of the broadcast shares of a·k. */
  function ProductSum(g: Signer): nat
    requires SignerFits(g)
  {
    SlotSum(g.pid, ProductShare(g), g.w.bc1)
  }

  function AuthStatus(g: Signer): Status
    requires SignerFits(g)
  {
    AuthStatusOf(g.pid, g.w.ot1, g.w.bc1, ProductSum(g), AuthW(g))
  }

  /** w⁻¹·a0_A, the own share of k⁻¹. */
  function KShare(g: Signer): nat
    requires SignerFits(g)
  {
    (g.lib.inverse(ProductSum(g)) * CoeffsA(g)[0]) % ORDER
  }

  function VShare(g: Signer): nat
    requires SignerFits(g)
  {
    VShareOf(g.pid, OtScalarsB(g.d.ot), g.privateKey, KShare(g), g.w.ot2, g.lib.H, g.lib.xCoord(NonceR(g)))
  }

  function SShare(g: Signer): nat
    requires SignerFits(g)
  {
    SShareOf(g.pid, g.lib.hash, g.lib.inverse(ProductSum(g)),
             OwnEvaluation(CoeffsA(g), g.pid), OwnEvaluation(CoeffsD(g), g.pid), OwnEvaluation(CoeffsE(g), g.pid),
             g.w.shareA, g.w.shareD, g.w.shareE)
  }

  /** The value the party broadcasts last: v_i + λ·s_i. */
  function FinalShare(g: Signer): nat
    requires SignerFits(g)
  {
    (VShare(g) + LagrangeAtZero(g.pid, SShare(g))) % ORDER
  }

  /** s, the sum of the final shares. */
  function SValue(g: Signer): nat
    requires SignerFits(g)
  {
    SlotSum(g.pid, FinalShare(g), g.w.bc2)
  }

  /** The status of the steps after the authenticator check. */
  function SignTailStatus(g: Signer): Status
    requires SignerFits(g)
  {
    if OtStatus(g.pid, g.w.ot2) != Success then OtStatus(g.pid, g.w.ot2)
    else if ShareStatusOf(g.pid, g.w.shareA, g.w.shareD, g.w.shareE) != Success
    then ShareStatusOf(g.pid, g.w.shareA, g.w.shareD, g.w.shareE)
    else BroadcastStatus(g.w.bc2, g.pid, SIGNERS)
  }

  /** The status `mpc_signature_phase` returns: the first failing step's. */
  function SignStatus(g: Signer): Status
    requires SignerFits(g)
  {
    if PresigStatus(g) != Success then PresigStatus(g)
    else if AuthStatus(g) != Success then AuthStatus(g)
    else SignTailStatus(g)
  }

  // ---------------------------------------------------------------------------
  // The methods.

  /** Adds the slots modulo the order, from 0. */
  method SumSlots(slots: array<nat>) returns (total: nat)
    ensures total == Total(slots[..]) % ORDER
  {
    total := 0;
    var i := 0;
    while i < slots.Length
      invariant 0 <= i <= slots.Length
      invariant total == Total(slots[..i]) % ORDER
    {
      assert slots[..i + 1][..i] == slots[..i];
      Accumulate(Total(slots[..i]), slots[i]);
      total := (total + slots[i]) % ORDER;
      i := i + 1;
    }
    assert slots[..i] == slots[..];
  }

  /** Every signer's λ at 0 is computed with the source's exact division. */
  lemma SignerExact(pid: nat)
    requires 1 <= pid <= SIGNERS
    ensures Exact(THRESHOLD, pid, 0)
  {
    StandardNodesExact(NodeCords(THRESHOLD), THRESHOLD, 0);
    assert NodeCords(THRESHOLD)[pid - 1] == pid;
  }

  /** A polynomial of the phase: t+1 coefficients and the evaluations at
      0..t+1. */
  method SignPolynomial(a0: Option<nat>, draws: seq<nat>) returns (p: Polynomial)
    requires |Accepted(draws, ORDER)| >= SIGNERS
    ensures fresh(p) && fresh(p.coeff) && fresh(p.fx) && SIGNERS < p.fx.Length && p.Reduced()
    ensures forall i :: 0 <= i <= SIGNERS ==> p.fx[i] == OwnEvaluation(Chosen(SIGNERS, None, a0, draws), i)
    ensures p.coeff.Length > 0 && p.coeff[0] == Chosen(SIGNERS, None, a0, draws)[0]
  {
    p := new Polynomial();
    InitPolynomial(SIGNERS, None, a0, SIGNERS, draws, p);
    assert p.coeff[0] == p.coeff[..SIGNERS][0];
  }

  /** src/mpc.c lines 244-260: the DKG of K gives R, the DKG of A over R
      gives W. */
  method Presig(g: Signer, K: Polynomial, A: Polynomial) returns (status: Status, R: Point, W: Point)
    requires SignerFits(g)
    requires SIGNERS < K.fx.Length && K.Reduced() && K.fx[g.pid] == OwnEvaluation(CoeffsK(g), g.pid)
    requires SIGNERS < A.fx.Length && A.Reduced() && A.fx[g.pid] == OwnEvaluation(CoeffsA(g), g.pid)
    ensures status == PresigStatus(g)
    ensures status == Success ==> R == NonceR(g) && W == AuthW(g)
  {
    R, W := Infinity, Infinity;
    var q;
    status, q := Dkg(g.pid, SIGNERS, THRESHOLD, K, None, true, g.w.k);
    if status != Success {
      return;
    }
    R := q.value;
    status, q := Dkg(g.pid, SIGNERS, THRESHOLD, A, Some(R), true, g.w.a);
    if status != Success {
      return;
    }
    W := q.value;
  }

  /** src/mpc.c lines 265-316: the OT of a0_A against a0_K, the own share
      plus a0_K·a0_A, the broadcast, w = Σ shares, the check w·G = W, and
      w replaced by its inverse. */
  method Authenticate(party: Party, kA0: nat, aA0: nat, W: Point, ot1: OtWire, bc1: Exchange<nat>,
                      H: Point -> nat, inverse: nat -> nat) returns (status: Status, winv: nat)
    requires party.OtSized() && 1 <= party.id <= SIGNERS && OtFits(ot1) && ExchangeFits(bc1, SIGNERS)
    ensures status == AuthStatusOf(party.id, ot1, bc1, SlotSum(party.id, ProductShareOf(party.id, party.b[..], kA0, aA0, ot1, H), bc1), W)
    ensures status == Success ==> winv == inverse(SlotSum(party.id, ProductShareOf(party.id, party.b[..], kA0, aA0, ot1, H), bc1))
  {
    winv := 0;
    var ui;
    status, ui := Ot(party, aA0, kA0, SIGNERS, ot1.serve, ot1.fetch, H);
    if status != Success {
      return;
    }
    var tmp := (kA0 * aA0) % ORDER;
    ui := (ui + tmp) % ORDER;
    var shares;
    status, shares := BroadcastAll(ui, party.id, SIGNERS, bc1);
    if status != Success {
      return;
    }
    var w := SumSlots(shares);
    var checkW := Mul(w, G);
    if W != checkW {
      return CheckFail, winv;
    }
    winv := inverse(w);
  }

  /** src/mpc.c lines 318-345: k_share = w⁻¹·a0_A, the Lagrange term of the
      private key share, the OT of k_share against it, and v_i. */
  method Multiply(party: Party, winv: nat, aA0: nat, rx: nat, ot2: OtWire, H: Point -> nat) returns (status: Status, vi: nat)
    requires party.OtSized() && 1 <= party.id <= SIGNERS && OtFits(ot2)
    ensures status == OtStatus(party.id, ot2)
    ensures status == Success ==> vi == VShareOf(party.id, party.b[..], party.privateKey, (winv * aA0) % ORDER, ot2, H, rx)
  {
    var kShare := (winv * aA0) % ORDER;
    SignerExact(party.id);
    var term := EvaluateLagrangeTerm(party.privateKey, party.id, 0, THRESHOLD);
    status, vi := Ot(party, kShare, term, SIGNERS, ot2.serve, ot2.fetch, H);
    if status != Success {
      return;
    }
    kShare := (term * kShare) % ORDER;
    vi := (vi + kShare) % ORDER;
    vi := (rx * vi) % ORDER;
  }

  /** src/mpc.c lines 347-384: s_i from the private shares of A, D and E and
      the digest, then its Lagrange term. */
  method SignShare(pid: nat, hash: nat, winv: nat, A: Polynomial, D: Polynomial, E: Polynomial,
                   xa: Exchange<nat>, xd: Exchange<nat>, xe: Exchange<nat>) returns (status: Status, lsi: nat)
    requires 1 <= pid <= SIGNERS
    requires ExchangeFits(xa, SIGNERS) && ExchangeFits(xd, SIGNERS) && ExchangeFits(xe, SIGNERS)
    requires SIGNERS < A.fx.Length && A.Reduced() && SIGNERS < D.fx.Length && D.Reduced()
    requires SIGNERS < E.fx.Length && E.Reduced()
    ensures status == ShareStatusOf(pid, xa, xd, xe)
    ensures status == Success ==> lsi == LagrangeAtZero(pid, SShareOf(pid, hash, winv, A.fx[pid], D.fx[pid], E.fx[pid], xa, xd, xe))
  {
    lsi := 0;
    var si, di, ei, sent;
    status, si, sent := DkgPrivateShare(pid, SIGNERS, A, xa.serve, xa.fetch);
    if status != Success {
      return;
    }
    si := (winv * si) % ORDER;
    si := (hash * si) % ORDER;
    status, di, sent := DkgPrivateShare(pid, SIGNERS, D, xd.serve, xd.fetch);
    if status != Success {
      return;
    }
    di := (hash * di) % ORDER;
    si := (si + di) % ORDER;
    status, ei, sent := DkgPrivateShare(pid, SIGNERS, E, xe.serve, xe.fetch);
    if status != Success {
      return;
    }
    si := (si + ei) % ORDER;
    SignerExact(pid);
    lsi := EvaluateLagrangeTerm(si, pid, 0, THRESHOLD);
  }

  /** src/mpc.c lines 386-407: the broadcast of v_i + λ·s_i and s = Σ of the
      shares. */
  method Combine(pid: nat, vi: nat, lsi: nat, bc2: Exchange<nat>) returns (status: Status, s: nat)
    requires 1 <= pid <= SIGNERS && ExchangeFits(bc2, SIGNERS)
    ensures status == BroadcastStatus(bc2, pid, SIGNERS)
    ensures status == Success ==> s == SlotSum(pid, (vi + lsi) % ORDER, bc2)
  {
    s := 0;
    var own := (vi + lsi) % ORDER;
    var shares;
    status, shares := BroadcastAll(own, pid, SIGNERS, bc2);
    if status != Success {
      return;
    }
    s := SumSlots(shares);
  }

  lemma FinalShareOfParts(g: Signer, v: nat, l: nat)
    requires SignerFits(g) && v == VShare(g) && l == LagrangeAtZero(g.pid, SShare(g))
    ensures FinalShare(g) == (v + l) % ORDER
  {
  }

  /** The steps after the authenticator check. */
  method SignTail(party: Party, g: Signer, winv: nat, R: Point, A: Polynomial, D: Polynomial, E: Polynomial)
      returns (status: Status, s: nat)
    requires SignerFits(g) && party.OtSized() && party.id == g.pid && party.b[..] == OtScalarsB(g.d.ot)
    requires party.privateKey == g.privateKey && winv == g.lib.inverse(ProductSum(g)) && R == NonceR(g)
    requires SIGNERS < A.fx.Length && A.Reduced() && A.fx[g.pid] == OwnEvaluation(CoeffsA(g), g.pid)
    requires SIGNERS < D.fx.Length && D.Reduced() && D.fx[g.pid] == OwnEvaluation(CoeffsD(g), g.pid)
    requires SIGNERS < E.fx.Length && E.Reduced() && E.fx[g.pid] == OwnEvaluation(CoeffsE(g), g.pid)
    requires A.coeff.Length > 0 && A.coeff[0] == CoeffsA(g)[0]
    ensures status == SignTailStatus(g)
    ensures status == Success ==> s == SValue(g)
  {
    s := 0;
    var vi;
    status, vi := Multiply(party, winv, A.coeff[0], g.lib.xCoord(R), g.w.ot2, g.lib.H);
    if status != Success {
      return;
    }
    assert vi == VShare(g);
    var lsi;
    status, lsi := SignShare(g.pid, g.lib.hash, winv, A, D, E, g.w.shareA, g.w.shareD, g.w.shareE);
    if status != Success {
      return;
    }
    assert lsi == LagrangeAtZero(g.pid, SShare(g));
    FinalShareOfParts(g, vi, lsi);
    status, s := Combine(g.pid, vi, lsi, g.w.bc2);
  }

  /** `mpc_signature_phase` for one of the parties 1..t+1: n = t+1 parties
      and polynomials of t+1 coefficients; a failing step's status is
      returned at once; otherwise the signature is (R.x, s). */
  method SignaturePhase(party: Party, g: Signer) returns (status: Status, sig: Option<Signature>)
    requires SignerFits(g) && party.id == g.pid && party.privateKey == g.privateKey
    requires party.OtSized() && party.a != party.b
    modifies party.a, party.b, party.A
    ensures status == SignStatus(g)
    ensures sig == if status == Success then Some(Signature(g.lib.xCoord(NonceR(g)), SValue(g))) else None
  {
    sig := None;
    var K := SignPolynomial(None, g.d.k);
    var A := SignPolynomial(None, g.d.a);
    var D := SignPolynomial(Some(0), g.d.d);
    var E := SignPolynomial(Some(0), g.d.e);
    var R, W;
    status, R, W := Presig(g, K, A);
    if status != Success {
      return;
    }
    OtInit(party, g.d.ot);
    var winv;
    status, winv := Authenticate(party, K.coeff[0], A.coeff[0], W, g.w.ot1, g.w.bc1, g.lib.H, g.lib.inverse);
    if status != Success {
      return;
    }
    var s;
    status, s := SignTail(party, g, winv, R, A, D, E);
    if status != Success {
      return;
    }
    sig := Some(Signature(g.lib.xCoord(R), s));
  }
}
