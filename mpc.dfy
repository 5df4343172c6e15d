/** The protocol driver: polynomial set-up, party set-up, the OT
    precomputation, the two-level key-derivation DKG and the signature phase.
    Every network step is one of the models in `Network` and `NetworkOt`; the
    values the steps need from outside (derived keys, random draws, the
    transport, the hash of the message, the affine x coordinate, the modular
    inverse) are parameters. */
module Mpc {
  import opened ModArith
  import opened Curve
  import opened Poly
  import opened Config
  import opened Wrappers
  import opened Transport
  import opened MpcTypes
  import opened MpcHelpers
  import opened Lagrange
  import opened Network
  import opened NetworkOt

  // ---------------------------------------------------------------------------
  // Polynomials.

  /** The coefficients `init_polynomial` installs: the caller's first
      coeffCount coefficients, or the first coeffCount random draws below the
      order, with the constant term replaced by *a0 when a0 is given. */
  function Chosen(coeffCount: nat, coeffs: Option<seq<nat>>, a0: Option<nat>, draws: seq<nat>): (c: seq<nat>)
    requires 1 <= coeffCount
    requires coeffs.Some? ==> |coeffs.value| >= coeffCount
    requires coeffs.None? ==> |Accepted(draws, ORDER)| >= coeffCount
    ensures |c| == coeffCount
  {
    var base := if coeffs.Some? then coeffs.value[..coeffCount] else Accepted(draws, ORDER)[..coeffCount];
    if a0.Some? then [a0.value] + base[1..] else base
  }

  /** `init_polynomial`: records the counts, installs the coefficients and
      evaluates the polynomial (of degree coeffCount − 1) at 0, 1, …, members.
      The two `memzero` calls are left out: every slot they clear is written
      again before it is read. */
  method InitPolynomial(coeffCount: nat, coeffs: Option<seq<nat>>, a0: Option<nat>, members: nat,
                        draws: seq<nat>, p: Polynomial)
    requires 1 <= coeffCount <= p.coeff.Length && members < p.fx.Length && p.coeff != p.fx
    requires coeffs.Some? ==> |coeffs.value| >= coeffCount
    requires coeffs.None? ==> |Accepted(draws, ORDER)| >= coeffCount
    requires p.Reduced()
    modifies p, p.coeff, p.fx
    ensures p.coeffCount == coeffCount && p.memberCount == members
    ensures p.coeff[..coeffCount] == Chosen(coeffCount, coeffs, a0, draws)
    ensures p.coeff[coeffCount..] == old(p.coeff[coeffCount..])
    ensures forall i :: 0 <= i <= members ==> p.fx[i] == Horner(p.coeff[..coeffCount], i) % ORDER
    ensures p.fx[members + 1..] == old(p.fx[members + 1..])
    ensures p.fx[0] == p.coeff[0] % ORDER
    ensures a0.Some? ==> p.fx[0] == a0.value % ORDER
    ensures p.Reduced()
  {
    p.coeffCount := coeffCount;
    p.memberCount := members;
    InstallCoefficients(coeffCount, coeffs, a0, draws, p.coeff);
    assert p.fx[..] == old(p.fx[..]);
    var i := 0;
    while i <= members
      invariant 0 <= i <= members + 1
      invariant p.coeff[..coeffCount] == Chosen(coeffCount, coeffs, a0, draws)
      invariant p.coeff[coeffCount..] == old(p.coeff[coeffCount..])
      invariant forall j :: 0 <= j < i ==> p.fx[j] == Horner(p.coeff[..coeffCount], j) % ORDER
      invariant p.fx[members + 1..] == old(p.fx[members + 1..])
      invariant p.coeffCount == coeffCount && p.memberCount == members
      invariant p.Reduced()
    {
      var v := EvaluatePolynomial(p.coeff, coeffCount - 1, i);
      p.fx[i] := v;
      i := i + 1;
    }
    EvaluateAtZero(p.coeff[..coeffCount]);
  }

  /** The first half of `init_polynomial`: the coefficients are copied from
      the caller or drawn by `gen_polynomial_coeff`, then a0 overwrites the
      constant term. */
  method InstallCoefficients(coeffCount: nat, coeffs: Option<seq<nat>>, a0: Option<nat>, draws: seq<nat>, coeff: array<nat>)
    requires 1 <= coeffCount <= coeff.Length
    requires coeffs.Some? ==> |coeffs.value| >= coeffCount
    requires coeffs.None? ==> |Accepted(draws, ORDER)| >= coeffCount
    modifies coeff
    ensures coeff[..coeffCount] == Chosen(coeffCount, coeffs, a0, draws)
    ensures coeff[coeffCount..] == old(coeff[coeffCount..])
  {
    if coeffs.Some? {
      var i := 0;
      while i < coeffCount
        invariant 0 <= i <= coeffCount
        invariant coeff[..i] == coeffs.value[..i]
        invariant coeff[coeffCount..] == old(coeff[coeffCount..])
      {
        coeff[i] := coeffs.value[i];
        assert coeff[..i + 1] == coeff[..i] + [coeffs.value[i]];
        assert coeffs.value[..i + 1] == coeffs.value[..i] + [coeffs.value[i]];
        i := i + 1;
      }
    } else {
      GenPolynomialCoeff(coeffCount, coeff, draws);
    }
    if a0.Some? {
      coeff[0] := a0.value;
    }
  }

  /** With a zero constant term the polynomial hides nothing at 0: the
      evaluation there is 0, as for the blinding polynomials D and E. */
  lemma ZeroConstantTerm(coeffCount: nat, draws: seq<nat>)
    requires 1 <= coeffCount <= |Accepted(draws, ORDER)|
    ensures Horner(Chosen(coeffCount, None, Some(0), draws), 0) % ORDER == 0
    ensures Chosen(coeffCount, None, Some(0), draws)[1..] == Accepted(draws, ORDER)[1..coeffCount]
  {
    EvaluateAtZero(Chosen(coeffCount, None, Some(0), draws));
  }

  // ---------------------------------------------------------------------------
  // Parties.

  /** `mpc_init_party`: a null party or name is `MPC_OP_WRONG_PARAM`;
      otherwise the (16-bit) id is stored into the 8-bit field and the port is
      looked up with the stored id.  The entropy draw is left out. */
  method MpcInitParty(party: Party?, id: nat, name: Option<string>) returns (status: Status)
    requires id < 0x1_0000
    requires party != null && name.Some? ==> 1 <= id % 256 <= |PORTS|
    modifies party
    ensures status == (if party == null || name.None? then WrongParam else Success)
    ensures status == Success ==>
      party.id == id % 256 && party.name == name.value && party.port == PORTS[id % 256 - 1] &&
      party.privateKey == old(party.privateKey)
    ensures status != Success && party != null ==> unchanged(party)
  {
    if party == null || name.None? {
      return WrongParam;
    }
    party.id := id % 256;
    party.name := name.value;
    party.port := PORTS[party.id - 1];
    status := Success;
  }

  /** The a[i] the precomputation draws: the even-numbered draws. */
  function OtScalarsA(draws: seq<nat>): (a: seq<nat>)
    requires |draws| >= 2 * OT_TERM_SIZE
    ensures |a| == OT_TERM_SIZE
  {
    seq(OT_TERM_SIZE, i requires 0 <= i < OT_TERM_SIZE => draws[2 * i])
  }

  /** The b[i] the precomputation draws: the odd-numbered draws. */
  function OtScalarsB(draws: seq<nat>): (b: seq<nat>)
    requires |draws| >= 2 * OT_TERM_SIZE
    ensures |b| == OT_TERM_SIZE
  {
    seq(OT_TERM_SIZE, i requires 0 <= i < OT_TERM_SIZE => draws[2 * i + 1])
  }

  /** `mpc_parties_ot_init`: for each OT term draws a[i], sets A[i] = a[i]·G
      and draws b[i].  `draws` are the successive 32-byte random numbers. */
  method OtInit(party: Party, draws: seq<nat>)
    requires party.OtSized() && party.a != party.b && |draws| >= 2 * OT_TERM_SIZE
    modifies party.a, party.b, party.A
    ensures party.a[..] == OtScalarsA(draws) && party.b[..] == OtScalarsB(draws)
    ensures forall i :: 0 <= i < OT_TERM_SIZE ==> party.A[i] == MulBase(party.a[i])
  {
    var i := 0;
    while i < OT_TERM_SIZE
      invariant 0 <= i <= OT_TERM_SIZE
      invariant forall j :: 0 <= j < i ==> party.a[j] == draws[2 * j] && party.b[j] == draws[2 * j + 1]
      invariant forall j :: 0 <= j < i ==> party.A[j] == MulBase(party.a[j])
    {
      party.a[i] := draws[2 * i];
      party.A[i] := Mul(party.a[i], G);
      party.b[i] := draws[2 * i + 1];
      i := i + 1;
    }
  }

  // ---------------------------------------------------------------------------
  // Broadcast results.

  /** The serving legs and fetched rounds of one broadcast-style exchange. */
  datatype Exchange<T> = Exchange(serve: seq<Leg>, fetch: seq<Fetch<T>>)

  predicate ExchangeFits<T>(x: Exchange<T>, nParties: nat)
  {
    |x.serve| == nParties - 1 && IdsInRange(x.serve, nParties) && SendOnly(x.serve) && nParties <= |x.fetch|
  }

  /** The status of a `broadcast_shares` call over all nParties slots. */
  function BroadcastStatus<T>(x: Exchange<T>, pid: nat, nParties: nat): Status
    requires ExchangeFits(x, nParties)
  {
    Outcome(Rounds(nParties, pid, x.serve, x.fetch, NetReadFail))
  }

  /** The slots after a broadcast that went through: the own value in slot
      pid − 1 and what party i + 1 sent in every other slot i. */
  function Slots<T>(own: T, fetch: seq<Fetch<T>>, pid: nat, n: nat): (s: seq<T>)
    requires n <= |fetch|
    ensures |s| == n
  {
    seq(n, i requires 0 <= i < n => if i + 1 == pid then own else fetch[i].value)
  }

  /** Runs `broadcast_shares` over nParties slots whose own slot is `own`; on
      success the array holds `Slots`. */
  method BroadcastAll<T>(own: T, pid: nat, nParties: nat, x: Exchange<T>) returns (status: Status, slots: array<T>)
    requires 1 <= pid <= nParties && ExchangeFits(x, nParties)
    ensures fresh(slots) && slots.Length == nParties
    ensures status == BroadcastStatus(x, pid, nParties)
    ensures status == Success ==> slots[..] == Slots(own, x.fetch, pid, nParties)
  {
    slots := new T[nParties](_ => own);
    var sent;
    status, sent := BroadcastShares(slots, nParties, nParties, pid, x.serve, x.fetch);
    if status == Success {
      ghost var rounds := Rounds(nParties, pid, x.serve, x.fetch, NetReadFail);
      assert FirstFail(rounds) == nParties;
      assert slots[..] == Slots(own, x.fetch, pid, nParties);
    }
  }

  // ---------------------------------------------------------------------------
  // The DKG extension.

  /** The transport of `mpc_dkg_extension`: the account-level and
      change-level DKGs, then the broadcasts of the account-level public keys
      and chain codes. */
  datatype ExtensionWire = ExtensionWire(account: DkgWire, change: DkgWire,
                                         keys: Exchange<Point>, codes: Exchange<nat>)

  predicate ExtensionFits(w: ExtensionWire)
  {
    WireFits(w.account, N_PARTIES, THRESHOLD) && WireFits(w.change, N_PARTIES, THRESHOLD) &&
    ExchangeFits(w.keys, N_PARTIES) && ExchangeFits(w.codes, N_PARTIES)
  }

  /** Σ_{i<k} derive(codes[i], keys[i]), added onto the point at infinity. */
  function DerivedSum(keys: seq<Point>, codes: seq<nat>, derive: (nat, Point) -> Point, k: nat): Point
    requires k <= |keys| && k <= |codes|
  {
    if k == 0 then Infinity
    else Add(derive(codes[k - 1], keys[k - 1]), DerivedSum(keys, codes, derive, k - 1))
  }

  /** The own evaluation fx[pid] of a polynomial with the given coefficients. */
  function OwnEvaluation(c: seq<nat>, pid: nat): nat
  {
    Horner(c, pid) % ORDER
  }

  /** The status of the key-sharing part of `mpc_dkg_extension`.
      `accountKeys` and `changeKeys` are the private keys of the nodes
      m/i'/0'/0'/0' and m/i'/0'/0'/0'/0.  Because the status variable
      receives the comparison `dkg(...) != MPC_OP_SUCCESS`, a failing DKG
      yields the value 1, `MPC_OP_NET_INVALID_CONNECTION`. */
  function LevelsStatus(pid: nat, accountKeys: seq<nat>, changeKeys: seq<nat>, w: ExtensionWire): Status
    requires |accountKeys| > THRESHOLD && |changeKeys| > THRESHOLD && ExtensionFits(w)
  {
    var own1 := OwnEvaluation(accountKeys[..THRESHOLD + 1], pid);
    var own2 := OwnEvaluation(changeKeys[..THRESHOLD + 1], pid);
    if DkgStatus(own1, pid, N_PARTIES, THRESHOLD, None, w.account) != Success then NetInvalidConnection
    else if DkgStatus(own2, pid, N_PARTIES, THRESHOLD, None, w.change) != Success then NetInvalidConnection
    else Success
  }

  /** The change-level group key Q the second DKG interpolates. */
  function ChangeKey(pid: nat, changeKeys: seq<nat>, w: ExtensionWire): Point
    requires |changeKeys| > THRESHOLD && ExtensionFits(w)
  {
    DkgKey(OwnEvaluation(changeKeys[..THRESHOLD + 1], pid), pid, N_PARTIES, THRESHOLD, None, w.change)
  }

  /** The status of the verification part: the two broadcasts, then the
      comparison of the derived sum with Q.  `accountPub` and `chainCode`
      are the own account node's public key and chain code, `derive` the
      public derivation of child 0 from a chain code and public key. */
  function DerivedStatus(pid: nat, accountPub: Point, chainCode: nat, derive: (nat, Point) -> Point,
                         Q: Point, w: ExtensionWire): Status
    requires ExtensionFits(w)
  {
    if BroadcastStatus(w.keys, pid, N_PARTIES) != Success then BroadcastStatus(w.keys, pid, N_PARTIES)
    else if BroadcastStatus(w.codes, pid, N_PARTIES) != Success then BroadcastStatus(w.codes, pid, N_PARTIES)
    else if DerivedSum(Slots(accountPub, w.keys.fetch, pid, N_PARTIES),
                       Slots(chainCode, w.codes.fetch, pid, N_PARTIES), derive, N_PARTIES) != Q
    then CheckFail
    else Success
  }

  /** The status `mpc_dkg_extension` returns. */
  function ExtensionStatus(pid: nat, accountKeys: seq<nat>, chainCode: nat, changeKeys: seq<nat>,
                           derive: (nat, Point) -> Point, w: ExtensionWire): Status
    requires |accountKeys| > THRESHOLD && |changeKeys| > THRESHOLD && ExtensionFits(w)
  {
    if LevelsStatus(pid, accountKeys, changeKeys, w) != Success then LevelsStatus(pid, accountKeys, changeKeys, w)
    else DerivedStatus(pid, MulBase(accountKeys[0]), chainCode, derive, ChangeKey(pid, changeKeys, w), w)
  }

  /** src/mpc.c lines 91-146: both polynomials are built from the derived
      keys before the two DKGs run. */
  method ShareLevels(pid: nat, accountKeys: seq<nat>, changeKeys: seq<nat>,
                     fp: Polynomial, fq: Polynomial, w: ExtensionWire) returns (status: Status, Q: Point)
    requires 1 <= pid <= N_PARTIES && |accountKeys| > THRESHOLD && |changeKeys| > THRESHOLD
    requires ExtensionFits(w)
    requires THRESHOLD < fp.coeff.Length && N_PARTIES < fp.fx.Length && fp.coeff != fp.fx && fp.Reduced()
    requires THRESHOLD < fq.coeff.Length && N_PARTIES < fq.fx.Length && fq.coeff != fq.fx && fq.Reduced()
    requires fp != fq && fp.fx != fq.coeff && fp.fx != fq.fx && fp.coeff != fq.fx
    modifies fp, fp.coeff, fp.fx, fq, fq.coeff, fq.fx
    ensures status == LevelsStatus(pid, accountKeys, changeKeys, w)
    ensures status == Success ==> Q == ChangeKey(pid, changeKeys, w)
  {
    var coeffCount := THRESHOLD + 1;
    InitPolynomial(coeffCount, Some(accountKeys), None, N_PARTIES, [], fp);
    InitPolynomial(coeffCount, Some(changeKeys), None, N_PARTIES, [], fq);
    assert fp.fx[pid] == OwnEvaluation(accountKeys[..THRESHOLD + 1], pid);
    assert fq.fx[pid] == OwnEvaluation(changeKeys[..THRESHOLD + 1], pid);
    Q := Infinity;
    var st, q := Dkg(pid, N_PARTIES, THRESHOLD, fp, None, false, w.account);
    if st != Success {
      return NetInvalidConnection, Q;
    }
    st, q := Dkg(pid, N_PARTIES, THRESHOLD, fq, None, true, w.change);
    if st != Success {
      return NetInvalidConnection, Q;
    }
    Q := q.value;
    status := Success;
  }

  /** src/mpc.c lines 152-196: the broadcasts and the comparison of the sum
      of the derived keys with Q. */
  method VerifyDerived(pid: nat, accountPub: Point, chainCode: nat, derive: (nat, Point) -> Point,
                       Q: Point, w: ExtensionWire) returns (status: Status)
    requires 1 <= pid <= N_PARTIES && ExtensionFits(w)
    ensures status == DerivedStatus(pid, accountPub, chainCode, derive, Q, w)
  {
    var keys, codes;
    status, keys := BroadcastAll(accountPub, pid, N_PARTIES, w.keys);
    if status != Success {
      return;
    }
    status, codes := BroadcastAll(chainCode, pid, N_PARTIES, w.codes);
    if status != Success {
      return;
    }
    var derivedSum := Infinity;
    var i := 0;
    while i < N_PARTIES
      invariant 0 <= i <= N_PARTIES
      invariant derivedSum == DerivedSum(keys[..], codes[..], derive, i)
    {
      var derived := derive(codes[i], keys[i]);
      derivedSum := Add(derived, derivedSum);
      i := i + 1;
    }
    if derivedSum != Q {
      return CheckFail;
    }
    status := Success;
  }

  /** `mpc_dkg_extension`: shares the account-level and the change-level keys
      with two DKGs, broadcasts the account-level public key and chain code,
      checks that the change-level keys derived publicly from them add up to
      the DKG's Q, and stores the child m/0'/0'/0'/0'/0 of the own account
      node as the private key share; that child is changeKeys[0], the same
      derivation the change-level coefficients were read from. */
  method DkgExtension(party: Party, accountKeys: seq<nat>, chainCode: nat, changeKeys: seq<nat>,
                      derive: (nat, Point) -> Point, fp: Polynomial, fq: Polynomial, w: ExtensionWire)
      returns (status: Status)
    requires 1 <= party.id <= N_PARTIES && |accountKeys| > THRESHOLD && |changeKeys| > THRESHOLD
    requires ExtensionFits(w)
    requires THRESHOLD < fp.coeff.Length && N_PARTIES < fp.fx.Length && fp.coeff != fp.fx && fp.Reduced()
    requires THRESHOLD < fq.coeff.Length && N_PARTIES < fq.fx.Length && fq.coeff != fq.fx && fq.Reduced()
    requires fp != fq && fp.fx != fq.coeff && fp.fx != fq.fx && fp.coeff != fq.fx
    modifies party, fp, fp.coeff, fp.fx, fq, fq.coeff, fq.fx
    ensures status == ExtensionStatus(old(party.id), accountKeys, chainCode, changeKeys, derive, w)
    ensures party.privateKey == if status == Success then changeKeys[0] else old(party.privateKey)
    ensures party.id == old(party.id) && party.name == old(party.name) && party.port == old(party.port)
  {
    var Q;
    status, Q := ShareLevels(party.id, accountKeys, changeKeys, fp, fq, w);
    if status != Success {
      return;
    }
    status := VerifyDerived(party.id, Mul(accountKeys[0], G), chainCode, derive, Q, w);
    if status != Success {
      return;
    }
    party.privateKey := changeKeys[0];
  }

  /** A failing DKG is always reported as the value 1, whatever status the
      DKG itself returned. */
  lemma ExtensionHidesDkgStatus(pid: nat, accountKeys: seq<nat>, chainCode: nat, changeKeys: seq<nat>,
                                derive: (nat, Point) -> Point, w: ExtensionWire)
    requires |accountKeys| > THRESHOLD && |changeKeys| > THRESHOLD && ExtensionFits(w)
    requires DkgStatus(OwnEvaluation(accountKeys[..THRESHOLD + 1], pid), pid, N_PARTIES, THRESHOLD, None, w.account) != Success ||
             DkgStatus(OwnEvaluation(changeKeys[..THRESHOLD + 1], pid), pid, N_PARTIES, THRESHOLD, None, w.change) != Success
    ensures Code(ExtensionStatus(pid, accountKeys, chainCode, changeKeys, derive, w)) == 1
  {
  }

  /** When every derived key is the constant term of the corresponding
      change-level polynomial times G, the derived sum is the sum of those
      constant terms times G. */
  lemma {:induction false} DerivedSumHonest(keys: seq<Point>, codes: seq<nat>, derive: (nat, Point) -> Point,
                                          fs: seq<seq<int>>, k: nat)
    requires k <= |keys| && k <= |codes| && k <= |fs|
    requires forall i :: 0 <= i < k ==> derive(codes[i], keys[i]) == MulBase(Horner(fs[i], 0))
    ensures DerivedSum(keys, codes, derive, k) == MulBase(SumAt(fs[..k], 0))
    decreases k
  {
    if k == 0 {
      assert fs[..0] == [];
    } else {
      DerivedSumHonest(keys, codes, derive, fs, k - 1);
      assert fs[..k][..k - 1] == fs[..k - 1];
      AddBases(Horner(fs[k - 1], 0), SumAt(fs[..k - 1], 0));
    }
  }

  /** An honest DKG run as `DkgHonest` needs it: nParties polynomials of at
      most t+1 coefficients, every round goes through, the private shares read
      are the peers' evaluations at pid and the public shares read are those
      of the sum polynomial. */
  predicate HonestWire(fs: seq<seq<int>>, pid: nat, nParties: nat, t: nat, w: DkgWire)
  {
    WireFits(w, nParties, t) && |fs| == nParties && 1 <= pid <= nParties &&
    (forall k :: 0 <= k < nParties ==> |fs[k]| <= t + 1) &&
    (forall j :: 0 <= j < nParties ==> FetchStatus(w.shareFetch[j]) == Success) &&
    ServeStatus(w.shareServe, {pid}, InvalidData) == Success &&
    (forall j :: 0 <= j < nParties && j + 1 != pid ==> w.shareFetch[j].value == Horner(fs[j], pid) % ORDER) &&
    Outcome(Rounds(t + 1, pid, w.verifyServe, w.verifyFetch, NetReadFail)) == Success &&
    (forall k :: 0 <= k <= t && k + 1 != pid ==> w.verifyFetch[k].value == MulBase(SumAt(fs, k + 1)))
  }

  /** DkgHonest for the configured party count and threshold. */
  lemma HonestWireDkg(fs: seq<seq<int>>, own: nat, pid: nat, w: DkgWire)
    requires HonestWire(fs, pid, N_PARTIES, THRESHOLD, w) && own == Horner(fs[pid - 1], pid) % ORDER
    ensures DkgStatus(own, pid, N_PARTIES, THRESHOLD, None, w) == Success
    ensures DkgKey(own, pid, N_PARTIES, THRESHOLD, None, w) == MulBase(SumAt(fs, 0))
  {
    ConfigLambdasFit(pid);
    ConfigLambdasFit(0);
    DkgHonest(fs, own, pid, N_PARTIES, THRESHOLD, w);
  }

  /** With honest peers the extension succeeds: both DKGs go through, and when
      every party's broadcast key and chain code derive its change-level
      constant term times G, their sum is the DKG's Q. */
  lemma ExtensionHonest(pid: nat, accountKeys: seq<nat>, chainCode: nat, changeKeys: seq<nat>,
                        derive: (nat, Point) -> Point, w: ExtensionWire, fs1: seq<seq<int>>, fs2: seq<seq<int>>)
    requires |accountKeys| > THRESHOLD && |changeKeys| > THRESHOLD && ExtensionFits(w)
    requires HonestWire(fs1, pid, N_PARTIES, THRESHOLD, w.account) && HonestWire(fs2, pid, N_PARTIES, THRESHOLD, w.change)
    requires fs1[pid - 1] == accountKeys[..THRESHOLD + 1] && fs2[pid - 1] == changeKeys[..THRESHOLD + 1]
    requires BroadcastStatus(w.keys, pid, N_PARTIES) == Success && BroadcastStatus(w.codes, pid, N_PARTIES) == Success
    requires forall i :: 0 <= i < N_PARTIES ==>
      derive(Slots(chainCode, w.codes.fetch, pid, N_PARTIES)[i], Slots(MulBase(accountKeys[0]), w.keys.fetch, pid, N_PARTIES)[i])
        == MulBase(Horner(fs2[i], 0))
    ensures ExtensionStatus(pid, accountKeys, chainCode, changeKeys, derive, w) == Success
  {
    HonestWireDkg(fs1, OwnEvaluation(accountKeys[..THRESHOLD + 1], pid), pid, w.account);
    HonestWireDkg(fs2, OwnEvaluation(changeKeys[..THRESHOLD + 1], pid), pid, w.change);
    DerivedSumHonest(Slots(MulBase(accountKeys[0]), w.keys.fetch, pid, N_PARTIES),
                     Slots(chainCode, w.codes.fetch, pid, N_PARTIES), derive, fs2, N_PARTIES);
    assert fs2[..N_PARTIES] == fs2;
  }
}
