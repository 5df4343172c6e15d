/** The earlier single-process Feldman verifiable secret sharing prototype
    (dkg-c/src/mpc.c).  A party draws t coefficients a_1..a_t below the
    order, publishes the commitments C_0 = x·G for its private key x and
    C_i = a_i·G, hands the party with index j the share
    x + Σ a_i·j^i mod n, and the receiver accepts the share when
    Σ_i power(id, i)·C_i = share·G. */
module Feldman {
  import opened ModArith
  import opened Curve
  import opened Poly
  import opened Wrappers
  import MpcHelpers

  /** `MPC_STATUS` of the prototype, with the values of dkg-c/src/mpc.h. */
  datatype FStatus = OpSuccess | WrongParam | MemFail | InvalidData | ValidCommits | InvalidCommits | Overflow

  function FCode(s: FStatus): (c: nat)
    ensures c <= 6
    ensures (c == 4) == (s == ValidCommits) && (c == 5) == (s == InvalidCommits)
  {
    match s
    case OpSuccess => 0
    case WrongParam => 1
    case MemFail => 2
    case InvalidData => 3
    case ValidCommits => 4
    case InvalidCommits => 5
    case Overflow => 6
  }

  /** The build configuration of the prototype (dkg-c/src/config.h). */
  const MEMBERS: nat := 5
  const THRESHOLD: nat := 2

  /** `mpc_config`: the member count and the number t of random coefficients. */
  datatype FeldmanConfig = FeldmanConfig(memberCount: nat, threshold: nat)

  /** `mpc_party` of the prototype: its id, its private key x (the HD node's
      key, read big-endian), the random coefficients a_1..a_t stored as
      `polynomial[0..t-1]`, and the commitments C_0..C_t. */
  class FeldmanParty {
    var id: nat
    var secret: nat
    var polynomial: array<nat>
    var commitments: array<Point>

    /** A zeroed party with its id and key, before polynomial generation. */
    constructor (id: nat, secret: nat)
      ensures this.id == id && this.secret == secret
      ensures polynomial.Length == 0 && commitments.Length == 0
    {
      this.id := id;
      this.secret := secret;
      polynomial := new nat[0];
      commitments := new Point[0];
    }
  }

  // ---------------------------------------------------------------------------
  // The polynomial and its commitments.

  /** The coefficients x, a_1, …, a_t, lowest degree first. */
  function Coefficients(secret: nat, poly: seq<nat>): (c: seq<nat>)
    ensures |c| == |poly| + 1 && c[0] == secret && c[1..] == poly
  {
    [secret] + poly
  }

  /** C_i = c_i·G for every coefficient. */
  function Commitments(secret: nat, poly: seq<nat>): (C: seq<Point>)
    ensures |C| == |poly| + 1
    ensures forall i :: 0 <= i < |C| ==> C[i] == MulBase(Coefficients(secret, poly)[i])
  {
    var c := Coefficients(secret, poly);
    seq(|c|, i requires 0 <= i < |c| => MulBase(c[i]))
  }

  /** `mpc_party_gen_polynomial`: WRONG_PARAM on a missing configuration or
      party; otherwise `polynomial` receives the first t draws below the
      order. */
  method GenPolynomial(params: Option<FeldmanConfig>, party: FeldmanParty?, draws: seq<nat>) returns (status: FStatus)
    requires params.Some? && party != null ==> |MpcHelpers.Accepted(draws, ORDER)| >= params.value.threshold
    modifies party
    ensures params.None? || party == null <==> status == WrongParam
    ensures party != null && params.None? ==> unchanged(party)
    ensures status != WrongParam ==>
      status == OpSuccess && fresh(party.polynomial) && party.polynomial.Length == params.value.threshold &&
      party.polynomial[..] == MpcHelpers.Accepted(draws, ORDER)[..params.value.threshold] &&
      (forall i :: 0 <= i < party.polynomial.Length ==> party.polynomial[i] < ORDER) &&
      party.id == old(party.id) && party.secret == old(party.secret) && party.commitments == old(party.commitments)
  {
    if params.None? || party == null {
      return WrongParam;
    }
    var t := params.value.threshold;
    var poly := new nat[t];
    if t > 0 {
      MpcHelpers.GenPolynomialCoeff(t, poly, draws);
      assert poly[..] == poly[..t];
    }
    party.polynomial := poly;
    status := OpSuccess;
  }

  /** `mpc_party_calculate_commitments`: WRONG_PARAM on a missing
      configuration or party; otherwise C_0 = x·G and C_i = a_i·G for
      i in 1..t. */
  method CalculateCommitments(params: Option<FeldmanConfig>, party: FeldmanParty?) returns (status: FStatus)
    requires params.Some? && party != null ==> party.polynomial.Length >= params.value.threshold
    modifies party
    ensures params.None? || party == null <==> status == WrongParam
    ensures party != null && params.None? ==> unchanged(party)
    ensures status != WrongParam ==>
      status == OpSuccess && fresh(party.commitments) &&
      party.id == old(party.id) && party.secret == old(party.secret) && party.polynomial == old(party.polynomial) &&
      party.commitments[..] == Commitments(party.secret, party.polynomial[..params.value.threshold])
  {
    if params.None? || party == null {
      return WrongParam;
    }
    var t := params.value.threshold;
    var C := Commitments(party.secret, party.polynomial[..t]);
    var c := new Point[t + 1](_ => Infinity);
    c[0] := Mul(party.secret, G);
    var i := 1;
    while i <= t
      invariant 1 <= i <= t + 1
      invariant forall j :: 0 <= j < i ==> c[j] == C[j]
      modifies c
    {
      c[i] := Mul(party.polynomial[i - 1], G);
      i := i + 1;
    }
    assert c[..] == C;
    party.commitments := c;
    status := OpSuccess;
  }

  // ---------------------------------------------------------------------------
  // Share evaluation.

  /** The share for `index`: the key itself when t = 0 (the loop never
      reduces it), otherwise x + Σ a_i·index^i mod n. */
  function ShareValue(secret: nat, poly: seq<nat>, index: nat): nat
  {
    if poly == [] then secret else PowerSum(Coefficients(secret, poly), index, |poly| + 1) % ORDER
  }

  /** One accumulation step: adding the reduced term keeps the running value
      congruent to the power sum. */
  lemma AccumulateTerm(fx: int, s: int, x: int, pw: int, coef: int)
    requires fx % ORDER == s % ORDER && x == pw % ORDER
    ensures (fx + (x * coef) % ORDER) % ORDER == (s + coef * pw) % ORDER
  {
    MulModRight(coef, pw, ORDER);
    assert x * coef == coef * (pw % ORDER);
    ModAdd(fx, (x * coef) % ORDER, ORDER);
    ModIdempotent(x * coef, ORDER);
    ModAdd(s, coef * pw, ORDER);
  }

  /** `mpc_party_evaluate_poly`: WRONG_PARAM on a missing configuration,
      party or share buffer, or for index 0; otherwise the share for
      `shareIndex` is written to the buffer. */
  method EvaluatePoly(params: Option<FeldmanConfig>, party: FeldmanParty?, shareIndex: nat, share: array?<nat>)
      returns (status: FStatus)
    requires shareIndex < 0x1_0000
    requires share != null ==> share.Length == 1
    requires params.Some? && party != null ==> party.polynomial.Length >= params.value.threshold
    requires share != null && party != null ==> share != party.polynomial
    modifies share
    ensures params.None? || party == null || share == null || shareIndex == 0 <==> status == WrongParam
    ensures status == WrongParam && share != null ==> unchanged(share)
    ensures status != WrongParam ==>
      status == OpSuccess && share[0] == ShareValue(party.secret, party.polynomial[..params.value.threshold], shareIndex)
  {
    if params.None? || party == null || share == null || shareIndex == 0 {
      return WrongParam;
    }
    var t := params.value.threshold;
    var c := Coefficients(party.secret, party.polynomial[..t]);
    var fx := party.secret;
    var x := shareIndex;
    ModSmall(shareIndex, ORDER);
    var i := 0;
    while i < t
      invariant 0 <= i <= t
      invariant fx == if i == 0 then party.secret else PowerSum(c, shareIndex, i + 1) % ORDER
      invariant x == Pow(shareIndex, i + 1) % ORDER
    {
      assert fx % ORDER == PowerSum(c, shareIndex, i + 1) % ORDER by {
        if i > 0 {
          ModIdempotent(PowerSum(c, shareIndex, i + 1), ORDER);
        }
      }
      assert c[i + 1] == party.polynomial[i];
      AccumulateTerm(fx, PowerSum(c, shareIndex, i + 1), x, Pow(shareIndex, i + 1), party.polynomial[i]);
      var term := (x * party.polynomial[i]) % ORDER;
      fx := (fx + term) % ORDER;
      MulModRight(shareIndex, Pow(shareIndex, i + 1), ORDER);
      x := (shareIndex * x) % ORDER;
      i := i + 1;
    }
    share[0] := fx;
    status := OpSuccess;
  }

  /** The share is the polynomial x + a_1·X + … + a_t·X^t at the index,
      modulo the order, and fully reduced once t > 0. */
  lemma ShareIsEvaluation(secret: nat, poly: seq<nat>, index: nat)
    ensures ShareValue(secret, poly, index) % ORDER == Horner(Coefficients(secret, poly), index) % ORDER
    ensures poly != [] ==> ShareValue(secret, poly, index) < ORDER
  {
    var c := Coefficients(secret, poly);
    PowerSumIsHorner(c, index);
    if poly == [] {
      assert c == [secret];
      assert Horner(c[1..], index) == 0;
    } else {
      ModIdempotent(PowerSum(c, index, |c|), ORDER);
    }
  }

  // ---------------------------------------------------------------------------
  // `power` and commitment verification.

  /** `power(x, y)`: 1 for y = 0, otherwise the square of power(x, y/2),
      times x when y is odd, each product reduced modulo m.  The prototype
      uses the field prime for m. */
  function Power(x: nat, y: nat, m: nat): nat
    requires m > 0
  {
    if y == 0 then 1
    else
      var t := Power(x, y / 2, m);
      if y % 2 == 0 then (t * t) % m else (x * ((t * t) % m)) % m
  }

  /** Recursive halving computes x^y mod m. */
  lemma {:induction false} PowerIsPow(x: nat, y: nat, m: nat)
    requires m > 1
    ensures Power(x, y, m) == Pow(x, y) % m
    decreases y
  {
    if y == 0 {
      ModSmall(1, m);
    } else {
      PowerIsPow(x, y / 2, m);
      var h := Pow(x, y / 2);
      ModMul(h, h, m);
      PowAdd(x, y / 2, y / 2);
      if y % 2 == 1 {
        assert y - 1 == y / 2 + y / 2;
        MulModRight(x, Pow(x, y - 1), m);
      } else {
        assert y == y / 2 + y / 2;
      }
    }
  }

  /** Σ_{i<k} power(id, i)·C_i, accumulated onto infinity. */
  function CommitSum(C: seq<Point>, id: nat, k: nat, m: nat): Point
    requires k <= |C| && m > 0
  {
    if k == 0 then Infinity else Add(Mul(Power(id, k - 1, m), C[k - 1]), CommitSum(C, id, k - 1, m))
  }

  /** The answer of the verification for commitments C, exponents reduced
      modulo m. */
  function VerifyOutcome(C: seq<Point>, share: nat, id: nat, m: nat): FStatus
    requires m > 0
  {
    if CommitSum(C, id, |C|, m) == MulBase(share) then ValidCommits else InvalidCommits
  }

  /** The accumulation loop of `mpc_party_verify_commitments`. */
  method CombineCommitments(C: array<Point>, id: nat, count: nat, m: nat) returns (res: Point)
    requires count <= C.Length && m > 1
    ensures res == CommitSum(C[..count], id, count, m)
  {
    res := Infinity;
    var i := 0;
    while i < count
      invariant 0 <= i <= count
      invariant res == CommitSum(C[..count], id, i, m)
    {
      var pow := Power(id, i, m);
      var term := Mul(pow, C[i]);
      res := Add(term, res);
      i := i + 1;
    }
  }

  /** `mpc_party_verify_commitments` as written: WRONG_PARAM on a missing
      configuration, commitment list or share; otherwise VALID_COMMITS when
      Σ_{i=0..t} power(id, i)·C_i = share·G with `power` reducing modulo
      the field prime, INVALID_COMMITS otherwise.  It never returns
      success. */
  method VerifyCommitments(params: Option<FeldmanConfig>, self: FeldmanParty, coeffCommits: array?<Point>, share: Option<nat>)
      returns (status: FStatus)
    requires params.Some? && coeffCommits != null ==> params.value.threshold < coeffCommits.Length
    ensures params.None? || coeffCommits == null || share.None? <==> status == WrongParam
    ensures status != WrongParam ==>
      status == VerifyOutcome(coeffCommits[..params.value.threshold + 1], share.value, self.id, FIELD_PRIME)
  {
    if params.None? || coeffCommits == null || share.None? {
      return WrongParam;
    }
    var gShare := Mul(share.value, G);
    var res := CombineCommitments(coeffCommits, self.id, params.value.threshold + 1, FIELD_PRIME);
    assert coeffCommits[..params.value.threshold + 1][..params.value.threshold + 1] == coeffCommits[..params.value.threshold + 1];
    status := if res == gShare then ValidCommits else InvalidCommits;
  }

  /** The verification with `power` reducing modulo the group order, as the
      exponent arithmetic of the commitments requires. */
  method VerifyCommitmentsModOrder(params: Option<FeldmanConfig>, self: FeldmanParty, coeffCommits: array?<Point>, share: Option<nat>)
      returns (status: FStatus)
    requires params.Some? && coeffCommits != null ==> params.value.threshold < coeffCommits.Length
    ensures params.None? || coeffCommits == null || share.None? <==> status == WrongParam
    ensures status != WrongParam ==>
      status == VerifyOutcome(coeffCommits[..params.value.threshold + 1], share.value, self.id, ORDER)
  {
    if params.None? || coeffCommits == null || share.None? {
      return WrongParam;
    }
    var gShare := Mul(share.value, G);
    var res := CombineCommitments(coeffCommits, self.id, params.value.threshold + 1, ORDER);
    assert coeffCommits[..params.value.threshold + 1][..params.value.threshold + 1] == coeffCommits[..params.value.threshold + 1];
    status := if res == gShare then ValidCommits else InvalidCommits;
  }

  // ---------------------------------------------------------------------------
  // Honest shares against honest commitments.

  /** Σ_{i<k} c_i·power(id, i). */
  function WeightedSum(c: seq<nat>, id: nat, k: nat, m: nat): int
    requires k <= |c| && m > 0
  {
    if k == 0 then 0 else WeightedSum(c, id, k - 1, m) + c[k - 1] * Power(id, k - 1, m)
  }

  /** The combination of honest commitments is the weighted coefficient sum
      times G. */
  lemma {:induction false} CommitSumHonest(secret: nat, poly: seq<nat>, id: nat, k: nat, m: nat)
    requires k <= |poly| + 1 && m > 0
    ensures CommitSum(Commitments(secret, poly), id, k, m) == MulBase(WeightedSum(Coefficients(secret, poly), id, k, m))
  {
    var C, c := Commitments(secret, poly), Coefficients(secret, poly);
    if k > 0 {
      CommitSumHonest(secret, poly, id, k - 1, m);
      CommitStep(C[k - 1], CommitSum(C, id, k - 1, m), Power(id, k - 1, m), c[k - 1], WeightedSum(c, id, k - 1, m));
    }
  }

  /** One term of the combination: e·(c·G) + w·G = (w + c·e)·G. */
  lemma CommitStep(P: Point, Q: Point, e: int, c: int, w: int)
    requires P == MulBase(c) && Q == MulBase(w)
    ensures Add(Mul(e, P), Q) == MulBase(w + c * e)
  {
    MulOfBase(e, c);
    AddBases(e * c, w);
    assert e * c + w == w + c * e;
  }

  /** With exponents modulo the order, the weighted sum is the power sum
      modulo the order. */
  lemma {:induction false} WeightedSumModOrder(c: seq<nat>, id: nat, k: nat)
    requires k <= |c|
    ensures WeightedSum(c, id, k, ORDER) % ORDER == PowerSum(c, id, k) % ORDER
  {
    if k > 0 {
      WeightedSumModOrder(c, id, k - 1);
      PowerIsPow(id, k - 1, ORDER);
      MulModRight(c[k - 1], Pow(id, k - 1), ORDER);
      ModAdd(WeightedSum(c, id, k - 1, ORDER), c[k - 1] * Power(id, k - 1, ORDER), ORDER);
      ModAdd(PowerSum(c, id, k - 1), c[k - 1] * Pow(id, k - 1), ORDER);
    }
  }

  /** An honest share verifies against honest commitments when the powers
      are reduced modulo the order, for every key, coefficient list and id. */
  lemma HonestShareVerifies(secret: nat, poly: seq<nat>, id: nat)
    ensures VerifyOutcome(Commitments(secret, poly), ShareValue(secret, poly, id), id, ORDER) == ValidCommits
  {
    var c := Coefficients(secret, poly);
    CommitSumHonest(secret, poly, id, |c|, ORDER);
    WeightedSumModOrder(c, id, |c|);
    MulBaseInjective(WeightedSum(c, id, |c|, ORDER), ShareValue(secret, poly, id));
    if poly != [] {
      ModIdempotent(PowerSum(c, id, |c|), ORDER);
    } else {
      assert PowerSum(c, id, 1) == secret;
    }
  }

  lemma {:induction false} PowBounds(x: nat, i: nat, j: nat)
    requires x >= 1 && i <= j
    ensures 1 <= Pow(x, i) <= Pow(x, j)
    decreases j
  {
    if j > 0 {
      PowBounds(x, if i < j then i else j - 1, j - 1);
      assert Pow(x, j) == Pow(x, j - 1) * x;
      MulAtLeast(Pow(x, j - 1), x);
    }
  }

  /** While every power id^i (i ≤ t) stays below the field prime, reducing
      modulo the prime changes nothing and honest shares verify. */
  lemma HonestShareVerifiesBelowPrime(secret: nat, poly: seq<nat>, id: nat)
    requires 1 <= id && Pow(id, |poly|) < FIELD_PRIME
    ensures VerifyOutcome(Commitments(secret, poly), ShareValue(secret, poly, id), id, FIELD_PRIME) == ValidCommits
  {
    var c := Coefficients(secret, poly);
    CommitSumHonest(secret, poly, id, |c|, FIELD_PRIME);
    WeightedSumBelowPrime(c, id, |c|);
    HonestShareVerifies(secret, poly, id);
    CommitSumHonest(secret, poly, id, |c|, ORDER);
    WeightedSumModOrder(c, id, |c|);
    MulBaseInjective(WeightedSum(c, id, |c|, ORDER), WeightedSum(c, id, |c|, FIELD_PRIME));
  }

  lemma {:induction false} WeightedSumBelowPrime(c: seq<nat>, id: nat, k: nat)
    requires 1 <= id && 0 < |c| && k <= |c| && Pow(id, |c| - 1) < FIELD_PRIME
    ensures WeightedSum(c, id, k, FIELD_PRIME) == PowerSum(c, id, k)
  {
    if k > 0 {
      WeightedSumBelowPrime(c, id, k - 1);
      PowerIsPow(id, k - 1, FIELD_PRIME);
      PowBounds(id, k - 1, |c| - 1);
      ModSmall(Pow(id, k - 1), FIELD_PRIME);
    }
  }

  /** The prototype's own run (dkg-c/src/main.c): with t = 2 the share of
      party 1 for index 2 verifies at party 2. */
  lemma DriverShareVerifies(secret: nat, poly: seq<nat>)
    requires |poly| == THRESHOLD
    ensures VerifyOutcome(Commitments(secret, poly), ShareValue(secret, poly, 2), 2, FIELD_PRIME) == ValidCommits
  {
    assert Pow(2, 2) == 4;
    HonestShareVerifiesBelowPrime(secret, poly, 2);
  }

  // ---------------------------------------------------------------------------
  // Reducing modulo the field prime rejects an honest share.

  /** t = 33 coefficients all zero except a_33 = 1. */
  function TopOnly(): (poly: seq<nat>)
    ensures |poly| == 33 && poly[32] == 1 && forall i :: 0 <= i < 32 ==> poly[i] == 0
  {
    seq(33, i requires 0 <= i < 33 => if i == 32 then 1 else 0)
  }

  lemma {:induction false} SumsOfTopOnly(c: seq<nat>, x: nat, k: nat, m: nat)
    requires k <= |c| && m > 0
    requires forall i :: 0 <= i < k && i < |c| - 1 ==> c[i] == 0
    ensures k < |c| ==> WeightedSum(c, x, k, m) == 0 && PowerSum(c, x, k) == 0
    ensures k == |c| && k > 0 ==>
      WeightedSum(c, x, k, m) == c[k - 1] * Power(x, k - 1, m) && PowerSum(c, x, k) == c[k - 1] * Pow(x, k - 1)
  {
    if k > 0 {
      SumsOfTopOnly(c, x, k - 1, m);
    }
  }

  /** 255^33, built by squaring. */
  lemma Pow255At33()
    ensures Pow(255, 33) == 26051093302187830628171353798238311287264159056815938284969888627529144287109375
  {
    assert Pow(255, 1) == 255;
    PowAdd(255, 1, 1);
    PowAdd(255, 2, 2);
    PowAdd(255, 4, 4);
    PowAdd(255, 8, 8);
    PowAdd(255, 16, 16);
    PowAdd(255, 32, 1);
  }

  /** Party 255 rejects the honest share of a polynomial with t = 33
      coefficients (all zero but the last) under the prototype's `power`:
      255^33 exceeds the field prime, and (255^33 mod p)·G ≠ 255^33·G. */
  lemma PrimeReductionRejectsHonestShare()
    ensures VerifyOutcome(Commitments(0, TopOnly()), ShareValue(0, TopOnly(), 255), 255, FIELD_PRIME) == InvalidCommits
    ensures VerifyOutcome(Commitments(0, TopOnly()), ShareValue(0, TopOnly(), 255), 255, ORDER) == ValidCommits
  {
    var poly := TopOnly();
    var c := Coefficients(0, poly);
    assert c[33] == 1;
    CommitSumHonest(0, poly, 255, 34, FIELD_PRIME);
    SumsOfTopOnly(c, 255, 34, FIELD_PRIME);
    PowerIsPow(255, 33, FIELD_PRIME);
    Pow255At33();
    var L := 26051093302187830628171353798238311287264159056815938284969888627529144287109375;
    assert WeightedSum(c, 255, 34, FIELD_PRIME) == L % FIELD_PRIME;
    assert ShareValue(0, poly, 255) == L % ORDER;
    assert (L % FIELD_PRIME) % ORDER != L % ORDER;
    MulBaseInjective(L % FIELD_PRIME, L % ORDER);
    ModIdempotent(L, ORDER);
    HonestShareVerifies(0, poly, 255);
  }

  // ---------------------------------------------------------------------------
  // `private_to_public_key`.

  predicate IsBytes(s: seq<nat>)
  {
    forall i :: 0 <= i < |s| ==> s[i] < 256
  }

  /** The number a big-endian byte string denotes. */
  function BigEndian(s: seq<nat>): nat
  {
    if s == [] then 0 else BigEndian(s[..|s| - 1]) * 256 + s[|s| - 1]
  }

  /** Bit j of the big-endian string: bit j mod 8 of byte |s| − 1 − j/8. */
  predicate ScalarBit(s: seq<nat>, j: nat)
    requires j < 8 * |s|
  {
    TestBit(s[|s| - 1 - j / 8], j % 8)
  }

  /** Σ_{j<k} 2^j over the set bits among the k lowest. */
  function ScanSum(s: seq<nat>, k: nat): nat
    requires k <= 8 * |s|
  {
    if k == 0 then 0 else ScanSum(s, k - 1) + (if ScalarBit(s, k - 1) then Pow2(k - 1) else 0)
  }

  /** y mod 2^(k+1) adds bit k to y mod 2^k. */
  lemma ModPow2Step(y: nat, k: nat)
    ensures y % Pow2(k + 1) == y % Pow2(k) + (if TestBit(y, k) then Pow2(k) else 0)
  {
    var a := Pow2(k);
    var q, r := y / a, y % a;
    ShrIsDiv(y, k);
    SplitQuotient(y, a, q, r, q / 2, q % 2);
    ModUnique(y, 2 * a, q / 2, a * (q % 2) + r);
  }

  /** y = a·q + r with q = 2·h + b is a division by 2a with remainder a·b + r. */
  lemma SplitQuotient(y: int, a: int, q: int, r: int, h: int, b: int)
    requires a > 0 && y == a * q + r && 0 <= r < a && q == 2 * h + b && 0 <= b < 2
    ensures y == (2 * a) * h + (a * b + r) && 0 <= a * b + r < 2 * a
  {
    assert a * q == (2 * a) * h + a * b;
  }

  /** The bits below 8 read the last byte. */
  lemma LowBit(s: seq<nat>, j: nat)
    requires |s| > 0 && j < 8
    ensures ScalarBit(s, j) == TestBit(s[|s| - 1], j)
  {
    assert j / 8 == 0 && j % 8 == j;
  }

  lemma {:induction false} ScanSumLastByte(s: seq<nat>, k: nat)
    requires |s| > 0 && k <= 8
    ensures ScanSum(s, k) == s[|s| - 1] % Pow2(k)
  {
    if k > 0 {
      ScanSumLastByte(s, k - 1);
      LowBit(s, k - 1);
      ModPow2Step(s[|s| - 1], k - 1);
    }
  }

  /** Bit 8 + j of s is bit j of s without its last byte. */
  lemma HighBit(s: seq<nat>, j: nat)
    requires |s| > 0 && j < 8 * (|s| - 1)
    ensures ScalarBit(s, 8 + j) == ScalarBit(s[..|s| - 1], j)
  {
    assert (8 + j) / 8 == 1 + j / 8 && (8 + j) % 8 == j % 8;
  }

  lemma ShiftStep(v: int, u: int, w: int, x: int, p: int)
    requires v == x + 256 * u && w == u + p
    ensures v + 256 * p == x + 256 * w
  {
  }

  lemma {:induction false} ScanSumShift(s: seq<nat>, k: nat)
    requires |s| > 0 && k <= 8 * (|s| - 1)
    ensures ScanSum(s, 8 + k) == ScanSum(s, 8) + 256 * ScanSum(s[..|s| - 1], k)
  {
    var t := s[..|s| - 1];
    if k > 0 {
      ScanSumShift(s, k - 1);
      HighBit(s, k - 1);
      Pow2Add(8, k - 1);
      assert Pow2(8) == 256;
      var p := if ScalarBit(t, k - 1) then Pow2(k - 1) else 0;
      assert (if ScalarBit(s, 8 + (k - 1)) then Pow2(8 + (k - 1)) else 0) == 256 * p;
      ShiftStep(ScanSum(s, 8 + (k - 1)), ScanSum(t, k - 1), ScanSum(t, k), ScanSum(s, 8), p);
    }
  }

  /** Scanning all 8·|s| bits recovers the big-endian value. */
  lemma {:induction false} ScanSumBigEndian(s: seq<nat>)
    requires IsBytes(s)
    ensures ScanSum(s, 8 * |s|) == BigEndian(s)
    decreases |s|
  {
    if s != [] {
      var t := s[..|s| - 1];
      ScanSumBigEndian(t);
      ScanSumShift(s, 8 * |t|);
      ScanSumLastByte(s, 8);
      assert Pow2(8) == 256;
      ModSmall(s[|s| - 1], 256);
    }
  }

  /** i in 255..0 reads bit 255 − i: byte i/8, bit 7 − i mod 8. */
  lemma BitPosition(s: seq<nat>, i: int)
    requires |s| == 32 && 0 <= i <= 255
    ensures ScalarBit(s, 255 - i) == TestBit(s[i / 8], 7 - i % 8)
  {
    assert (255 - i) / 8 == 31 - i / 8 && (255 - i) % 8 == 7 - i % 8;
  }

  /** `private_to_public_key`: double-and-add over the 256 bits, least
      significant first, yields k·G for the big-endian scalar k. */
  method PrivateToPublicKey(priv: seq<nat>) returns (pub: Point)
    requires |priv| == 32 && IsBytes(priv)
    ensures pub == MulBase(BigEndian(priv))
  {
    var R := Infinity;
    var temp := G;
    var i: int := 255;
    while i >= 0
      invariant -1 <= i <= 255
      invariant temp == MulBase(Pow2(255 - i)) && R == MulBase(ScanSum(priv, 255 - i))
    {
      var offset := i / 8;
      var bit := 7 - i % 8;
      BitPosition(priv, i);
      if TestBit(priv[offset], bit) {
        AddBases(Pow2(255 - i), ScanSum(priv, 255 - i));
        R := Add(temp, R);
      }
      AddBases(Pow2(255 - i), Pow2(255 - i));
      temp := Add(temp, temp);
      i := i - 1;
    }
    ScanSumBigEndian(priv);
    pub := R;
  }
}
