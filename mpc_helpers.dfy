/** Shamir secret sharing helpers: random coefficients, evaluation of a
    polynomial modulo the curve order, and Lagrange interpolation over the
    nodes 1..t+1, both on scalars and "in the exponent" on points. */
module MpcHelpers {
  import opened ModArith
  import opened Curve
  import opened Poly
  import opened Lagrange
  import Config

  // ---------------------------------------------------------------------------
  // Coefficient generation by rejection sampling.

  /** The random draws a rejection loop keeps: those below the bound, in order. */
  function Accepted(draws: seq<nat>, bound: nat): seq<nat>
  {
    if draws == [] then []
    else (if draws[0] < bound then [draws[0]] else []) + Accepted(draws[1..], bound)
  }

  lemma {:induction false} AcceptedAppend(a: seq<nat>, b: seq<nat>, bound: nat)
    ensures Accepted(a + b, bound) == Accepted(a, bound) + Accepted(b, bound)
    decreases |a|
  {
    if a != [] {
      assert (a + b)[0] == a[0];
      assert (a + b)[1..] == a[1..] + b;
      AcceptedAppend(a[1..], b, bound);
      var h := if a[0] < bound then [a[0]] else [];
      assert a + b != [];
      assert Accepted(a, bound) == h + Accepted(a[1..], bound);
      assert Accepted(a + b, bound) == h + Accepted(a[1..] + b, bound);
      assert h + (Accepted(a[1..], bound) + Accepted(b, bound))
          == (h + Accepted(a[1..], bound)) + Accepted(b, bound);
    } else {
      assert a + b == b;
    }
  }

  /** Every kept draw is below the bound and is one of the draws; draws below
      the bound are all kept. */
  lemma {:induction false} AcceptedMeaning(draws: seq<nat>, bound: nat)
    ensures forall v :: v in Accepted(draws, bound) <==> v in draws && v < bound
    decreases |draws|
  {
    if draws != [] {
      AcceptedMeaning(draws[1..], bound);
      assert draws == [draws[0]] + draws[1..];
    }
  }

  /** `gen_polynomial_coeff`: fills the first coeffCount slots with the first
      coeffCount draws below the order.  A draw that is too large is written
      into the slot and then overwritten by the next draw, never reduced.
      `draws` are the successive outputs of the random source; the caller must
      supply enough acceptable ones. */
  method GenPolynomialCoeff(coeffCount: nat, coeffArray: array<nat>, draws: seq<nat>)
    requires 0 < coeffCount <= coeffArray.Length
    requires |Accepted(draws, ORDER)| >= coeffCount
    modifies coeffArray
    ensures coeffArray[..coeffCount] == Accepted(draws, ORDER)[..coeffCount]
    ensures forall i :: 0 <= i < coeffCount ==> coeffArray[i] < ORDER
    ensures coeffArray[coeffCount..] == old(coeffArray[coeffCount..])
  {
    var i := 0;
    var d := 0;
    while i < coeffCount
      invariant 0 <= i <= coeffCount && 0 <= d <= |draws|
      invariant coeffArray[..i] == Accepted(draws[..d], ORDER)
      invariant Accepted(draws, ORDER) == Accepted(draws[..d], ORDER) + Accepted(draws[d..], ORDER)
      invariant coeffArray[coeffCount..] == old(coeffArray[coeffCount..])
      decreases |draws| - d
    {
      if d == |draws| {
        assert false;
      }
      coeffArray[i] := draws[d];
      AcceptedAppend(draws[..d], [draws[d]], ORDER);
      assert draws[..d + 1] == draws[..d] + [draws[d]];
      assert Accepted([draws[d]], ORDER) == if draws[d] < ORDER then [draws[d]] else [];
      AcceptedAppend(draws[..d + 1], draws[d + 1..], ORDER);
      assert draws[..d + 1] + draws[d + 1..] == draws;
      if !(coeffArray[i] < ORDER) {
        d := d + 1;
        continue;
      }
      assert coeffArray[..i + 1] == coeffArray[..i] + [draws[d]];
      i := i + 1;
      d := d + 1;
    }
    AcceptedMeaning(draws, ORDER);
    forall k | 0 <= k < coeffCount
      ensures coeffArray[k] < ORDER
    {
      assert coeffArray[k] == coeffArray[..coeffCount][k] == Accepted(draws, ORDER)[k];
      assert Accepted(draws, ORDER)[k] in Accepted(draws, ORDER);
    }
  }

  // ---------------------------------------------------------------------------
  // Polynomial evaluation.

  /** `evaluate_polynomial`: the argument is the degree, so coefficients
      coeff[0..degree] are read, and the result is their polynomial at x,
      reduced modulo the order.  The running power of x starts at 1. */
  method EvaluatePolynomial(coeff: array<nat>, degree: nat, x: nat) returns (fx: nat)
    requires degree < coeff.Length
    ensures fx == Horner(coeff[..degree + 1], x) % ORDER
  {
    ghost var c: seq<int> := coeff[..degree + 1];
    var xPow: nat := 1;
    fx := 0;
    var i := 0;
    while i <= degree
      invariant 0 <= i <= degree + 1
      invariant fx == PowerSum(c, x, i) % ORDER
      invariant xPow == Pow(x, i) % ORDER
    {
      var term := (coeff[i] * xPow) % ORDER;
      EvaluationStep(c, x, i, fx, xPow);
      fx := (fx + term) % ORDER;
      xPow := (x * xPow) % ORDER;
      i := i + 1;
    }
    PowerSumIsHorner(c, x);
  }

  /** One iteration of the evaluation loop keeps the running sum and power
      reduced modulo the order. */
  lemma EvaluationStep(c: seq<int>, x: nat, i: nat, fx: int, xPow: int)
    requires i < |c| && fx == PowerSum(c, x, i) % ORDER && xPow == Pow(x, i) % ORDER
    ensures (fx + (c[i] * xPow) % ORDER) % ORDER == PowerSum(c, x, i + 1) % ORDER
    ensures (x * xPow) % ORDER == Pow(x, i + 1) % ORDER
  {
    MulModRight(c[i], Pow(x, i), ORDER);
    ModAdd(PowerSum(c, x, i), c[i] * Pow(x, i), ORDER);
    ModIdempotent(c[i] * Pow(x, i), ORDER);
    ModIdempotent(PowerSum(c, x, i), ORDER);
    MulModRight(x, Pow(x, i), ORDER);
  }

  /** At x = 0 the evaluation is the constant coefficient. */
  lemma EvaluateAtZero(c: seq<int>)
    requires |c| > 0
    ensures Horner(c, 0) % ORDER == c[0] % ORDER
  {
    HornerAtZero(c);
  }

  // ---------------------------------------------------------------------------
  // Lagrange terms.

  /** λ as passed through `bn_read_uint32(|λ|)`: the magnitude truncated to
      32 bits, with the sign restored afterwards. */
  function Lambda32(l: int): (r: int)
    ensures Abs(l) < 0x1_0000_0000 ==> r == l
    ensures Abs(r) < 0x1_0000_0000
  {
    if l < 0 then -(Abs(l) % 0x1_0000_0000) else l % 0x1_0000_0000
  }

  /** The num/den loop and the division shared by both term helpers: the
      integer λ of node xCord at the evaluation point ip.  The requirement is
      the assertion the source makes before dividing. */
  method LagrangeLambda(xCord: nat, ip: nat, t: nat) returns (lambda: int)
    requires Exact(t, xCord, ip)
    ensures lambda == Lambda(t, xCord, ip)
  {
    var num, den := 1, 1;
    var m := 0;
    while m <= t
      invariant 0 <= m <= t + 1
      invariant num == NodeProd(m, xCord, ip) && den == NodeProd(m, xCord, xCord)
    {
      if m + 1 != xCord {
        num := (m + 1 - ip) * num;
        den := (m + 1 - xCord) * den;
      }
      m := m + 1;
    }
    assert CMod(num, den) == 0;
    lambda := CDiv(num, den);
  }

  /** `evaluate_lagarange_term`: λ·point modulo the order, a negative λ
      handled as 0 − |λ|·point. */
  method EvaluateLagrangeTerm(point: nat, xCord: nat, ip: nat, t: nat) returns (result: nat)
    requires Exact(t, xCord, ip)
    ensures result < ORDER
    ensures result == (Lambda32(Lambda(t, xCord, ip)) * point) % ORDER
  {
    var num := LagrangeLambda(xCord, ip, t);
    var lambda: nat := Abs(num) % 0x1_0000_0000;
    ghost var m := lambda;
    lambda := (point * lambda) % ORDER;
    result := lambda;
    if num < 0 {
      result := (0 - lambda) % ORDER;
    }
    TermCases(point, num, m, result);
    result := result % ORDER;
  }

  /** Both signs of λ give λ·point modulo the order. */
  lemma TermCases(point: nat, num: int, m: nat, result: int)
    requires m == Abs(num) % 0x1_0000_0000
    requires result == if num < 0 then (0 - (point * m) % ORDER) % ORDER else (point * m) % ORDER
    ensures result == (Lambda32(num) * point) % ORDER && result % ORDER == result
  {
    if num < 0 {
      NegatedTerm(point, m, Lambda32(num));
    } else {
      assert Lambda32(num) == m;
      assert point * m == m * point;
    }
    ModIdempotent(Lambda32(num) * point, ORDER);
  }

  lemma NegatedTerm(point: nat, m: nat, l: int)
    requires l == -(m as int)
    ensures (0 - (point * m) % ORDER) % ORDER == (l * point) % ORDER
  {
    ModSub(0, point * m, ORDER);
    ModIdempotent(point * m, ORDER);
    assert 0 - point * m == l * point;
  }

  /** `evaluate_exp_lagarange_term`: λ·P, with λ reduced into the order first. */
  method EvaluateExpLagrangeTerm(point: Point, xCord: nat, ip: nat, t: nat) returns (result: Point)
    requires Exact(t, xCord, ip)
    ensures result == Mul(Lambda32(Lambda(t, xCord, ip)), point)
  {
    var num := LagrangeLambda(xCord, ip, t);
    var lambda: int := Abs(num) % 0x1_0000_0000;
    var temp := lambda;
    if num < 0 {
      lambda := (0 - temp) % ORDER;
    }
    MulReduced(lambda, point);
    MulReduced(Lambda32(num), point);
    lambda := lambda % ORDER;
    result := Mul(lambda, point);
  }

  // ---------------------------------------------------------------------------
  // Interpolation.

  /** Σ_{i<k} λ_{xCords[i]}(ip)·points[i] with each λ as the helpers use it. */
  function TermSum(points: seq<int>, xCords: seq<nat>, ip: nat, t: nat, k: nat): int
    requires k <= |points| && k <= |xCords|
  {
    if k == 0 then 0
    else TermSum(points, xCords, ip, t, k - 1) + Lambda32(Lambda(t, xCords[k - 1], ip)) * points[k - 1]
  }

  function Dlogs(ps: seq<Point>): seq<int>
  {
    seq(|ps|, i requires 0 <= i < |ps| => ps[i].dlog)
  }

  /** `lagarange_interpolate`: the sum of the t+1 Lagrange terms modulo the
      order. */
  method LagrangeInterpolate(points: seq<nat>, xCords: seq<nat>, ip: nat, t: nat) returns (result: nat)
    requires |points| > t && |xCords| > t
    requires forall i :: 0 <= i <= t ==> Exact(t, xCords[i], ip)
    ensures result == TermSum(points, xCords, ip, t, t + 1) % ORDER
  {
    result := 0;
    var i := 0;
    while i <= t
      invariant 0 <= i <= t + 1
      invariant result == TermSum(points, xCords, ip, t, i) % ORDER
    {
      var term := EvaluateLagrangeTerm(points[i], xCords[i], ip, t);
      ghost var prev := TermSum(points, xCords, ip, t, i);
      ghost var tv := Lambda32(Lambda(t, xCords[i], ip)) * points[i];
      ModAdd(prev, tv, ORDER);
      ModIdempotent(prev, ORDER);
      ModIdempotent(tv, ORDER);
      result := (result + term) % ORDER;
      i := i + 1;
    }
  }

  /** `lagarange_exp_interpolate`: starting from the point at infinity, adds
      the t+1 terms λ_i·P_i.  The result is the scalar interpolation of the
      discrete logarithms, times G. */
  method LagrangeExpInterpolate(points: seq<Point>, xCords: seq<nat>, ip: nat, t: nat) returns (result: Point)
    requires |points| > t && |xCords| > t
    requires forall i :: 0 <= i <= t ==> Exact(t, xCords[i], ip)
    ensures result == MulBase(TermSum(Dlogs(points), xCords, ip, t, t + 1))
  {
    result := Infinity;
    var i := 0;
    while i <= t
      invariant 0 <= i <= t + 1
      invariant result == MulBase(TermSum(Dlogs(points), xCords, ip, t, i))
    {
      var term := EvaluateExpLagrangeTerm(points[i], xCords[i], ip, t);
      ghost var l := Lambda32(Lambda(t, xCords[i], ip));
      ghost var d := points[i].dlog;
      assert Dlogs(points)[i] == d;
      ModSmall(d, ORDER);
      assert points[i] == MulBase(d);
      MulOfBase(l, d);
      AddBases(l * d, TermSum(Dlogs(points), xCords, ip, t, i));
      result := Add(term, result);
      i := i + 1;
    }
  }

  // ---------------------------------------------------------------------------
  // Correctness of interpolation.

  /** Every λ over the nodes 1..t+1 at ip survives the 32-bit transfer. */
  predicate LambdasFit(t: nat, ip: nat)
  {
    forall i :: 1 <= i <= t + 1 ==> Abs(Lambda(t, i, ip)) < 0x1_0000_0000
  }

  /** The nodes 1..t+1 as the callers pass them. */
  predicate StandardNodes(xCords: seq<nat>, t: nat)
  {
    |xCords| > t && forall i :: 0 <= i <= t ==> xCords[i] == i + 1
  }

  /** 1, 2, …, t+1. */
  function NodeCords(t: nat): (xs: seq<nat>)
    ensures StandardNodes(xs, t)
  {
    seq(t + 1, i requires 0 <= i < t + 1 => i + 1)
  }

  /** What `lagarange_exp_interpolate` computes over the nodes 1..t+1. */
  function ExpInterpolation(points: seq<Point>, ip: nat, t: nat): Point
    requires |points| > t
  {
    MulBase(TermSum(Dlogs(points), NodeCords(t), ip, t, t + 1))
  }

  /** With the standard nodes the assertion before each division holds. */
  lemma StandardNodesExact(xCords: seq<nat>, t: nat, ip: nat)
    requires StandardNodes(xCords, t)
    ensures forall i :: 0 <= i <= t ==> Exact(t, xCords[i], ip)
  {
    forall i | 0 <= i <= t
      ensures Exact(t, xCords[i], ip)
    {
      LambdaExact(t, i + 1, ip);
    }
  }

  lemma {:induction false} TermSumIsWeightedSum(c: seq<int>, points: seq<int>, xCords: seq<nat>, ip: nat, t: nat, k: nat)
    requires k <= t + 1 && |points| > t && StandardNodes(xCords, t) && LambdasFit(t, ip)
    requires forall i :: 0 <= i <= t ==> points[i] % ORDER == Horner(c, i + 1) % ORDER
    ensures TermSum(points, xCords, ip, t, k) % ORDER == WeightedSum(c, t, ip, k) % ORDER
    decreases k
  {
    if k > 0 {
      TermSumIsWeightedSum(c, points, xCords, ip, t, k - 1);
      var l := Lambda(t, k, ip);
      assert xCords[k - 1] == k;
      assert Lambda32(l) == l;
      var a, b := TermSum(points, xCords, ip, t, k - 1), WeightedSum(c, t, ip, k - 1);
      MulModRight(l, points[k - 1], ORDER);
      MulModRight(l, Horner(c, k), ORDER);
      ModAdd(a, l * points[k - 1], ORDER);
      ModAdd(b, l * Horner(c, k), ORDER);
    }
  }

  /** Interpolating the shares f(1), …, f(t+1) of a polynomial f with at most
      t+1 coefficients gives f(ip) modulo the order. */
  lemma InterpolationRecovers(c: seq<int>, points: seq<int>, xCords: seq<nat>, ip: nat, t: nat)
    requires |c| <= t + 1 && |points| > t && StandardNodes(xCords, t) && LambdasFit(t, ip)
    requires forall i :: 0 <= i <= t ==> points[i] % ORDER == Horner(c, i + 1) % ORDER
    ensures TermSum(points, xCords, ip, t, t + 1) % ORDER == Horner(c, ip) % ORDER
  {
    TermSumIsWeightedSum(c, points, xCords, ip, t, t + 1);
    Interpolation(c, t, ip);
  }

  /** The interpolation sums of congruent values are congruent. */
  lemma {:induction false} TermSumCongruent(a: seq<int>, b: seq<int>, xCords: seq<nat>, ip: nat, t: nat, k: nat)
    requires k <= |a| && k <= |b| && k <= |xCords|
    requires forall i :: 0 <= i < k ==> a[i] % ORDER == b[i] % ORDER
    ensures TermSum(a, xCords, ip, t, k) % ORDER == TermSum(b, xCords, ip, t, k) % ORDER
    decreases k
  {
    if k > 0 {
      TermSumCongruent(a, b, xCords, ip, t, k - 1);
      var l := Lambda32(Lambda(t, xCords[k - 1], ip));
      MulModRight(l, a[k - 1], ORDER);
      MulModRight(l, b[k - 1], ORDER);
      ModAdd(TermSum(a, xCords, ip, t, k - 1), l * a[k - 1], ORDER);
      ModAdd(TermSum(b, xCords, ip, t, k - 1), l * b[k - 1], ORDER);
    }
  }

  /** Interpolation in the exponent commutes with multiplying by G: for the
      points y_i·G it is (the scalar interpolation of the y_i)·G. */
  lemma ExpInterpolationCommutes(points: seq<Point>, ys: seq<int>, xCords: seq<nat>, ip: nat, t: nat)
    requires |points| > t && |ys| > t && |xCords| > t
    requires forall i :: 0 <= i <= t ==> points[i] == MulBase(ys[i])
    ensures MulBase(TermSum(Dlogs(points), xCords, ip, t, t + 1))
         == MulBase(TermSum(ys, xCords, ip, t, t + 1) % ORDER)
  {
    var ds := Dlogs(points);
    forall i | 0 <= i <= t
      ensures ds[i] % ORDER == ys[i] % ORDER
    {
      MulBaseDlog(ys[i]);
      ModSmall(ds[i], ORDER);
    }
    TermSumCongruent(ds, ys, xCords, ip, t, t + 1);
    MulBaseInjective(TermSum(ds, xCords, ip, t, t + 1), TermSum(ys, xCords, ip, t, t + 1) % ORDER);
    ModIdempotent(TermSum(ys, xCords, ip, t, t + 1), ORDER);
  }

  /** In exponent form: interpolating the public shares f(i)·G at ip gives
      f(ip)·G. */
  lemma ExpInterpolationRecovers(c: seq<int>, points: seq<Point>, xCords: seq<nat>, ip: nat, t: nat)
    requires |c| <= t + 1 && |points| > t && StandardNodes(xCords, t) && LambdasFit(t, ip)
    requires forall i :: 0 <= i <= t ==> points[i] == MulBase(Horner(c, i + 1))
    ensures MulBase(TermSum(Dlogs(points), xCords, ip, t, t + 1)) == MulBase(Horner(c, ip))
  {
    var ds := Dlogs(points);
    forall i | 0 <= i <= t
      ensures ds[i] % ORDER == Horner(c, i + 1) % ORDER
    {
      MulBaseDlog(Horner(c, i + 1));
      ModSmall(ds[i], ORDER);
    }
    InterpolationRecovers(c, ds, xCords, ip, t);
    MulBaseInjective(TermSum(ds, xCords, ip, t, t + 1), Horner(c, ip));
  }

  lemma CubeBound(b: nat)
    requires b <= 258
    ensures Pow(b, 3) <= 17173512
  {
    assert Pow(b, 1) == b;
    assert Pow(b, 2) == b * b;
    assert Pow(b, 3) == b * (b * b);
    MulAbsBound(b, b, 258, 258);
    MulAbsBound(b, b * b, 258, 66564);
  }

  /** With the configured threshold every λ at a party index up to 255 fits
      into 32 bits: |λ| ≤ 258³. */
  lemma ConfigLambdasFit(ip: nat)
    requires ip <= 255
    ensures LambdasFit(Config.THRESHOLD, ip)
  {
    forall i | 1 <= i <= Config.THRESHOLD + 1
      ensures Abs(Lambda(Config.THRESHOLD, i, ip)) < 0x1_0000_0000
    {
      LambdaBound(Config.THRESHOLD, i, ip);
      CubeBound(ip + 3);
    }
  }
}
