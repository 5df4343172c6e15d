/** Polynomials with integer coefficients, lowest degree first: c[i] is the
    coefficient of x^i.  `PowerSum` is what the evaluation loops compute
    (a running sum of c[i]·x^i); `Horner` is an independent reference
    evaluation.  The two agree. */
module Poly {
  import opened ModArith

  /** Σ_{j < i} c[j]·x^j. */
  function PowerSum(c: seq<int>, x: int, i: nat): int
    requires i <= |c|
  {
    if i == 0 then 0 else PowerSum(c, x, i - 1) + c[i - 1] * Pow(x, i - 1)
  }

  /** c(x) by Horner's rule. */
  function Horner(c: seq<int>, x: int): int
  {
    if c == [] then 0 else c[0] + x * Horner(c[1..], x)
  }

  /** Coefficient-wise sum, the shorter polynomial padded with zeros. */
  function AddPoly(c: seq<int>, d: seq<int>): seq<int>
  {
    if c == [] then d
    else if d == [] then c
    else [c[0] + d[0]] + AddPoly(c[1..], d[1..])
  }

  lemma PowerSumShift(c: seq<int>, x: int, i: nat)
    requires 1 <= i <= |c|
    ensures PowerSum(c, x, i) == c[0] + x * PowerSum(c[1..], x, i - 1)
    decreases i
  {
    if i > 1 {
      PowerSumShift(c, x, i - 1);
      var t := c[1..];
      assert c[i - 1] == t[i - 2];
      assert Pow(x, i - 1) == x * Pow(x, i - 2);
      assert c[i - 1] * Pow(x, i - 1) == x * (t[i - 2] * Pow(x, i - 2));
    }
  }

  /** The power sum over all coefficients is the Horner evaluation. */
  lemma {:induction false} PowerSumIsHorner(c: seq<int>, x: int)
    ensures PowerSum(c, x, |c|) == Horner(c, x)
    decreases |c|
  {
    if c != [] {
      PowerSumShift(c, x, |c|);
      PowerSumIsHorner(c[1..], x);
    }
  }

  /** A polynomial evaluated at zero is its constant coefficient. */
  lemma HornerAtZero(c: seq<int>)
    requires |c| > 0
    ensures Horner(c, 0) == c[0]
  {
  }

  /** Evaluation is additive in the coefficients. */
  lemma {:induction false} HornerAdd(c: seq<int>, d: seq<int>, x: int)
    ensures Horner(AddPoly(c, d), x) == Horner(c, x) + Horner(d, x)
    ensures |AddPoly(c, d)| == if |c| >= |d| then |c| else |d|
    decreases |c|
  {
    if c != [] && d != [] {
      HornerAdd(c[1..], d[1..], x);
      var s := AddPoly(c, d);
      assert s[1..] == AddPoly(c[1..], d[1..]);
    }
  }

  /** Reducing the coefficients modulo d does not change the value modulo d. */
  lemma {:induction false} HornerModCoefficients(c: seq<int>, r: seq<int>, x: int, d: int)
    requires d > 0 && |c| == |r|
    requires forall i :: 0 <= i < |c| ==> r[i] % d == c[i] % d
    ensures Horner(r, x) % d == Horner(c, x) % d
    decreases |c|
  {
    if c != [] {
      HornerModCoefficients(c[1..], r[1..], x, d);
      var hc, hr := Horner(c[1..], x), Horner(r[1..], x);
      ModMul(x, hc, d);
      ModMul(x, hr, d);
      ModAdd(c[0], x * hc, d);
      ModAdd(r[0], x * hr, d);
    }
  }
}
