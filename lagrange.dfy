/** Lagrange coefficients over the fixed node set 1..t+1, as the interpolation
    helpers compute them: for node i and evaluation point x,

        λ_i(x) = Π_{m=1..t+1, m≠i} (m − x)  /  Π_{m=1..t+1, m≠i} (m − i)

    with C's truncating integer division.  This module proves that the division
    is always exact (the helpers assert it), that λ_i is 1 at its own node and
    0 at the others, and that the λ_i interpolate: Σ_i λ_i(x)·f(i) = f(x) for
    every integer polynomial f with at most t+1 coefficients. */
module Lagrange {
  import opened ModArith
  import opened Poly
  import Roots

  /** Π_{m=1..k, m≠skip} (m − x). */
  function NodeProd(k: nat, skip: int, x: int): int
  {
    if k == 0 then 1 else (if k == skip then 1 else k - x) * NodeProd(k - 1, skip, x)
  }

  /** The numerator λ's loop accumulates. */
  function Num(t: nat, xCord: int, ip: int): int
  {
    NodeProd(t + 1, xCord, ip)
  }

  /** The denominator λ's loop accumulates. */
  function Den(t: nat, xCord: int): int
  {
    NodeProd(t + 1, xCord, xCord)
  }

  /** The integer λ after `num /= den` (the denominator is never zero, see
      `DenNonzero`; the guard only makes the function total). */
  function Lambda(t: nat, xCord: int, ip: int): int
  {
    if Den(t, xCord) == 0 then 0 else CDiv(Num(t, xCord, ip), Den(t, xCord))
  }

  /** The condition the helpers assert before dividing. */
  predicate Exact(t: nat, xCord: int, ip: int)
  {
    Den(t, xCord) != 0 && CMod(Num(t, xCord, ip), Den(t, xCord)) == 0
  }

  // ---------------------------------------------------------------------------
  // Products of consecutive integers.

  /** a·(a+1)·…·(a+k−1). */
  function RisingProd(a: int, k: nat): int
    decreases k
  {
    if k == 0 then 1 else a * RisingProd(a + 1, k - 1)
  }

  function Fact(k: nat): (r: nat)
    ensures r >= 1
  {
    if k == 0 then 1 else k * Fact(k - 1)
  }

  function Sign(k: nat): int
  {
    if k == 0 then 1 else -Sign(k - 1)
  }

  lemma SignSquare(k: nat)
    ensures Sign(k) * Sign(k) == 1
  {
    if k > 0 {
      SignSquare(k - 1);
    }
  }

  lemma {:induction false} RisingBack(a: int, k: nat)
    ensures RisingProd(a, k + 1) == RisingProd(a, k) * (a + k)
    decreases k
  {
    if k > 0 {
      RisingBack(a + 1, k - 1);
      assert RisingProd(a + 1, k) == RisingProd(a + 1, k - 1) * (a + k);
      assert RisingProd(a, k + 1) == a * (RisingProd(a + 1, k - 1) * (a + k));
    }
  }

  lemma RisingStep(a: int, k: nat)
    requires k >= 1
    ensures RisingProd(a + 1, k) - RisingProd(a, k) == k * RisingProd(a + 1, k - 1)
  {
    var r := RisingProd(a + 1, k - 1);
    RisingBack(a + 1, k - 1);
    assert RisingProd(a + 1, k) == r * (a + k);
    assert RisingProd(a, k) == a * r;
    assert r * (a + k) - a * r == k * r;
  }

  /** Consecutive products at a and a+1 differ by a multiple of k!. */
  lemma {:induction false} RisingStepDivisible(b: int, k: nat)
    requires k >= 1
    ensures (RisingProd(b + 1, k) - RisingProd(b, k)) % Fact(k) == 0
    decreases k, 0
  {
    RisingStep(b, k);
    RisingDivisible(b + 1, k - 1);
    ScaledDivisible(k, Fact(k - 1), RisingProd(b + 1, k - 1));
  }

  lemma ScaledDivisible(k: int, f: int, r: int)
    requires k >= 1 && f >= 1 && r % f == 0
    ensures (k * r) % (k * f) == 0
  {
    var q := r / f;
    assert r == f * q;
    assert k * r == (k * f) * q;
    ModOfMultiple(k * f, q);
  }

  lemma DivisibleTransfer(x: int, y: int, d: int)
    requires d > 0 && x % d == 0 && (y - x) % d == 0
    ensures y % d == 0
  {
    ModAdd(x, y - x, d);
  }

  /** A product of k consecutive integers is divisible by k!. */
  lemma {:induction false} RisingDivisible(a: int, k: nat)
    ensures RisingProd(a, k) % Fact(k) == 0
    decreases k, if a >= 0 then a + 1 else 1 - a
  {
    if k == 0 {
      ModUnique(RisingProd(a, k), 1, RisingProd(a, k), 0);
    } else if a == 0 {
      assert RisingProd(a, k) == 0 * RisingProd(1, k - 1);
    } else if a > 0 {
      RisingDivisible(a - 1, k);
      RisingStepDivisible(a - 1, k);
      DivisibleTransfer(RisingProd(a - 1, k), RisingProd(a, k), Fact(k));
    } else {
      RisingDivisible(a + 1, k);
      RisingStepDivisible(a, k);
      ModSub(0, RisingProd(a + 1, k) - RisingProd(a, k), Fact(k));
      assert 0 - (RisingProd(a + 1, k) - RisingProd(a, k)) == RisingProd(a, k) - RisingProd(a + 1, k);
      DivisibleTransfer(RisingProd(a + 1, k), RisingProd(a, k), Fact(k));
    }
  }

  lemma {:induction false} RisingFromOne(k: nat)
    ensures RisingProd(1, k) == Fact(k)
    decreases k
  {
    if k > 0 {
      RisingFromOne(k - 1);
      RisingBack(1, k - 1);
    }
  }

  /** (−k)·(−k+1)·…·(−1) = (−1)^k·k!. */
  lemma {:induction false} RisingNegative(k: nat)
    ensures RisingProd(-(k as int), k) == Sign(k) * Fact(k)
    decreases k
  {
    if k > 0 {
      var m: int := k;
      RisingNegative(k - 1);
      assert -m + 1 == -(m - 1);
      assert RisingProd(-m, k) == -m * RisingProd(-(m - 1), k - 1);
      assert RisingProd(-m, k) == -m * (Sign(k - 1) * Fact(k - 1));
    }
  }

  // ---------------------------------------------------------------------------
  // The node products in closed form.

  lemma {:induction false} NodeProdNoSkip(k: nat, skip: int, x: int)
    requires !(1 <= skip <= k)
    ensures NodeProd(k, skip, x) == RisingProd(1 - x, k)
    decreases k
  {
    if k > 0 {
      NodeProdNoSkip(k - 1, skip, x);
      RisingBack(1 - x, k - 1);
    }
  }

  lemma {:induction false} NodeProdSplit(k: nat, i: int, x: int)
    requires 1 <= i <= k
    ensures NodeProd(k, i, x) == RisingProd(1 - x, i - 1) * RisingProd(i + 1 - x, k - i)
    decreases k
  {
    if k == i {
      NodeProdNoSkip(k - 1, i, x);
    } else {
      NodeProdSplit(k - 1, i, x);
      RisingBack(i + 1 - x, k - 1 - i);
      var a, b := RisingProd(1 - x, i - 1), RisingProd(i + 1 - x, k - 1 - i);
      assert NodeProd(k, i, x) == (k - x) * (a * b);
      assert RisingProd(i + 1 - x, k - i) == b * (k - x);
    }
  }

  /** Π_{m≠i} (m − i) = (−1)^{i−1}·(i−1)!·(k−i)!. */
  lemma DenClosedForm(k: nat, i: int)
    requires 1 <= i <= k
    ensures NodeProd(k, i, i) == Sign(i - 1) * (Fact(i - 1) * Fact(k - i))
  {
    NodeProdSplit(k, i, i);
    assert 1 - i == -(i - 1);
    RisingNegative(i - 1);
    RisingFromOne(k - i);
  }

  /** No factor of the product vanishes unless x is one of the other nodes. */
  lemma {:induction false} NodeProdNonzero(k: nat, skip: int, x: int)
    requires x == skip || x < 1 || x > k
    ensures NodeProd(k, skip, x) != 0
    decreases k
  {
    if k > 0 {
      NodeProdNonzero(k - 1, skip, x);
      var f := if k == skip then 1 else k - x;
      assert f != 0;
      assert NodeProd(k, skip, x) == f * NodeProd(k - 1, skip, x);
    }
  }

  /** The product vanishes at every other node. */
  lemma {:induction false} NodeProdAtOtherNode(k: nat, skip: int, j: int)
    requires 1 <= j <= k && j != skip
    ensures NodeProd(k, skip, j) == 0
    decreases k
  {
    if k != j {
      NodeProdAtOtherNode(k - 1, skip, j);
    }
  }

  lemma DenNonzero(t: nat, xCord: int)
    ensures Den(t, xCord) != 0
  {
    NodeProdNonzero(t + 1, xCord, xCord);
  }

  lemma Rearrange(a: int, b: int, f1: int, f2: int, q1: int, q2: int, s: int)
    requires a == f1 * q1 && b == f2 * q2 && s * s == 1
    ensures a * b == (s * (f1 * f2)) * (s * (q1 * q2))
  {
    assert a * b == (f1 * f2) * (q1 * q2);
    assert (s * (f1 * f2)) * (s * (q1 * q2)) == (s * s) * ((f1 * f2) * (q1 * q2));
  }

  lemma ExactQuotient(a: int, f: int)
    requires f >= 1 && a % f == 0
    ensures a == f * (a / f)
  {
  }

  /** The numerator is a multiple of the denominator: both factor through
      the same two products of consecutive integers. */
  lemma NumIsMultiple(t: nat, i: int, ip: int) returns (q: int)
    requires 1 <= i <= t + 1
    ensures Num(t, i, ip) == Den(t, i) * q
  {
    var k := t + 1;
    NodeProdSplit(k, i, ip);
    DenClosedForm(k, i);
    var a, b := RisingProd(1 - ip, i - 1), RisingProd(i + 1 - ip, k - i);
    var f1, f2 := Fact(i - 1), Fact(k - i);
    RisingDivisible(1 - ip, i - 1);
    RisingDivisible(i + 1 - ip, k - i);
    ExactQuotient(a, f1);
    ExactQuotient(b, f2);
    var s := Sign(i - 1);
    SignSquare(i - 1);
    Rearrange(a, b, f1, f2, a / f1, b / f2, s);
    q := s * ((a / f1) * (b / f2));
  }

  /** For a node 1..t+1 the division is exact, for every evaluation point:
      the assertion in the helpers never fails. */
  lemma LambdaExact(t: nat, i: int, ip: int)
    requires 1 <= i <= t + 1
    ensures Exact(t, i, ip)
    ensures Num(t, i, ip) == Den(t, i) * Lambda(t, i, ip)
  {
    var q := NumIsMultiple(t, i, ip);
    DenNonzero(t, i);
    CDivExact(Num(t, i, ip), Den(t, i), q);
  }

  /** λ_i is 1 at its own node ... */
  lemma LambdaAtOwnNode(t: nat, i: int)
    ensures Lambda(t, i, i) == 1
  {
    DenNonzero(t, i);
    CDivExact(Den(t, i), Den(t, i), 1);
  }

  /** ... and 0 at every other node of 1..t+1. */
  lemma LambdaAtOtherNode(t: nat, i: int, j: int)
    requires 1 <= j <= t + 1 && j != i
    ensures Lambda(t, i, j) == 0
  {
    DenNonzero(t, i);
    NodeProdAtOtherNode(t + 1, i, j);
    CDivExact(Num(t, i, j), Den(t, i), 0);
  }

  // ---------------------------------------------------------------------------
  // Interpolation.

  /** Σ_{i=1..k} λ_i(x)·f(i) for the polynomial f with coefficients c. */
  function WeightedSum(c: seq<int>, t: nat, x: int, k: nat): int
  {
    if k == 0 then 0 else WeightedSum(c, t, x, k - 1) + Lambda(t, k, x) * Horner(c, k)
  }

  lemma {:induction false} WeightedSumAtNode(c: seq<int>, t: nat, j: int, k: nat)
    requires 1 <= j <= t + 1 && k <= t + 1
    ensures WeightedSum(c, t, j, k) == if j <= k then Horner(c, j) else 0
    decreases k
  {
    if k > 0 {
      WeightedSumAtNode(c, t, j, k - 1);
      if k == j {
        LambdaAtOwnNode(t, j);
      } else {
        LambdaAtOtherNode(t, k, j);
      }
    }
  }

  /** The product Π_{m=1..k, m≠skip} (m − X) as a polynomial in X. */
  function NumPoly(k: nat, skip: int): seq<int>
  {
    if k == 0 then [1]
    else if k == skip then NumPoly(k - 1, skip)
    else Roots.MulFactor(NumPoly(k - 1, skip), k)
  }

  lemma {:induction false} NumPolyLength(k: nat, skip: int)
    ensures |NumPoly(k, skip)| == if 1 <= skip <= k then k else k + 1
    decreases k
  {
    if k > 0 {
      NumPolyLength(k - 1, skip);
      if k != skip {
        Roots.HornerMulFactor(NumPoly(k - 1, skip), k, 0);
      }
    }
  }

  lemma {:induction false} EvalNumPoly(k: nat, skip: int, x: int)
    ensures Horner(NumPoly(k, skip), x) == NodeProd(k, skip, x)
    decreases k
  {
    if k == 0 {
      assert Horner([1], x) == 1 + x * Horner([], x);
    } else {
      EvalNumPoly(k - 1, skip, x);
      if k != skip {
        var p := NumPoly(k - 1, skip);
        Roots.HornerMulFactor(p, k, x);
        FactorComm(Horner(NumPoly(k, skip), x), Horner(p, x), NodeProd(k - 1, skip, x), k - x);
      }
    }
  }

  lemma FactorComm(v: int, a: int, b: int, f: int)
    requires v == a * f && a == b
    ensures v == f * b
  {
  }

  lemma Distrib(v: int, a: int, b: int, m: int, p: int, q: int)
    requires v == a + b && a == m * p && (b == m * q || b == -m * -q)
    ensures v == m * (p + q)
  {
  }

  /** Π_{m=1..k, m≠skip} Den_m; with skip 0 the product of all the
      denominators, the common multiplier that keeps the interpolating
      polynomial's coefficients integral. */
  function OtherDens(t: nat, skip: int, k: nat): int
  {
    if k == 0 then 1 else (if k == skip then 1 else Den(t, k)) * OtherDens(t, skip, k - 1)
  }

  lemma {:induction false} OtherDensNoSkip(t: nat, skip: int, k: nat)
    requires !(1 <= skip <= k)
    ensures OtherDens(t, skip, k) == OtherDens(t, 0, k)
    decreases k
  {
    if k > 0 {
      OtherDensNoSkip(t, skip, k - 1);
    }
  }

  lemma {:induction false} OtherDensSplit(t: nat, skip: int, k: nat)
    requires 1 <= skip <= k
    ensures OtherDens(t, skip, k) * Den(t, skip) == OtherDens(t, 0, k)
    decreases k
  {
    if k == skip {
      OtherDensNoSkip(t, skip, k - 1);
    } else {
      OtherDensSplit(t, skip, k - 1);
      var o := OtherDens(t, skip, k - 1);
      assert (Den(t, k) * o) * Den(t, skip) == Den(t, k) * (o * Den(t, skip));
    }
  }

  lemma {:induction false} AllDensNonzero(t: nat, k: nat)
    ensures OtherDens(t, 0, k) != 0
    decreases k
  {
    if k > 0 {
      AllDensNonzero(t, k - 1);
      DenNonzero(t, k);
    }
  }

  /** f(k)·Π_{m≠k} Den_m, the weight of the k-th basis polynomial. */
  function Weight(c: seq<int>, t: nat, k: int): int
  {
    if 1 <= k <= t + 1 then Horner(c, k) * OtherDens(t, k, t + 1) else 0
  }

  /** Σ_{i=1..k} Weight_i·NumPoly(t+1, i): the interpolating polynomial,
      scaled by the product of all denominators. */
  function BasisSum(c: seq<int>, t: nat, k: nat): seq<int>
  {
    if k == 0 then []
    else AddPoly(BasisSum(c, t, k - 1), Roots.Scale(Weight(c, t, k), NumPoly(t + 1, k)))
  }

  lemma WeightTimesNum(w: int, h: int, o: int, n: int, d: int, l: int, m: int)
    requires w == h * o && n == d * l && o * d == m
    ensures w * n == m * (l * h)
  {
    assert w * n == (h * l) * (o * d);
  }

  lemma BasisTerm(c: seq<int>, t: nat, k: nat, x: int)
    requires 1 <= k <= t + 1
    ensures Horner(Roots.Scale(Weight(c, t, k), NumPoly(t + 1, k)), x)
         == OtherDens(t, 0, t + 1) * (Lambda(t, k, x) * Horner(c, k))
    ensures |Roots.Scale(Weight(c, t, k), NumPoly(t + 1, k))| == t + 1
  {
    EvalNumPoly(t + 1, k, x);
    NumPolyLength(t + 1, k);
    Roots.HornerScale(Weight(c, t, k), NumPoly(t + 1, k), x);
    LambdaExact(t, k, x);
    OtherDensSplit(t, k, t + 1);
    WeightTimesNum(Weight(c, t, k), Horner(c, k), OtherDens(t, k, t + 1), Num(t, k, x), Den(t, k),
                   Lambda(t, k, x), OtherDens(t, 0, t + 1));
  }

  lemma {:induction false} EvalBasisSum(c: seq<int>, t: nat, k: nat, x: int)
    requires k <= t + 1
    ensures Horner(BasisSum(c, t, k), x) == OtherDens(t, 0, t + 1) * WeightedSum(c, t, x, k)
    ensures |BasisSum(c, t, k)| <= t + 1
    decreases k
  {
    if k > 0 {
      EvalBasisSum(c, t, k - 1, x);
      var term := Roots.Scale(Weight(c, t, k), NumPoly(t + 1, k));
      BasisTerm(c, t, k, x);
      HornerAdd(BasisSum(c, t, k - 1), term, x);
      Distrib(Horner(BasisSum(c, t, k), x), Horner(BasisSum(c, t, k - 1), x), Horner(term, x),
              OtherDens(t, 0, t + 1), WeightedSum(c, t, x, k - 1), Lambda(t, k, x) * Horner(c, k));
    }
  }

  function Nodes(k: nat): seq<int>
  {
    seq(k, i => i + 1)
  }

  /** BasisSum − M·f, with M the product of all denominators. */
  function Difference(c: seq<int>, t: nat): seq<int>
  {
    AddPoly(BasisSum(c, t, t + 1), Roots.Scale(-OtherDens(t, 0, t + 1), c))
  }

  lemma EvalDifference(c: seq<int>, t: nat, x: int)
    ensures Horner(Difference(c, t), x) == OtherDens(t, 0, t + 1) * (WeightedSum(c, t, x, t + 1) - Horner(c, x))
    ensures |c| <= t + 1 ==> |Difference(c, t)| <= t + 1
  {
    var m := OtherDens(t, 0, t + 1);
    EvalBasisSum(c, t, t + 1, x);
    Roots.HornerScale(-m, c, x);
    HornerAdd(BasisSum(c, t, t + 1), Roots.Scale(-m, c), x);
    Distrib(Horner(Difference(c, t), x), Horner(BasisSum(c, t, t + 1), x),
            Horner(Roots.Scale(-m, c), x), m, WeightedSum(c, t, x, t + 1), -Horner(c, x));
  }

  /** The difference vanishes at every node. */
  lemma DifferenceAtNode(c: seq<int>, t: nat, j: int)
    requires 1 <= j <= t + 1
    ensures Horner(Difference(c, t), j) == 0
  {
    EvalDifference(c, t, j);
    WeightedSumAtNode(c, t, j, t + 1);
  }

  lemma CancelNonzero(m: int, d: int)
    requires m != 0 && m * d == 0
    ensures d == 0
  {
  }

  /** Lagrange interpolation over the nodes 1..t+1 recovers any polynomial with
      at most t+1 coefficients at any integer point. */
  lemma Interpolation(c: seq<int>, t: nat, x: int)
    requires |c| <= t + 1
    ensures WeightedSum(c, t, x, t + 1) == Horner(c, x)
  {
    var e := Difference(c, t);
    var roots := Nodes(t + 1);
    forall i | 0 <= i < |roots|
      ensures Horner(e, roots[i]) == 0
    {
      DifferenceAtNode(c, t, i + 1);
    }
    EvalDifference(c, t, x);
    Roots.RootsVanish(e, roots, x);
    AllDensNonzero(t, t + 1);
    CancelNonzero(OtherDens(t, 0, t + 1), WeightedSum(c, t, x, t + 1) - Horner(c, x));
  }

  // ---------------------------------------------------------------------------
  // Size of λ (the helpers hold it in an int64 and pass |λ| as a uint32).

  function Abs(a: int): nat
  {
    if a < 0 then -a else a
  }

  lemma MulAbsBound(a: int, b: int, ba: int, bb: int)
    requires Abs(a) <= ba && Abs(b) <= bb
    ensures Abs(a * b) <= ba * bb
  {
    var x, y := Abs(a), Abs(b);
    assert Abs(a * b) == x * y;
    assert x * y <= ba * y;
    assert ba * y <= ba * bb;
  }

  lemma {:induction false} NodeProdBound(k: nat, skip: int, x: int, bound: int)
    requires 0 <= x && x + k <= bound
    ensures Abs(NodeProd(k, skip, x)) <= Pow(bound, k)
    decreases k
  {
    if k > 0 {
      NodeProdBound(k - 1, skip, x, bound);
      var f := if k == skip then 1 else k - x;
      assert Abs(f) <= bound;
      MulAbsBound(f, NodeProd(k - 1, skip, x), bound, Pow(bound, k - 1));
    }
  }

  lemma CDivBound(a: int, b: int)
    requires b != 0
    ensures Abs(CDiv(a, b)) <= Abs(a)
  {
    var x, y := Abs(a), Abs(b);
    var q := x / y;
    assert x == y * q + x % y;
    assert q >= 0;
    if q > x {
      MulAtLeast(q, y);
      assert false;
    }
  }

  /** |λ_i(x)| ≤ (x + t + 1)^(t+1) for a non-negative evaluation point. */
  lemma LambdaBound(t: nat, i: int, ip: int)
    requires 0 <= ip
    ensures Abs(Lambda(t, i, ip)) <= Pow(ip + t + 1, t + 1)
  {
    DenNonzero(t, i);
    NodeProdBound(t + 1, i, ip, ip + t + 1);
    CDivBound(Num(t, i, ip), Den(t, i));
  }
}
