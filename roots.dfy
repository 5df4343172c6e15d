/** The root-counting argument behind Lagrange interpolation, for integer
    polynomials: a polynomial with fewer coefficients than distinct integer
    roots is zero everywhere. */
module Roots {
  import opened Poly

  function Scale(a: int, p: seq<int>): seq<int>
  {
    if p == [] then [] else [a * p[0]] + Scale(a, p[1..])
  }

  /** The product p(x)·(m − x). */
  function MulFactor(p: seq<int>, m: int): seq<int>
  {
    AddPoly(Scale(m, p), [0] + Scale(-1, p))
  }

  /** Synthetic division by (x − r): the quotient. */
  function Quot(p: seq<int>, r: int): seq<int>
    requires |p| >= 1
  {
    if |p| == 1 then [] else [Horner(p[1..], r)] + Quot(p[1..], r)
  }

  lemma {:induction false} HornerScale(a: int, p: seq<int>, x: int)
    ensures Horner(Scale(a, p), x) == a * Horner(p, x)
    ensures |Scale(a, p)| == |p|
    decreases |p|
  {
    if p != [] {
      HornerScale(a, p[1..], x);
      var s := Scale(a, p);
      assert s[1..] == Scale(a, p[1..]);
      assert Horner(s, x) == a * p[0] + x * (a * Horner(p[1..], x));
    }
  }

  lemma HornerShift(q: seq<int>, x: int)
    ensures Horner([0] + q, x) == x * Horner(q, x)
  {
    assert ([0] + q)[1..] == q;
  }

  lemma HornerMulFactor(p: seq<int>, m: int, x: int)
    ensures Horner(MulFactor(p, m), x) == Horner(p, x) * (m - x)
    ensures |MulFactor(p, m)| == |p| + 1
  {
    var neg := Scale(-1, p);
    HornerScale(m, p, x);
    HornerScale(-1, p, x);
    HornerShift(neg, x);
    HornerAdd(Scale(m, p), [0] + neg, x);
    FactorStep(Horner(MulFactor(p, m), x), Horner(Scale(m, p), x), Horner([0] + neg, x), Horner(neg, x), Horner(p, x), m, x);
  }

  lemma FactorStep(v: int, a: int, b: int, c: int, e: int, m: int, x: int)
    requires v == a + b && a == m * e && b == x * c && c == -1 * e
    ensures v == e * (m - x)
  {
  }

  /** p(x) = (x − r)·Quot(p, r)(x) + p(r). */
  lemma {:induction false} HornerQuot(p: seq<int>, r: int, x: int)
    requires |p| >= 1
    ensures Horner(p, x) == (x - r) * Horner(Quot(p, r), x) + Horner(p, r)
    ensures |Quot(p, r)| == |p| - 1
    decreases |p|
  {
    if |p| > 1 {
      var t := p[1..];
      HornerQuot(t, r, x);
      var q := Quot(p, r);
      QuotCons(p, r, x);
      QuotStep(Horner(p, x), p[0], x, r, Horner(q, x), Horner(Quot(t, r), x), Horner(t, r), Horner(t, x), Horner(p, r));
    }
  }

  lemma QuotCons(p: seq<int>, r: int, x: int)
    requires |p| > 1
    ensures Horner(Quot(p, r), x) == Horner(p[1..], r) + x * Horner(Quot(p[1..], r), x)
  {
    assert Quot(p, r)[1..] == Quot(p[1..], r);
  }

  /** The algebra of one synthetic-division step. */
  lemma QuotStep(px: int, c: int, x: int, r: int, qx: int, qt: int, e: int, tx: int, pr: int)
    requires px == c + x * tx && tx == (x - r) * qt + e
    requires qx == e + x * qt && pr == c + r * e
    ensures px == (x - r) * qx + pr
  {
  }

  predicate Distinct(roots: seq<int>)
  {
    forall i, j :: 0 <= i < j < |roots| ==> roots[i] != roots[j]
  }

  /** A polynomial with at most k coefficients and k distinct roots is zero
      everywhere. */
  lemma {:induction false} RootsVanish(p: seq<int>, roots: seq<int>, x: int)
    requires |p| <= |roots| && Distinct(roots)
    requires forall i :: 0 <= i < |roots| ==> Horner(p, roots[i]) == 0
    ensures Horner(p, x) == 0
    decreases |roots|
  {
    if p != [] {
      var r := roots[0];
      var q := Quot(p, r);
      var rest := roots[1..];
      forall i | 0 <= i < |rest|
        ensures Horner(q, rest[i]) == 0
      {
        var y := rest[i];
        assert y == roots[i + 1];
        HornerQuot(p, r, y);
        assert (y - r) * Horner(q, y) == 0;
        assert y - r != 0;
      }
      HornerQuot(p, r, x);
      RootsVanish(q, rest, x);
    }
  }
}
