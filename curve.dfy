/** The secp256k1 group, modelled abstractly.  A point is represented by its
    discrete logarithm with respect to the generator G, so the group is the
    additive group of integers modulo the curve order.  `point_add`,
    `point_multiply` and `scalar_multiply` of the elliptic-curve library become
    arithmetic on that logarithm; the coordinates of a point (needed for the
    signature value r and as hash input) are left abstract. */
module Curve {
  import opened ModArith

  /** Order n of the secp256k1 group. */
  const ORDER: nat := 0xFFFFFFFF_FFFFFFFF_FFFFFFFF_FFFFFFFE_BAAEDCE6_AF48A03B_BFD25E8C_D0364141

  /** Prime p of the secp256k1 base field. */
  const FIELD_PRIME: nat := 0xFFFFFFFF_FFFFFFFF_FFFFFFFF_FFFFFFFF_FFFFFFFF_FFFFFFFF_FFFFFFFE_FFFFFC2F

  /** A fully reduced scalar, as the bignum library keeps values modulo n. */
  type Scalar = k: nat | k < ORDER

  datatype Point = Point(dlog: Scalar)

  /** The point at infinity, the neutral element. */
  const Infinity: Point := Point(0)

  /** The generator G. */
  const G: Point := Point(1)

  /** `point_add`: P + Q. */
  function Add(p: Point, q: Point): Point
  {
    Point((p.dlog + q.dlog) % ORDER)
  }

  /** `point_multiply`: k·P for a scalar k (the library reduces k modulo n). */
  function Mul(k: int, p: Point): Point
  {
    Point((k * p.dlog) % ORDER)
  }

  /** `scalar_multiply`: k·G. */
  function MulBase(k: int): Point
  {
    Mul(k, G)
  }

  /** −P (the y coordinate negated). */
  function Negate(p: Point): Point
  {
    Point((ORDER - p.dlog) % ORDER)
  }

  lemma MulBaseDlog(k: int)
    ensures MulBase(k).dlog == k % ORDER
  {
  }

  lemma AddInfinity(p: Point)
    ensures Add(p, Infinity) == p && Add(Infinity, p) == p
  {
    ModSmall(p.dlog, ORDER);
  }

  lemma AddCommutes(p: Point, q: Point)
    ensures Add(p, q) == Add(q, p)
  {
  }

  lemma AddAssociates(p: Point, q: Point, r: Point)
    ensures Add(Add(p, q), r) == Add(p, Add(q, r))
  {
    ModAdd(p.dlog + q.dlog, r.dlog, ORDER);
    ModAdd(p.dlog, q.dlog + r.dlog, ORDER);
    ModSmall(p.dlog, ORDER);
    ModSmall(r.dlog, ORDER);
    ModIdempotent(p.dlog + q.dlog, ORDER);
    ModIdempotent(q.dlog + r.dlog, ORDER);
    assert (p.dlog + q.dlog) + r.dlog == p.dlog + (q.dlog + r.dlog);
  }

  /** Adding the negation cancels a point. */
  lemma AddNegate(p: Point, q: Point)
    ensures Add(Add(p, Negate(q)), q) == p
  {
    var a, b := p.dlog, q.dlog;
    ModSmall(a, ORDER);
    if b == 0 {
      ModAddMultiple(0, 1, ORDER);
      ModSmall(0, ORDER);
    } else {
      ModSmall(ORDER - b, ORDER);
      ModSmall(b, ORDER);
      ModAdd(a + (ORDER - b), b, ORDER);
      ModAddMultiple(a, 1, ORDER);
    }
  }

  /** −A + (A + X) = X. */
  lemma NegateCancels(a: Point, x: Point)
    ensures Add(Negate(a), Add(a, x)) == x
  {
    var na := (ORDER - a.dlog) % ORDER;
    var ax := (a.dlog + x.dlog) % ORDER;
    ModAdd(ORDER - a.dlog, a.dlog + x.dlog, ORDER);
    ModIdempotent(ORDER - a.dlog, ORDER);
    ModIdempotent(a.dlog + x.dlog, ORDER);
    assert (ORDER - a.dlog) + (a.dlog + x.dlog) == x.dlog + 1 * ORDER;
    ModAddMultiple(x.dlog, 1, ORDER);
    ModSmall(x.dlog, ORDER);
  }

  /** k·(j·P) = (k·j)·P. */
  lemma MulMul(k: int, j: int, p: Point)
    ensures Mul(k, Mul(j, p)) == Mul(k * j, p)
  {
    ModMul(k, j * p.dlog, ORDER);
    ModMul(k, (j * p.dlog) % ORDER, ORDER);
    ModIdempotent(j * p.dlog, ORDER);
    assert k * (j * p.dlog) == (k * j) * p.dlog;
  }

  /** k·P + j·P = (k + j)·P. */
  lemma MulAddScalars(k: int, j: int, p: Point)
    ensures Add(Mul(k, p), Mul(j, p)) == Mul(k + j, p)
  {
    ModAdd(k * p.dlog, j * p.dlog, ORDER);
    assert k * p.dlog + j * p.dlog == (k + j) * p.dlog;
  }

  /** The scalar may be reduced modulo n before multiplying. */
  lemma MulReduced(k: int, p: Point)
    ensures Mul(k % ORDER, p) == Mul(k, p)
  {
    ModMul(k % ORDER, p.dlog, ORDER);
    ModMul(k, p.dlog, ORDER);
    ModIdempotent(k, ORDER);
  }

  /** k·(a·G) = (k·a)·G: multiplying a base multiple. */
  lemma MulOfBase(k: int, a: int)
    ensures Mul(k, MulBase(a)) == MulBase(k * a)
  {
    MulMul(k, a, G);
  }

  /** Sum of base multiples. */
  lemma AddBases(a: int, b: int)
    ensures Add(MulBase(a), MulBase(b)) == MulBase(a + b)
  {
    MulAddScalars(a, b, G);
  }

  /** Diffie-Hellman agreement: a·(b·G) = b·(a·G). */
  lemma DiffieHellman(a: int, b: int)
    ensures Mul(a, MulBase(b)) == Mul(b, MulBase(a))
  {
    MulOfBase(a, b);
    MulOfBase(b, a);
    assert a * b == b * a;
  }

  /** Scalar multiplication of G is injective on reduced scalars. */
  lemma MulBaseInjective(a: int, b: int)
    ensures MulBase(a) == MulBase(b) <==> a % ORDER == b % ORDER
  {
    MulBaseDlog(a);
    MulBaseDlog(b);
  }
}
