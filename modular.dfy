/** Integer arithmetic shared by the whole model: Euclidean remainders, powers,
    C's truncating division, and bit extraction.  The bignum library of the
    system reduces every scalar operation modulo the curve order; these lemmas
    are what lets the proofs move reductions around. */
module ModArith {

  /** x to the power k over the integers. */
  function Pow(x: int, k: nat): int
  {
    if k == 0 then 1 else x * Pow(x, k - 1)
  }

  function Pow2(k: nat): (r: nat)
    ensures r >= 1
  {
    if k == 0 then 1 else 2 * Pow2(k - 1)
  }

  lemma MulAtLeast(d: int, k: int)
    requires d > 0 && k >= 1
    ensures d * k >= d
  {
    var j := k - 1;
    assert d * k == d * j + d;
    assert d * j >= 0;
  }

  lemma MulAtMost(d: int, k: int)
    requires d > 0 && k <= -1
    ensures d * k <= -d
  {
    var j := -k - 1;
    assert d * k == -(d * j) - d;
    assert d * j >= 0;
  }

  /** The quotient and remainder of a Euclidean division are unique. */
  lemma ModUnique(a: int, d: int, q: int, r: int)
    requires d > 0 && 0 <= r < d && a == d * q + r
    ensures a % d == r && a / d == q
  {
    var k := a / d - q;
    assert d * (a / d) + a % d == d * q + r;
    assert d * k == r - a % d;
    if k >= 1 { MulAtLeast(d, k); assert false; }
    if k <= -1 { MulAtMost(d, k); assert false; }
  }

  lemma ModOfMultiple(d: int, q: int)
    requires d > 0
    ensures (d * q) % d == 0
  {
    ModUnique(d * q, d, q, 0);
  }

  lemma ModSmall(a: int, d: int)
    requires 0 <= a < d
    ensures a % d == a && a / d == 0
  {
    ModUnique(a, d, 0, a);
  }

  lemma ModIdempotent(a: int, d: int)
    requires d > 0
    ensures (a % d) % d == a % d
  {
    ModSmall(a % d, d);
  }

  lemma ModAdd(a: int, b: int, d: int)
    requires d > 0
    ensures (a + b) % d == (a % d + b % d) % d
  {
    var s := a % d + b % d;
    ModUnique(a + b, d, a / d + b / d + s / d, s % d);
  }

  lemma ModSub(a: int, b: int, d: int)
    requires d > 0
    ensures (a - b) % d == (a % d - b % d) % d
  {
    var s := a % d - b % d;
    ModUnique(a - b, d, a / d - b / d + s / d, s % d);
  }

  lemma ModMul(a: int, b: int, d: int)
    requires d > 0
    ensures (a * b) % d == ((a % d) * (b % d)) % d
  {
    var qa, ra, qb, rb := a / d, a % d, b / d, b % d;
    assert a * b == (d * qa + ra) * (d * qb + rb);
    assert a * b == d * (qa * d * qb + qa * rb + ra * qb) + ra * rb;
    var m := ra * rb;
    ModUnique(a * b, d, qa * d * qb + qa * rb + ra * qb + m / d, m % d);
  }

  /** The right factor of a product may be reduced first. */
  lemma MulModRight(a: int, b: int, d: int)
    requires d > 0
    ensures (a * (b % d)) % d == (a * b) % d
  {
    ModMul(a, b % d, d);
    ModMul(a, b, d);
    ModIdempotent(b, d);
  }

  lemma ModAddMultiple(a: int, k: int, d: int)
    requires d > 0
    ensures (a + k * d) % d == a % d
  {
    ModUnique(a + k * d, d, a / d + k, a % d);
  }

  /** A remainder strictly between −d and d is zero only for zero. */
  lemma SmallModZero(t: int, d: int)
    requires d > 0 && -d < t < d
    ensures t % d == 0 <==> t == 0
  {
    if t >= 0 {
      ModSmall(t, d);
    } else {
      ModAddMultiple(t, 1, d);
      ModSmall(t + d, d);
    }
  }

  /** Two integers are congruent exactly when their difference is a multiple. */
  lemma CongruentIffDifference(a: int, b: int, d: int)
    requires d > 0
    ensures a % d == b % d <==> (a - b) % d == 0
  {
    ModSub(a, b, d);
    SmallModZero(a % d - b % d, d);
  }

  lemma PowAdd(x: int, a: nat, b: nat)
    ensures Pow(x, a + b) == Pow(x, a) * Pow(x, b)
    decreases a
  {
    if a > 0 {
      PowAdd(x, a - 1, b);
      assert Pow(x, a + b) == x * Pow(x, a - 1 + b);
    }
  }

  lemma PowMul(x: int, a: nat, b: nat)
    ensures Pow(Pow(x, a), b) == Pow(x, a * b)
    decreases b
  {
    if b > 0 {
      var p := Pow(x, a);
      var m := a * (b - 1);
      PowMul(x, a, b - 1);
      assert Pow(p, b - 1) == Pow(x, m);
      PowAdd(x, a, m);
      assert a * b == a + m;
      assert Pow(p, b) == p * Pow(p, b - 1);
    }
  }

  lemma PowMod(x: int, k: nat, d: int)
    requires d > 0
    ensures Pow(x % d, k) % d == Pow(x, k) % d
    decreases k
  {
    if k > 0 {
      PowMod(x, k - 1, d);
      ModMul(x % d, Pow(x % d, k - 1), d);
      ModMul(x, Pow(x, k - 1), d);
      ModIdempotent(x, d);
    }
  }

  lemma PowZeroBase(k: nat)
    requires k > 0
    ensures Pow(0, k) == 0
  {
  }

  lemma Pow2IsPow(k: nat)
    ensures Pow2(k) == Pow(2, k)
    decreases k
  {
    if k > 0 { Pow2IsPow(k - 1); }
  }

  lemma Pow2Add(a: nat, b: nat)
    ensures Pow2(a + b) == Pow2(a) * Pow2(b)
    decreases a
  {
    if a > 0 {
      Pow2Add(a - 1, b);
      assert Pow2(a + b) == 2 * Pow2(a - 1 + b);
    }
  }

  lemma Pow2Positive(k: nat)
    ensures Pow2(k) >= 1
  {
  }

  lemma Pow2Monotone(a: nat, b: nat)
    requires a <= b
    ensures Pow2(a) <= Pow2(b)
    decreases b
  {
    if a < b { Pow2Monotone(a, b - 1); }
  }

  lemma DivDiv(x: int, a: int, b: int)
    requires a > 0 && b > 0
    ensures (x / a) / b == x / (a * b)
  {
    var q1, r1 := x / a, x % a;
    var q2, r2 := q1 / b, q1 % b;
    DivDivStep(x, a, b, q1, r1, q2, r2);
    ModUnique(x, a * b, q2, a * r2 + r1);
  }

  /** Two divisions in a row as one: the remainders combine. */
  lemma DivDivStep(x: int, a: int, b: int, q1: int, r1: int, q2: int, r2: int)
    requires a > 0 && b > 0
    requires x == a * q1 + r1 && 0 <= r1 < a && q1 == b * q2 + r2 && 0 <= r2 < b
    ensures x == (a * b) * q2 + (a * r2 + r1) && 0 <= a * r2 + r1 < a * b
  {
    assert a * q1 == (a * b) * q2 + a * r2;
    MulAtLeast(a, b - r2);
    assert a * (b - r2) == a * b - a * r2;
  }

  // ---------------------------------------------------------------------------
  // C's signed division and remainder truncate towards zero.

  /** `a / b` as C computes it (rounded towards zero). */
  function CDiv(a: int, b: int): int
    requires b != 0
  {
    if a >= 0 then (if b > 0 then a / b else -(a / -b))
    else (if b > 0 then -((-a) / b) else (-a) / (-b))
  }

  /** `a % b` as C computes it: the remainder has the sign of a. */
  function CMod(a: int, b: int): int
    requires b != 0
  {
    a - b * CDiv(a, b)
  }

  /** When b divides a, C's `%` is zero and C's `/` is the exact quotient. */
  lemma CDivExact(a: int, b: int, q: int)
    requires b != 0 && a == b * q
    ensures CMod(a, b) == 0 && CDiv(a, b) == q
  {
    if b > 0 {
      if a >= 0 {
        ModUnique(a, b, q, 0);
      } else {
        assert -a == b * (-q);
        ModUnique(-a, b, -q, 0);
      }
    } else {
      if a >= 0 {
        assert a == (-b) * (-q);
        ModUnique(a, -b, -q, 0);
      } else {
        assert -a == (-b) * q;
        ModUnique(-a, -b, q, 0);
      }
    }
  }

  // ---------------------------------------------------------------------------
  // Bits of a natural number.

  /** y shifted right by i bits. */
  function Shr(y: nat, i: nat): nat
  {
    if i == 0 then y else Shr(y / 2, i - 1)
  }

  /** Bit i of y, as `bn_testbit` reads it. */
  predicate TestBit(y: nat, i: nat)
  {
    Shr(y, i) % 2 == 1
  }

  lemma ShrIsDiv(y: nat, i: nat)
    ensures Shr(y, i) == y / Pow2(i)
    decreases i
  {
    if i > 0 {
      ShrIsDiv(y / 2, i - 1);
      DivDiv(y, 2, Pow2(i - 1));
    }
  }

  /** One more shift halves the value; the bit shifted out is bit i. */
  lemma ShrStep(y: nat, i: nat)
    ensures Shr(y, i) == 2 * Shr(y, i + 1) + (if TestBit(y, i) then 1 else 0)
  {
    ShrIsDiv(y, i);
    ShrIsDiv(y, i + 1);
    DivDiv(y, Pow2(i), 2);
    assert Pow2(i + 1) == Pow2(i) * 2;
  }

  lemma ShrPastTop(y: nat, k: nat)
    requires y < Pow2(k)
    ensures Shr(y, k) == 0
  {
    ShrIsDiv(y, k);
    ModSmall(y, Pow2(k));
  }

  // ---------------------------------------------------------------------------
  // Bitwise exclusive or of natural numbers (unbounded width).

  function Xor(a: nat, b: nat): nat
    decreases a + b
  {
    if a == 0 && b == 0 then 0
    else 2 * Xor(a / 2, b / 2) + (if a % 2 == b % 2 then 0 else 1)
  }

  lemma XorHalves(a: nat, b: nat)
    ensures Xor(a, b) / 2 == Xor(a / 2, b / 2)
    ensures Xor(a, b) % 2 == (if a % 2 == b % 2 then 0 else 1)
  {
    if a == 0 && b == 0 {
    } else {
      ModUnique(Xor(a, b), 2, Xor(a / 2, b / 2), if a % 2 == b % 2 then 0 else 1);
    }
  }

  lemma {:induction false} XorCommutes(a: nat, b: nat)
    ensures Xor(a, b) == Xor(b, a)
    decreases a + b
  {
    if a != 0 || b != 0 {
      XorCommutes(a / 2, b / 2);
    }
  }

  /** Masking twice with the same key gives back the message. */
  lemma {:induction false} XorInvolution(a: nat, k: nat)
    ensures Xor(Xor(a, k), k) == a
    decreases a + k
  {
    var c := Xor(a, k);
    if a == 0 && k == 0 {
    } else {
      XorHalves(a, k);
      XorHalves(c, k);
      XorInvolution(a / 2, k / 2);
      assert Xor(c, k) / 2 == a / 2;
      assert Xor(c, k) % 2 == a % 2;
      ModUnique(a, 2, Xor(c, k) / 2, Xor(c, k) % 2);
    }
  }

  /** Exclusive or of two w-bit numbers is a w-bit number. */
  lemma {:induction false} XorBound(a: nat, b: nat, w: nat)
    requires a < Pow2(w) && b < Pow2(w)
    ensures Xor(a, b) < Pow2(w)
    decreases w
  {
    if a == 0 && b == 0 {
    } else if w == 0 {
    } else {
      XorBound(a / 2, b / 2, w - 1);
    }
  }
}
