/** The arithmetic of the correlated oblivious transfer in `ot`: for each bit
    i of the receiver's y, the sender masks U_i and U_i + x with hashed
    Diffie-Hellman keys, the receiver can unmask exactly the one its bit
    chooses, and both accumulate their 256 values by Horner's rule from bit
    255 down to 0.  The hash of a point's x coordinate is an arbitrary
    function H. */
module CorrelatedOt {
  import opened ModArith
  import opened Curve

  /** The two masked messages m[i][0], m[i][1] of one bit. */
  datatype OtPair = OtPair(m0: nat, m1: nat)

  /** The accumulator after bits |v|−1 down to i: Uij = 2·Uij + U_i mod n. */
  function BitHorner(v: seq<nat>, i: nat): (r: nat)
    requires i <= |v|
    ensures r < ORDER
    decreases |v| - i
  {
    if i == |v| then 0 else (2 * BitHorner(v, i + 1) + v[i]) % ORDER
  }

  /** The receiver's accumulator minus the sender's, modulo n: the additive
      share relation the transfer establishes. */
  function ModDiff(v: int, u: int): (d: nat)
    ensures d < ORDER && (d - (v - u)) % ORDER == 0
  {
    (v - u) % ORDER
  }

  /** The sender's messages for one bit: H(a·B) ⊕ U_i and
      H(a·(B − A)) ⊕ (U_i + x mod n). */
  function SenderPair(a: nat, A: Point, B: Point, u: nat, x: nat, H: Point -> nat): OtPair
  {
    OtPair(Xor(H(Mul(a, B)), u), Xor(H(Mul(a, Add(Negate(A), B))), (u + x) % ORDER))
  }

  /** The receiver's choice for one bit: b·G, plus the sender's A when the
      bit is set. */
  function ReceiverChoice(b: nat, A: Point, bit: bool): Point
  {
    if bit then Add(A, MulBase(b)) else MulBase(b)
  }

  /** The receiver unmasks the chosen message with H(b·A). */
  function ReceiverValue(b: nat, A: Point, m: OtPair, bit: bool, H: Point -> nat): nat
  {
    Xor(H(Mul(b, A)), if bit then m.m1 else m.m0)
  }

  function SenderMessages(a: seq<nat>, A: seq<Point>, B: seq<Point>, u: seq<nat>, x: nat, H: Point -> nat): (m: seq<OtPair>)
    requires |a| == |u| && |A| == |u| && |B| == |u|
    ensures |m| == |u|
  {
    seq(|u|, i requires 0 <= i < |u| => SenderPair(a[i], A[i], B[i], u[i], x, H))
  }

  function Choices(b: seq<nat>, A: seq<Point>, y: nat): (B: seq<Point>)
    requires |A| == |b|
    ensures |B| == |b|
  {
    seq(|b|, i requires 0 <= i < |b| => ReceiverChoice(b[i], A[i], TestBit(y, i)))
  }

  function Decoded(b: seq<nat>, A: seq<Point>, m: seq<OtPair>, y: nat, H: Point -> nat): (v: seq<nat>)
    requires |A| == |b| && |m| == |b|
    ensures |v| == |b|
  {
    seq(|b|, i requires 0 <= i < |b| => ReceiverValue(b[i], A[i], m[i], TestBit(y, i), H))
  }

  /** One bit: when A = a·G, the receiver obtains U_i for a clear bit and
      U_i + x mod n for a set bit, whatever the hash. */
  lemma OtBit(a: nat, b: nat, u: nat, x: nat, bit: bool, H: Point -> nat)
    ensures ReceiverValue(b, MulBase(a), SenderPair(a, MulBase(a), ReceiverChoice(b, MulBase(a), bit), u, x, H), bit, H)
         == if bit then (u + x) % ORDER else u
  {
    var A := MulBase(a);
    var B := ReceiverChoice(b, A, bit);
    var m := SenderPair(a, A, B, u, x, H);
    var plain := if bit then (u + x) % ORDER else u;
    DiffieHellman(a, b);
    if bit {
      NegateCancels(A, MulBase(b));
      assert Mul(a, Add(Negate(A), B)) == Mul(b, A);
    } else {
      assert Mul(a, B) == Mul(b, A);
    }
    var k := H(Mul(b, A));
    assert (if bit then m.m1 else m.m0) == Xor(k, plain);
    XorCommutes(k, plain);
    XorCommutes(k, Xor(plain, k));
    XorInvolution(plain, k);
  }

  /** The sender's public values A_i = a_i·G. */
  function PublicKeys(a: seq<nat>): (A: seq<Point>)
    ensures |A| == |a|
    ensures forall i :: 0 <= i < |a| ==> A[i] == MulBase(a[i])
  {
    seq(|a|, i requires 0 <= i < |a| => MulBase(a[i]))
  }

  /** The values the receiver should end with: U_k + x mod n where bit k
      of y is set and U_k where it is clear. */
  function Correlated(u: seq<nat>, x: nat, y: nat): (v: seq<nat>)
    ensures |v| == |u|
    ensures forall k :: 0 <= k < |u| ==> v[k] == if TestBit(y, k) then (u[k] + x) % ORDER else u[k]
  {
    seq(|u|, k requires 0 <= k < |u| => if TestBit(y, k) then (u[k] + x) % ORDER else u[k])
  }

  /** Every bit of an honest transfer decodes as in OtBit. */
  lemma DecodedHonest(a: seq<nat>, A: seq<Point>, b: seq<nat>, u: seq<nat>, x: nat, y: nat, H: Point -> nat)
    requires |a| == |u| && |b| == |u| && A == PublicKeys(a)
    ensures Decoded(b, A, SenderMessages(a, A, Choices(b, A, y), u, x, H), y, H) == Correlated(u, x, y)
  {
    var v := Decoded(b, A, SenderMessages(a, A, Choices(b, A, y), u, x, H), y, H);
    forall i | 0 <= i < |u|
      ensures v[i] == Correlated(u, x, y)[i]
    {
      OtBit(a[i], b[i], u[i], x, TestBit(y, i), H);
    }
  }

  /** The bits w−1 … i of y, read as a number. */
  function Bits(y: nat, i: nat, w: nat): nat
    requires i <= w
    decreases w - i
  {
    if i == w then 0 else 2 * Bits(y, i + 1, w) + (if TestBit(y, i) then 1 else 0)
  }

  lemma {:induction false} BitsShr(y: nat, i: nat, w: nat)
    requires i <= w
    ensures Bits(y, i, w) + Pow2(w - i) * Shr(y, w) == Shr(y, i)
    ensures Bits(y, i, w) < Pow2(w - i)
    decreases w - i
  {
    if i < w {
      BitsShr(y, i + 1, w);
      ShrStep(y, i);
      assert Pow2(w - i) == 2 * Pow2(w - (i + 1));
      BitsShrStep(Bits(y, i + 1, w), Pow2(w - (i + 1)), Shr(y, w), Shr(y, i + 1), if TestBit(y, i) then 1 else 0);
    }
  }

  lemma BitsShrStep(bp: int, p: int, s: int, sh: int, bit: int)
    requires bp + p * s == sh
    ensures (2 * bp + bit) + (2 * p) * s == 2 * sh + bit
  {
  }

  /** The bits that `bn_testbit` reads for i < w are y mod 2^w. */
  lemma BitsAreLowPart(y: nat, w: nat)
    ensures Bits(y, 0, w) == y % Pow2(w)
  {
    BitsShr(y, 0, w);
    ModUnique(y, Pow2(w), Shr(y, w), Bits(y, 0, w));
  }

  /** One Horner step keeps the difference of the two accumulators. */
  lemma DiffStep(vp: int, up: int, vi: int, ui: int, d: int, e: int)
    requires (vp - up) % ORDER == d % ORDER && (vi - ui) % ORDER == e % ORDER
    ensures (((2 * vp + vi) % ORDER) - ((2 * up + ui) % ORDER)) % ORDER == (2 * d + e) % ORDER
  {
    ModSub(2 * vp + vi, 2 * up + ui, ORDER);
    ModSub((2 * vp + vi) % ORDER, (2 * up + ui) % ORDER, ORDER);
    ModIdempotent(2 * vp + vi, ORDER);
    ModIdempotent(2 * up + ui, ORDER);
    assert (2 * vp + vi) - (2 * up + ui) == 2 * (vp - up) + (vi - ui);
    ModAdd(2 * (vp - up), vi - ui, ORDER);
    ModAdd(2 * d, e, ORDER);
    MulModRight(2, vp - up, ORDER);
    MulModRight(2, d, ORDER);
  }

  lemma StepCombine(vp: int, up: int, vi: int, ui: int, x: int, bp: int, bit: int)
    requires (vp - up) % ORDER == (x * bp) % ORDER && (vi - ui) % ORDER == (x * bit) % ORDER
    ensures (((2 * vp + vi) % ORDER) - ((2 * up + ui) % ORDER)) % ORDER == (x * (2 * bp + bit)) % ORDER
  {
    DiffStep(vp, up, vi, ui, x * bp, x * bit);
    assert 2 * (x * bp) + x * bit == x * (2 * bp + bit);
  }

  lemma BitDiff(ui: nat, vi: nat, x: nat, bit: bool)
    requires vi == if bit then (ui + x) % ORDER else ui
    ensures (vi - ui) % ORDER == (x * (if bit then 1 else 0)) % ORDER
  {
    if bit {
      ModSub(ui + x, ui, ORDER);
      ModSub(vi, ui, ORDER);
      ModIdempotent(ui + x, ORDER);
    }
  }

  lemma HornerDiffStep(u: seq<nat>, v: seq<nat>, x: nat, y: nat, i: nat)
    requires v == Correlated(u, x, y) && i < |u|
    requires (BitHorner(v, i + 1) - BitHorner(u, i + 1)) % ORDER == (x * Bits(y, i + 1, |u|)) % ORDER
    ensures (BitHorner(v, i) - BitHorner(u, i)) % ORDER == (x * Bits(y, i, |u|)) % ORDER
  {
    var bit := if TestBit(y, i) then 1 else 0;
    var bp := Bits(y, i + 1, |u|);
    assert Bits(y, i, |u|) == 2 * bp + bit;
    BitDiff(u[i], v[i], x, TestBit(y, i));
    StepCombine(BitHorner(v, i + 1), BitHorner(u, i + 1), v[i], u[i], x, bp, bit);
  }

  /** The receiver's value minus the sender's is x times the bits chosen. */
  lemma {:induction false} HornerDiff(u: seq<nat>, v: seq<nat>, x: nat, y: nat, i: nat)
    requires v == Correlated(u, x, y) && i <= |u|
    ensures (BitHorner(v, i) - BitHorner(u, i)) % ORDER == (x * Bits(y, i, |u|)) % ORDER
    decreases |u| - i
  {
    if i < |u| {
      HornerDiff(u, v, x, y, i + 1);
      HornerDiffStep(u, v, x, y, i);
    } else {
      assert x * Bits(y, i, |u|) == 0;
    }
  }

  /** When the sender's A[i] are a[i]·G, the receiver's accumulated V and the
      sender's accumulated U differ by x·y modulo n, with y read through its
      low |u| bits. */
  lemma OtCorrect(a: seq<nat>, A: seq<Point>, b: seq<nat>, u: seq<nat>, x: nat, y: nat, H: Point -> nat)
    requires |a| == |u| && |b| == |u| && A == PublicKeys(a)
    ensures ModDiff(BitHorner(Decoded(b, A, SenderMessages(a, A, Choices(b, A, y), u, x, H), y, H), 0), BitHorner(u, 0)) == (x * (y % Pow2(|u|))) % ORDER
  {
    DecodedHonest(a, A, b, u, x, y, H);
    DiffIsProduct(u, x, y);
  }

  /** The whole-vector form of HornerDiff, with the bits read as y mod 2^|u|. */
  lemma DiffIsProduct(u: seq<nat>, x: nat, y: nat)
    ensures ModDiff(BitHorner(Correlated(u, x, y), 0), BitHorner(u, 0)) == (x * (y % Pow2(|u|))) % ORDER
  {
    HornerDiff(u, Correlated(u, x, y), x, y, 0);
    BitsAreLowPart(y, |u|);
  }

  /** The order is below 2^256, so a scalar has no bits past 255. */
  lemma OrderFits(w: nat)
    requires w == 256
    ensures ORDER < Pow2(w)
  {
    var k1 := w / 256;
    assert Pow2(k1) == 2;
    var k2 := k1 + k1;
    Pow2Add(k1, k1);
    var k4 := k2 + k2;
    Pow2Add(k2, k2);
    var k8 := k4 + k4;
    Pow2Add(k4, k4);
    var k16 := k8 + k8;
    Pow2Add(k8, k8);
    var k32 := k16 + k16;
    Pow2Add(k16, k16);
    var k64 := k32 + k32;
    Pow2Add(k32, k32);
    var k128 := k64 + k64;
    Pow2Add(k64, k64);
    Pow2Add(k128, k128);
    assert k128 + k128 == w;
  }

  /** With the 256 bits of `OT_TERM_SIZE` and a reduced y, the shares of an
      honest transfer add up to x·y modulo n. */
  lemma OtCorrectScalar(a: seq<nat>, A: seq<Point>, b: seq<nat>, u: seq<nat>, x: nat, y: nat, H: Point -> nat)
    requires |a| == 256 && |b| == 256 && |u| == 256 && y < ORDER && A == PublicKeys(a)
    ensures ModDiff(BitHorner(Decoded(b, A, SenderMessages(a, A, Choices(b, A, y), u, x, H), y, H), 0), BitHorner(u, 0))
         == (x * y) % ORDER
  {
    OtCorrect(a, A, b, u, x, y, H);
    OrderFits(|u|);
    ModSmall(y, Pow2(|u|));
  }
}
