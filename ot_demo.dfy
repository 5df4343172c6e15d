/** The one-out-of-two oblivious transfer demonstration of src/ot.c, over the
    multiplicative group modulo the secp256k1 field prime.  The sender has
    A = g^a, the receiver sends B = g^b, or A·g^b for choice c = 1; the
    sender encrypts m0 under H(B^a) and m1 under H((B/A)^a) with the byte
    XOR of `xorr`; the receiver can decrypt only the chosen message, with
    H(A^b). */
module OtDemo {
  import opened ModArith
  import opened Curve

  // ---------------------------------------------------------------------------
  // `xorr`.

  /** Byte-wise XOR of two strings of equal length. */
  function XorBytes(m: seq<bv8>, k: seq<bv8>): (r: seq<bv8>)
    requires |k| == |m|
    ensures |r| == |m|
  {
    seq(|m|, i requires 0 <= i < |m| => m[i] ^ k[i])
  }

  /** `xorr(m, k, r, sz)`: r[i] = m[i] ⊕ k[i] for i < sz; nothing else is
      written.  The buffers may overlap. */
  method Xorr(m: array<bv8>, k: array<bv8>, r: array<bv8>, sz: nat)
    requires sz <= m.Length && sz <= k.Length && sz <= r.Length
    modifies r
    ensures r[..sz] == XorBytes(old(m[..sz]), old(k[..sz]))
    ensures r[sz..] == old(r[sz..])
  {
    var i := 0;
    while i < sz
      invariant 0 <= i <= sz
      invariant forall j :: 0 <= j < i ==> r[j] == old(m[j]) ^ old(k[j])
      invariant forall j :: i <= j < r.Length ==> r[j] == old(r[j])
      invariant forall j :: i <= j < m.Length ==> m[j] == old(m[j])
      invariant forall j :: i <= j < k.Length ==> k[j] == old(k[j])
    {
      r[i] := m[i] ^ k[i];
      i := i + 1;
    }
  }

  /** Encrypting and then decrypting with the same key gives the message
      back. */
  lemma XorRoundTrip(m: seq<bv8>, k: seq<bv8>)
    requires |k| == |m|
    ensures XorBytes(XorBytes(m, k), k) == m
  {
    forall i | 0 <= i < |m|
      ensures XorBytes(XorBytes(m, k), k)[i] == m[i]
    {
      var x, y := m[i], k[i];
      assert (x ^ y) ^ y == x;
    }
  }

  /** Decrypting with a different key changes some byte. */
  lemma XorWrongKey(m: seq<bv8>, k: seq<bv8>, k': seq<bv8>)
    requires |k| == |m| && |k'| == |m| && k != k'
    ensures XorBytes(XorBytes(m, k), k') != m
  {
    var i :| 0 <= i < |m| && k[i] != k'[i];
    var x, y, z := m[i], k[i], k'[i];
    assert (x ^ y) ^ z != x;
    assert XorBytes(XorBytes(m, k), k')[i] != m[i];
  }

  // ---------------------------------------------------------------------------
  // `ot_poc`.

  /** Which message the final comparison reports. */
  datatype Verdict = ReceivedM0 | ReceivedM1 | Unknown

  /** The values `ot_poc` computes: the blinded choice B, the three key
      arguments and the decryptions. */
  datatype Transcript = Transcript(B: nat, krArg: nat, k0Arg: nat, k1Arg: nat, d0: seq<bv8>, d1: seq<bv8>)

  /** A fresh buffer holding s. */
  method ToArray(s: seq<bv8>) returns (a: array<bv8>)
    ensures fresh(a) && a[..] == s
  {
    a := new bv8[|s|](i requires 0 <= i < |s| => s[i]);
  }

  /** g^(a·b) mod p, the Diffie-Hellman value, reached from both sides. */
  lemma PowPow(g: nat, a: nat, b: nat, p: nat)
    requires p > 0
    ensures Pow(Pow(g, a) % p, b) % p == Pow(g, a * b) % p
    ensures Pow(Pow(g, b) % p, a) % p == Pow(g, a * b) % p
  {
    PowMod(Pow(g, a), b, p);
    PowMul(g, a, b);
    PowMod(Pow(g, b), a, p);
    PowMul(g, b, a);
    assert b * a == a * b;
  }

  /** Dividing A·B by A with an inverse of A gives B back. */
  lemma CancelInverse(A: nat, inv: nat, B: nat, p: nat)
    requires p > 0 && (A * inv) % p == 1 && B < p
    ensures (inv * ((A * B) % p)) % p == B
  {
    MulModRight(inv, A * B, p);
    assert inv * (A * B) == (A * inv) * B;
    ModMul(A * inv, B, p);
    ModSmall(B, p);
    ModSmall(1, p);
  }

  /** The key arguments of `ot_poc`: B = g^b, times A when c = 1; the
      receiver's A^b, the sender's B^a, and (A⁻¹·B)^a after A is inverted in
      place.  Whatever c is, the key of the chosen message agrees with the
      receiver's. */
  method OtKeys(c: nat, a: nat, b: nat, g: nat, inverse: nat -> nat) returns (blinded: nat, krArg: nat, k0Arg: nat, k1Arg: nat)
    requires (Pow(g, a) % FIELD_PRIME * inverse(Pow(g, a) % FIELD_PRIME)) % FIELD_PRIME == 1
    ensures blinded == if c == 1 then (Pow(g, a) % FIELD_PRIME * (Pow(g, b) % FIELD_PRIME)) % FIELD_PRIME
                       else Pow(g, b) % FIELD_PRIME
    ensures krArg == Pow(g, a * b) % FIELD_PRIME
    ensures c != 1 ==> k0Arg == krArg
    ensures c == 1 ==> k1Arg == krArg
  {
    var p := FIELD_PRIME;
    var A := Pow(g, a) % p;
    var B := Pow(g, b) % p;
    if c == 1 {
      B := (A * B) % p;
    }
    blinded := B;
    krArg := Pow(A, b) % p;
    k0Arg := Pow(B, a) % p;
    var invA := inverse(A);
    A := invA;
    B := (A * B) % p;
    k1Arg := Pow(B, a) % p;
    PowPow(g, a, b, p);
    ModSmall(Pow(g, b) % p, p);
    if c == 1 {
      CancelInverse(Pow(g, a) % p, invA, Pow(g, b) % p, p);
    }
  }

  /** One message through `xorr` twice: e = m ⊕ k into a fresh buffer, then
      the receiver's d = e ⊕ kr. */
  method EncryptDecrypt(m: seq<bv8>, k: seq<bv8>, kr: seq<bv8>) returns (d: seq<bv8>)
    requires |m| == 32 && |k| == 32 && |kr| == 32
    ensures d == XorBytes(XorBytes(m, k), kr)
    ensures k == kr ==> d == m
  {
    var ma := ToArray(m);
    var ka := ToArray(k);
    var e := new bv8[32];
    Xorr(ma, ka, e, 32);
    assert e[..] == e[..32];
    var kra := ToArray(kr);
    var da := new bv8[32];
    Xorr(e, kra, da, 32);
    assert da[..] == da[..32];
    d := da[..];
    XorRoundTrip(m, kr);
  }

  /** The encryptions e0 = m0 ⊕ k0, e1 = m1 ⊕ k1 and the receiver's
      decryptions of both with kr. */
  method Transfer(m0: seq<bv8>, m1: seq<bv8>, k0: seq<bv8>, k1: seq<bv8>, kr: seq<bv8>) returns (d0: seq<bv8>, d1: seq<bv8>)
    requires |m0| == 32 && |m1| == 32 && |k0| == 32 && |k1| == 32 && |kr| == 32
    ensures d0 == XorBytes(XorBytes(m0, k0), kr) && d1 == XorBytes(XorBytes(m1, k1), kr)
    ensures k0 == kr ==> d0 == m0
    ensures k1 == kr ==> d1 == m1
  {
    d0 := EncryptDecrypt(m0, k0, kr);
    d1 := EncryptDecrypt(m1, k1, kr);
  }

  /** `ot_poc(c)` for the random messages m0, m1 and exponents a, b, g.
      `bn_inverse` is the parameter `inverse`, required to invert A = g^a;
      the hash `sha256_Raw` of an argument's 32-byte encoding is the
      parameter H.  The chosen message always decrypts, so the
      "unknown message" branch is unreachable. */
  method OtPoc(c: nat, m0: seq<bv8>, m1: seq<bv8>, a: nat, b: nat, g: nat,
               inverse: nat -> nat, H: nat -> seq<bv8>) returns (t: Transcript, verdict: Verdict)
    requires |m0| == 32 && |m1| == 32
    requires forall x :: |H(x)| == 32
    requires (Pow(g, a) % FIELD_PRIME * inverse(Pow(g, a) % FIELD_PRIME)) % FIELD_PRIME == 1
    ensures t.B == if c == 1 then (Pow(g, a) % FIELD_PRIME * (Pow(g, b) % FIELD_PRIME)) % FIELD_PRIME
                   else Pow(g, b) % FIELD_PRIME
    ensures t.krArg == Pow(g, a * b) % FIELD_PRIME
    ensures c != 1 ==> t.k0Arg == t.krArg && t.d0 == m0 && verdict == ReceivedM0
    ensures c == 1 ==> t.k1Arg == t.krArg && t.d1 == m1 && (verdict == ReceivedM1 || t.d0 == m0)
    ensures verdict == if t.d0 == m0 then ReceivedM0 else if t.d1 == m1 then ReceivedM1 else Unknown
    ensures verdict != Unknown
  {
    var blinded, krArg, k0Arg, k1Arg := OtKeys(c, a, b, g, inverse);
    var kr, k0, k1 := H(krArg), H(k0Arg), H(k1Arg);
    var d0, d1 := Transfer(m0, m1, k0, k1, kr);
    t := Transcript(blinded, krArg, k0Arg, k1Arg, d0, d1);
    verdict := if d0 == m0 then ReceivedM0 else if d1 == m1 then ReceivedM1 else Unknown;
  }
}
