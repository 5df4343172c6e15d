/** The two records of the protocol: a sharing polynomial with its
    evaluations, and a party with its identity and precomputed OT values. */
module MpcTypes {
  import opened Curve
  import Config

  /** `Polynomial`: THRESHOLD + 1 coefficients (`a0` aliases coeff[0]) and the
      evaluations fx[0..N_PARTIES]. */
  class Polynomial {
    var coeffCount: nat
    var memberCount: nat
    const coeff: array<nat>
    const fx: array<nat>

    /** The evaluations are kept reduced modulo the order. */
    predicate Reduced()
      reads this, fx
    {
      forall i :: 0 <= i < fx.Length ==> fx[i] < ORDER
    }

    constructor ()
      ensures coeff.Length == Config.THRESHOLD + 1 && fx.Length == Config.N_PARTIES + 1
      ensures fresh(coeff) && fresh(fx) && coeff != fx && Reduced()
    {
      coeffCount := 0;
      memberCount := 0;
      coeff := new nat[Config.THRESHOLD + 1](_ => 0);
      fx := new nat[Config.N_PARTIES + 1](_ => 0);
    }

    /** *a0. */
    function A0(): nat
      reads coeff
      requires coeff.Length > 0
    {
      coeff[0]
    }
  }

  /** `mpc_party`, without the socket state and the entropy (which only feeds
      key derivation). */
  class Party {
    var id: nat
    var name: string
    var port: nat
    /** The private key share, read as a big-endian number. */
    var privateKey: nat
    /** OT precomputation: a[i], b[i] and A[i] = a[i]·G for each of the
        OT_TERM_SIZE bits. */
    const a: array<nat>
    const b: array<nat>
    const A: array<Point>

    predicate OtSized()
      reads this
    {
      a.Length == Config.OT_TERM_SIZE && b.Length == Config.OT_TERM_SIZE && A.Length == Config.OT_TERM_SIZE
    }

    constructor ()
      ensures OtSized() && fresh(a) && fresh(b) && fresh(A) && a != b
      ensures id == 0 && name == [] && port == 0 && privateKey == 0
    {
      id := 0;
      name := [];
      port := 0;
      privateKey := 0;
      a := new nat[Config.OT_TERM_SIZE](_ => 0);
      b := new nat[Config.OT_TERM_SIZE](_ => 0);
      A := new Point[Config.OT_TERM_SIZE](_ => Infinity);
    }
  }
}
