/** The protocol rounds of one party: dialling a peer, serving the peers in
    the party's own round, broadcasting shares, the private-share exchange of
    the distributed key generation (DKG) and its verification.  Round i is
    served by party i; in every other round the party is a client of party i.
    Transport outcomes and received values are inputs (see Transport). */
module Network {
  import opened ModArith
  import opened Curve
  import opened Config
  import opened Wrappers
  import opened Transport
  import opened MpcTypes
  import opened MpcHelpers
  import Poly

  /** `receiver`: open a socket, convert the address, and try to connect,
      retrying a refused connect up to TIMEOUT_TRIES times. */
  method Receiver(dial: Dial) returns (status: Status)
    ensures status == DialStatus(dial)
  {
    if !dial.socketOk {
      return NetSocketFail;
    }
    if !dial.addressOk {
      return NetInvalidConnection;
    }
    var tries := 0;
    while tries < TIMEOUT_TRIES
      invariant 0 <= tries <= TIMEOUT_TRIES
      invariant RetryStatus(dial.attempts, 0) == RetryStatus(dial.attempts, tries)
    {
      var outcome := AttemptAt(dial.attempts, tries);
      if outcome != Connected {
        if outcome != Refused {
          return NetInvalidConnection;
        }
      } else {
        break;
      }
      tries := tries + 1;
    }
    if tries == TIMEOUT_TRIES {
      return NetConnectionTimeout;
    }
    return Success;
  }

  /** The client side of one round: dial party i, send the own id, read. */
  method FetchRound<T>(f: Fetch<T>) returns (status: Status)
    ensures status == FetchStatus(f)
  {
    status := Receiver(f.dial);
    if status != Success {
      return;
    }
    if !f.idSent {
      return NetSendFail;
    }
    if !f.readOk {
      return NetReadFail;
    }
  }

  /** The serving round of `broadcast_shares` and `dkg_private_share`: n − 1
      peers in any order, each id checked against and marked in
      `connected[]`, in which the server's own id is marked from the start.
      Returns the ids of the peers served, in order. */
  method ServeRound(legs: seq<Leg>, nParties: nat, pid: nat, readFail: Status) returns (status: Status, served: seq<nat>)
    requires 1 <= pid <= nParties && |legs| == nParties - 1 && IdsInRange(legs, nParties) && SendOnly(legs)
    requires readFail != Success
    ensures status == ServeStatus(legs, {pid}, readFail)
    ensures ServeResult(status, readFail)
    ensures served == Ids(legs[..ServedCount(legs, {pid}, readFail)])
    ensures status == Success ==> CoversOthers(served, pid, nParties)
  {
    ServeStatusRange(legs, {pid}, readFail);
    var connected := new bool[nParties](_ => false);
    connected[pid - 1] := true;
    ghost var seen: set<nat> := {pid};
    served := [];
    var j := 0;
    while j < |legs|
      invariant 0 <= j <= |legs|
      invariant forall k :: 0 <= k < nParties ==> (connected[k] <==> k + 1 in seen)
      invariant ServeStatus(legs, {pid}, readFail) == ServeStatus(legs[j..], seen, readFail)
      invariant ServedCount(legs, {pid}, readFail) == j + ServedCount(legs[j..], seen, readFail)
      invariant served == Ids(legs[..j])
    {
      var leg := legs[j];
      ServeStep(legs, j, seen, readFail);
      if !leg.accepted {
        return NetFailedConnection, served;
      }
      if !leg.idRead {
        return readFail, served;
      }
      if connected[leg.id - 1] {
        return NetInvalidConnection, served;
      }
      connected[leg.id - 1] := true;
      if leg.after != Success {
        return leg.after, served;
      }
      seen := seen + {leg.id};
      assert Ids(legs[..j + 1]) == Ids(legs[..j]) + [leg.id];
      served := served + [leg.id];
      j := j + 1;
    }
    assert legs[..j] == legs && legs[j..] == [];
    ServeCovers(legs, pid, nParties, readFail);
    status := Success;
  }

  /** The statuses of the rounds 1..n of a broadcast-style exchange. */
  function Rounds<T>(n: nat, pid: nat, serve: seq<Leg>, fetch: seq<Fetch<T>>, readFail: Status): (rs: seq<Status>)
    requires n <= |fetch|
    ensures |rs| == n
  {
    seq(n, k requires 0 <= k < n => if k + 1 == pid then ServeStatus(serve, {pid}, readFail) else FetchStatus(fetch[k]))
  }

  /** A broadcast-style exchange with send-only serving ends in a status of
      the serving round or of a fetching round. */
  lemma RoundsRange<T>(n: nat, pid: nat, serve: seq<Leg>, fetch: seq<Fetch<T>>, readFail: Status)
    requires n <= |fetch| && SendOnly(serve)
    ensures ServeResult(Outcome(Rounds(n, pid, serve, fetch, readFail)), readFail) ||
            FetchResult(Outcome(Rounds(n, pid, serve, fetch, readFail)))
  {
    var rs := Rounds(n, pid, serve, fetch, readFail);
    var k := FirstFail(rs);
    if k < n {
      if k + 1 == pid {
        ServeStatusRange(serve, {pid}, readFail);
      } else {
        FetchStatusRange(fetch[k]);
      }
    }
  }

  function Firsts<T>(s: seq<(nat, T)>): seq<nat>
  {
    seq(|s|, j requires 0 <= j < |s| => s[j].0)
  }

  /** `broadcast_shares`: in round i = 1..nShares, party i sends its own slot
      shares[i − 1] to every peer, and every other party reads slot i − 1.  A
      party whose id exceeds nShares only receives.  `sent` lists the peers
      served and what each was sent. */
  method BroadcastShares<T>(shares: array<T>, nShares: nat, nParties: nat, pid: nat,
                            serve: seq<Leg>, fetch: seq<Fetch<T>>) returns (status: Status, sent: seq<(nat, T)>)
    requires 1 <= pid <= nParties && nShares <= shares.Length && nShares <= |fetch|
    requires |serve| == nParties - 1 && IdsInRange(serve, nParties) && SendOnly(serve)
    modifies shares
    ensures status == Outcome(Rounds(nShares, pid, serve, fetch, NetReadFail))
    ensures ServeResult(status, NetReadFail) || FetchResult(status)
    ensures forall k :: 0 <= k < shares.Length ==>
      shares[k] == if k < FirstFail(Rounds(nShares, pid, serve, fetch, NetReadFail)) && k + 1 != pid
                   then fetch[k].value else old(shares[k])
    ensures pid > nShares ==> sent == []
    ensures forall j :: 0 <= j < |sent| ==> pid <= shares.Length && sent[j].1 == old(shares[pid - 1])
    ensures status == Success && pid <= nShares ==> CoversOthers(Firsts(sent), pid, nParties)
  {
    ghost var rounds := Rounds(nShares, pid, serve, fetch, NetReadFail);
    RoundsRange(nShares, pid, serve, fetch, NetReadFail);
    sent := [];
    var i := 1;
    while i <= nShares
      invariant 1 <= i <= nShares + 1
      invariant forall j :: 0 <= j < i - 1 ==> rounds[j] == Success
      invariant forall k :: 0 <= k < shares.Length ==>
        shares[k] == if k < i - 1 && k + 1 != pid then fetch[k].value else old(shares[k])
      invariant pid >= i ==> sent == []
      invariant forall j :: 0 <= j < |sent| ==> pid <= shares.Length && sent[j].1 == old(shares[pid - 1])
      invariant pid < i ==> CoversOthers(Firsts(sent), pid, nParties)
    {
      if i == pid {
        var st, served := ServeRound(serve, nParties, pid, NetReadFail);
        var mine := shares[pid - 1];
        sent := seq(|served|, j requires 0 <= j < |served| => (served[j], mine));
        assert rounds[i - 1] == st;
        if st != Success {
          FirstFailIs(rounds, i - 1);
          return st, sent;
        }
        assert Firsts(sent) == served;
      } else {
        var st := FetchRound(fetch[i - 1]);
        assert rounds[i - 1] == st;
        if st != Success {
          FirstFailIs(rounds, i - 1);
          return st, sent;
        }
        shares[i - 1] := fetch[i - 1].value;
      }
      i := i + 1;
    }
    FirstFailIs(rounds, nShares);
    status := Success;
  }

  /** FirstFail names the round that stops the sequence. */
  lemma {:induction false} FirstFailIs(ss: seq<Status>, k: nat)
    requires k <= |ss| && forall j :: 0 <= j < k ==> ss[j] == Success
    requires k < |ss| ==> ss[k] != Success
    ensures FirstFail(ss) == k
    decreases k
  {
    if k > 0 {
      assert ss[0] == Success;
      FirstFailIs(ss[1..], k - 1);
    }
  }

  /** The pairs (id, fx[id]) sent to the peers served. */
  function Evaluations(ids: seq<nat>, S: Polynomial): (sent: seq<(nat, nat)>)
    requires forall j :: 0 <= j < |ids| ==> ids[j] < S.fx.Length
    reads S.fx
    ensures Firsts(sent) == ids
    ensures forall j :: 0 <= j < |sent| ==> sent[j].0 == ids[j] && sent[j].1 == S.fx[ids[j]]
  {
    seq(|ids|, j requires 0 <= j < |ids| reads S.fx => (ids[j], S.fx[ids[j]]))
  }

  lemma AccumulateStep(own: int, sum: int, si: int, eval: int)
    requires si == (own + sum) % ORDER
    ensures (si + eval) % ORDER == (own + (sum + eval)) % ORDER
  {
    ModAdd(own + sum, eval, ORDER);
    ModAdd(si, eval, ORDER);
    ModIdempotent(own + sum, ORDER);
  }

  /** Σ of the values read in the rounds before k other than the own one. */
  function SumOthers(fetch: seq<Fetch<nat>>, pid: nat, k: nat): int
    requires k <= |fetch|
  {
    if k == 0 then 0
    else SumOthers(fetch, pid, k - 1) + (if k == pid then 0 else fetch[k - 1].value)
  }

  /** The private share S_i that `dkg_private_share` computes on success. */
  function PrivateShare(own: nat, fetch: seq<Fetch<nat>>, pid: nat, nParties: nat): nat
    requires nParties <= |fetch|
  {
    (own + SumOthers(fetch, pid, nParties)) % ORDER
  }

  /** `dkg_private_share`: S_i starts as the party's own evaluation
      fx[party_id] and adds, modulo the order, the evaluation every other party
      serves in its round; in its own round the party sends each peer id the
      evaluation fx[id].  An unreadable peer id is `MPC_OP_INVALID_DATA`
      here. */
  method DkgPrivateShare(pid: nat, nParties: nat, S: Polynomial, serve: seq<Leg>, fetch: seq<Fetch<nat>>)
      returns (status: Status, si: nat, sent: seq<(nat, nat)>)
    requires 1 <= pid <= nParties && nParties < S.fx.Length && nParties <= |fetch|
    requires |serve| == nParties - 1 && IdsInRange(serve, nParties) && SendOnly(serve) && S.Reduced()
    ensures status == Outcome(Rounds(nParties, pid, serve, fetch, InvalidData))
    ensures ServeResult(status, InvalidData) || FetchResult(status)
    ensures status == Success ==> si == PrivateShare(S.fx[pid], fetch, pid, nParties)
    ensures forall j :: 0 <= j < |sent| ==> 1 <= sent[j].0 <= nParties && sent[j].1 == S.fx[sent[j].0]
    ensures status == Success ==> CoversOthers(Firsts(sent), pid, nParties)
  {
    ghost var rounds := Rounds(nParties, pid, serve, fetch, InvalidData);
    RoundsRange(nParties, pid, serve, fetch, InvalidData);
    si := S.fx[pid];
    ghost var own := S.fx[pid];
    ModSmall(own, ORDER);
    sent := [];
    var i := 1;
    while i <= nParties
      invariant 1 <= i <= nParties + 1
      invariant forall j :: 0 <= j < i - 1 ==> rounds[j] == Success
      invariant si == (own + SumOthers(fetch, pid, i - 1)) % ORDER
      invariant forall j :: 0 <= j < |sent| ==> 1 <= sent[j].0 <= nParties && sent[j].1 == S.fx[sent[j].0]
      invariant pid < i ==> CoversOthers(Firsts(sent), pid, nParties)
    {
      if i == pid {
        var st, served := ServeRound(serve, nParties, pid, InvalidData);
        sent := Evaluations(served, S);
        assert rounds[i - 1] == st;
        if st != Success {
          FirstFailIs(rounds, i - 1);
          return st, si, sent;
        }
      } else {
        var st := FetchRound(fetch[i - 1]);
        assert rounds[i - 1] == st;
        if st != Success {
          FirstFailIs(rounds, i - 1);
          return st, si, sent;
        }
        var eval := fetch[i - 1].value;
        AccumulateStep(own, SumOthers(fetch, pid, i - 1), si, eval);
        si := (si + eval) % ORDER;
      }
      i := i + 1;
    }
    FirstFailIs(rounds, nParties);
    status := Success;
  }

  /** The public shares a party holds after the verification broadcast: its
      own Q_i in slot party_id − 1 (when that slot exists) and the value read
      from party k + 1 in every other slot k. */
  function Received(qi: Point, pid: nat, t: nat, fetch: seq<Fetch<Point>>): (pts: seq<Point>)
    requires t + 1 <= |fetch|
    ensures |pts| == t + 1
  {
    seq(t + 1, k requires 0 <= k < t + 1 => if k + 1 == pid then qi else fetch[k].value)
  }

  /** The status of `dkg_verify_and_calculate`: the broadcast's, or
      `MPC_OP_CHECK_FAIL` when the exponent interpolation at party_id over the
      nodes 1..t+1 differs from the party's own Q_i. */
  function VerifyStatus(pid: nat, t: nat, qi: Point, serve: seq<Leg>, fetch: seq<Fetch<Point>>): Status
    requires t + 1 <= |fetch|
  {
    var bc := Outcome(Rounds(t + 1, pid, serve, fetch, NetReadFail));
    if bc != Success then bc
    else if ExpInterpolation(Received(qi, pid, t, fetch), pid, t) != qi then CheckFail
    else Success
  }

  /** The group key Q, the interpolation at 0. */
  function GroupKey(pid: nat, t: nat, qi: Point, fetch: seq<Fetch<Point>>): Point
    requires t + 1 <= |fetch|
  {
    ExpInterpolation(Received(qi, pid, t, fetch), 0, t)
  }

  /** `dkg_verify_and_calculate`: broadcasts the public shares of parties
      1..t+1, checks the own share against the interpolation and, when Q is
      requested, interpolates Q at 0. */
  method DkgVerifyAndCalculate(pid: nat, nParties: nat, t: nat, qi: Point, wantQ: bool,
                               serve: seq<Leg>, fetch: seq<Fetch<Point>>) returns (status: Status, q: Option<Point>)
    requires 1 <= pid <= nParties && t + 1 <= |fetch|
    requires |serve| == nParties - 1 && IdsInRange(serve, nParties) && SendOnly(serve)
    ensures status == VerifyStatus(pid, t, qi, serve, fetch)
    ensures q == if status == Success && wantQ then Some(GroupKey(pid, t, qi, fetch)) else None
  {
    q := None;
    var shares := new Point[t + 1](_ => Infinity);
    if pid <= t + 1 {
      shares[pid - 1] := qi;
    }
    ghost var before := shares[..];
    var sent;
    status, sent := BroadcastShares(shares, t + 1, nParties, pid, serve, fetch);
    if status != Success {
      return;
    }
    assert shares[..] == Received(qi, pid, t, fetch);
    var xcords := NodeCords(t);
    StandardNodesExact(xcords, t, pid);
    var qj := LagrangeExpInterpolate(shares[..], xcords, pid, t);
    if qj != qi {
      return CheckFail, None;
    }
    if wantQ {
      StandardNodesExact(xcords, t, 0);
      var key := LagrangeExpInterpolate(shares[..], xcords, 0, t);
      q := Some(key);
    }
  }

  /** The transport seen by one DKG run. */
  datatype DkgWire = DkgWire(shareServe: seq<Leg>, shareFetch: seq<Fetch<nat>>,
                             verifyServe: seq<Leg>, verifyFetch: seq<Fetch<Point>>)

  predicate WireFits(w: DkgWire, nParties: nat, t: nat)
  {
    nParties <= |w.shareFetch| && t + 1 <= |w.verifyFetch| &&
    |w.shareServe| == nParties - 1 && IdsInRange(w.shareServe, nParties) && SendOnly(w.shareServe) &&
    |w.verifyServe| == nParties - 1 && IdsInRange(w.verifyServe, nParties) && SendOnly(w.verifyServe)
  }

  /** Q_i = S_i·point, with G when no point is given. */
  function PublicShare(si: nat, point: Option<Point>): Point
  {
    Mul(si, if point.Some? then point.value else G)
  }

  /** The status `dkg` returns. */
  function DkgStatus(own: nat, pid: nat, nParties: nat, t: nat, point: Option<Point>, w: DkgWire): Status
    requires WireFits(w, nParties, t)
  {
    var st := Outcome(Rounds(nParties, pid, w.shareServe, w.shareFetch, InvalidData));
    if st != Success then st
    else VerifyStatus(pid, t, PublicShare(PrivateShare(own, w.shareFetch, pid, nParties), point), w.verifyServe, w.verifyFetch)
  }

  /** The key `dkg` interpolates on success. */
  function DkgKey(own: nat, pid: nat, nParties: nat, t: nat, point: Option<Point>, w: DkgWire): Point
    requires WireFits(w, nParties, t)
  {
    GroupKey(pid, t, PublicShare(PrivateShare(own, w.shareFetch, pid, nParties), point), w.verifyFetch)
  }

  /** `dkg`: the private share exchange, Q_i = S_i·point, then verification;
      a failing sub-step's status is returned unchanged. */
  method Dkg(pid: nat, nParties: nat, t: nat, S: Polynomial, point: Option<Point>, wantQ: bool, w: DkgWire)
      returns (status: Status, q: Option<Point>)
    requires 1 <= pid <= nParties && nParties < S.fx.Length && S.Reduced() && WireFits(w, nParties, t)
    ensures status == DkgStatus(S.fx[pid], pid, nParties, t, point, w)
    ensures q == if status == Success && wantQ then Some(DkgKey(S.fx[pid], pid, nParties, t, point, w)) else None
  {
    var si, sent;
    status, si, sent := DkgPrivateShare(pid, nParties, S, w.shareServe, w.shareFetch);
    if status != Success {
      return status, None;
    }
    var qi := Mul(si, if point.Some? then point.value else G);
    status, q := DkgVerifyAndCalculate(pid, nParties, t, qi, wantQ, w.verifyServe, w.verifyFetch);
  }

  // ---------------------------------------------------------------------------
  // An honest DKG.

  /** Σ_k fs[k], the polynomial whose shares the DKG hands out. */
  function SumPoly(fs: seq<seq<int>>): seq<int>
  {
    if fs == [] then [] else Poly.AddPoly(SumPoly(fs[..|fs| - 1]), fs[|fs| - 1])
  }

  /** Σ_{k < |fs|} fs[k](x). */
  function SumAt(fs: seq<seq<int>>, x: int): int
  {
    if fs == [] then 0 else SumAt(fs[..|fs| - 1], x) + Poly.Horner(fs[|fs| - 1], x)
  }

  lemma {:induction false} SumPolyEval(fs: seq<seq<int>>, x: int, t: nat)
    requires forall k :: 0 <= k < |fs| ==> |fs[k]| <= t + 1
    ensures Poly.Horner(SumPoly(fs), x) == SumAt(fs, x)
    ensures |SumPoly(fs)| <= t + 1
    decreases |fs|
  {
    if fs != [] {
      var init := fs[..|fs| - 1];
      assert forall k :: 0 <= k < |init| ==> init[k] == fs[k];
      SumPolyEval(init, x, t);
      Poly.HornerAdd(SumPoly(init), fs[|fs| - 1], x);
    }
  }

  lemma {:induction false} SumOthersHonest(fs: seq<seq<int>>, fetch: seq<Fetch<nat>>, pid: nat, k: nat)
    requires k <= |fs| && k <= |fetch| && 1 <= pid
    requires forall j :: 0 <= j < k && j + 1 != pid ==> fetch[j].value == Poly.Horner(fs[j], pid) % ORDER
    ensures (SumOthers(fetch, pid, k) + (if pid <= k then Poly.Horner(fs[pid - 1], pid) else 0)) % ORDER
         == SumAt(fs[..k], pid) % ORDER
    decreases k
  {
    if k > 0 {
      SumOthersHonest(fs, fetch, pid, k - 1);
      assert fs[..k][..k - 1] == fs[..k - 1];
      var own := if pid <= k - 1 then Poly.Horner(fs[pid - 1], pid) else 0;
      var prev := SumOthers(fetch, pid, k - 1);
      var h := Poly.Horner(fs[k - 1], pid);
      if k == pid {
        AddCongruent(prev + own, SumAt(fs[..k - 1], pid), h, h);
      } else {
        ModIdempotent(h, ORDER);
        AddCongruent(prev + own, SumAt(fs[..k - 1], pid), fetch[k - 1].value, h);
      }
    }
  }

  /** Adding congruent values to congruent sums keeps them congruent. */
  lemma AddCongruent(p: int, a: int, v: int, h: int)
    requires p % ORDER == a % ORDER && v % ORDER == h % ORDER
    ensures (p + v) % ORDER == (a + h) % ORDER
  {
    ModAdd(p, v, ORDER);
    ModAdd(a, h, ORDER);
  }

  /** When every party shares its own polynomial honestly, S_i is the sum
      polynomial evaluated at the party's id. */
  lemma PrivateShareHonest(fs: seq<seq<int>>, fetch: seq<Fetch<nat>>, pid: nat, nParties: nat)
    requires |fs| == nParties && nParties <= |fetch| && 1 <= pid <= nParties
    requires forall j :: 0 <= j < nParties && j + 1 != pid ==> fetch[j].value == Poly.Horner(fs[j], pid) % ORDER
    ensures PrivateShare(Poly.Horner(fs[pid - 1], pid) % ORDER, fetch, pid, nParties) == SumAt(fs, pid) % ORDER
  {
    SumOthersHonest(fs, fetch, pid, nParties);
    assert fs[..nParties] == fs;
    var o := Poly.Horner(fs[pid - 1], pid);
    ModAdd(o % ORDER, SumOthers(fetch, pid, nParties), ORDER);
    ModAdd(o, SumOthers(fetch, pid, nParties), ORDER);
    ModIdempotent(o, ORDER);
  }

  /** When the received public shares are F(k)·G for a polynomial F with at
      most t+1 coefficients and the own share is F(pid)·G, verification
      passes and the interpolated key is F(0)·G. */
  lemma VerifyHonest(c: seq<int>, pid: nat, t: nat, qi: Point, serve: seq<Leg>, fetch: seq<Fetch<Point>>)
    requires |c| <= t + 1 && t + 1 <= |fetch| && 1 <= pid
    requires LambdasFit(t, pid) && LambdasFit(t, 0)
    requires Outcome(Rounds(t + 1, pid, serve, fetch, NetReadFail)) == Success
    requires qi == MulBase(Poly.Horner(c, pid))
    requires forall k :: 0 <= k <= t && k + 1 != pid ==> fetch[k].value == MulBase(Poly.Horner(c, k + 1))
    ensures VerifyStatus(pid, t, qi, serve, fetch) == Success
    ensures GroupKey(pid, t, qi, fetch) == MulBase(Poly.Horner(c, 0))
  {
    var pts := Received(qi, pid, t, fetch);
    ExpInterpolationRecovers(c, pts, NodeCords(t), pid, t);
    ExpInterpolationRecovers(c, pts, NodeCords(t), 0, t);
  }

  /** An honest DKG over the generator: every party shares a polynomial of at
      most t+1 coefficients, all rounds go through, and the public shares read
      are those of the sum polynomial F.  Then `dkg` succeeds and Q is
      F(0)·G, the sum of the constant terms times G. */
  lemma DkgHonest(fs: seq<seq<int>>, own: nat, pid: nat, nParties: nat, t: nat, w: DkgWire)
    requires WireFits(w, nParties, t) && |fs| == nParties && 1 <= pid <= nParties
    requires forall k :: 0 <= k < nParties ==> |fs[k]| <= t + 1
    requires LambdasFit(t, pid) && LambdasFit(t, 0)
    requires own == Poly.Horner(fs[pid - 1], pid) % ORDER
    requires forall j :: 0 <= j < nParties ==> FetchStatus(w.shareFetch[j]) == Success
    requires ServeStatus(w.shareServe, {pid}, InvalidData) == Success
    requires forall j :: 0 <= j < nParties && j + 1 != pid ==> w.shareFetch[j].value == Poly.Horner(fs[j], pid) % ORDER
    requires Outcome(Rounds(t + 1, pid, w.verifyServe, w.verifyFetch, NetReadFail)) == Success
    requires forall k :: 0 <= k <= t && k + 1 != pid ==> w.verifyFetch[k].value == MulBase(SumAt(fs, k + 1))
    ensures DkgStatus(own, pid, nParties, t, None, w) == Success
    ensures DkgKey(own, pid, nParties, t, None, w) == MulBase(SumAt(fs, 0))
  {
    var rounds := Rounds(nParties, pid, w.shareServe, w.shareFetch, InvalidData);
    assert forall j :: 0 <= j < |rounds| ==> rounds[j] == Success;
    PrivateShareHonest(fs, w.shareFetch, pid, nParties);
    var F := SumPoly(fs);
    SumPolyEval(fs, pid, t);
    SumPolyEval(fs, 0, t);
    forall k | 0 <= k <= t && k + 1 != pid
      ensures w.verifyFetch[k].value == MulBase(Poly.Horner(F, k + 1))
    {
      SumPolyEval(fs, k + 1, t);
    }
    var si := PrivateShare(own, w.shareFetch, pid, nParties);
    MulBaseDlog(si);
    MulBaseInjective(si, Poly.Horner(F, pid));
    ModIdempotent(Poly.Horner(F, pid), ORDER);
    VerifyHonest(F, pid, t, PublicShare(si, None), w.verifyServe, w.verifyFetch);
  }
}
