/** The networked multiplicative-to-additive conversion `ot`: in round i
    party i is the OT sender towards every peer, and in every other round the
    party is the receiver of party i.  The party's additive share U collects
    −Uij for every transfer it sends and Vij for every transfer it receives. */
module NetworkOt {
  import opened ModArith
  import opened Curve
  import opened Config
  import opened Transport
  import opened MpcTypes
  import opened CorrelatedOt
  import Network

  /** One peer served in the party's own OT round: accept, the peer's id, the
      send of A, the read of the peer's B, the masks U_i drawn for bits
      0..255, and the send of the messages. */
  datatype OtServe = OtServe(accepted: bool, idRead: bool, id: nat, aSent: bool, bRead: bool,
                             B: seq<Point>, masks: seq<nat>, mSent: bool)

  /** The status part of a served peer, in the terms of Transport. */
  function AsLeg(s: OtServe): Leg
  {
    Leg(s.accepted, s.idRead, s.id,
        if !s.aSent then NetSendFail else if !s.bRead then NetReadFail
        else if !s.mSent then NetSendFail else Success)
  }

  function AsLegs(ss: seq<OtServe>): (legs: seq<Leg>)
    ensures |legs| == |ss|
  {
    seq(|ss|, j requires 0 <= j < |ss| => AsLeg(ss[j]))
  }

  /** One round in which the party is the OT receiver: the dial, the send of
      its id, the read of the sender's A, the send of B and the read of the
      messages. */
  datatype OtFetch = OtFetch(dial: Dial, idSent: bool, aRead: bool, A: seq<Point>,
                             bSent: bool, mRead: bool, m: seq<OtPair>)

  function OtFetchStatus(f: OtFetch): Status
  {
    if DialStatus(f.dial) != Success then DialStatus(f.dial)
    else if !f.idSent then NetSendFail
    else if !f.aRead then NetReadFail
    else if !f.bSent then NetSendFail
    else if !f.mRead then NetReadFail
    else Success
  }

  /** Wire values have the fixed sizes the reads ask for. */
  predicate ServeSized(serve: seq<OtServe>)
  {
    forall j :: 0 <= j < |serve| ==> |serve[j].B| == OT_TERM_SIZE && |serve[j].masks| == OT_TERM_SIZE
  }

  predicate FetchSized(fetch: seq<OtFetch>)
  {
    forall k :: 0 <= k < |fetch| ==> |fetch[k].A| == OT_TERM_SIZE && |fetch[k].m| == OT_TERM_SIZE
  }

  /** The sender's work for one peer: for bits 255 down to 0, accumulate
      Uij = 2·Uij + U_i and mask U_i and U_i + x with the hashed keys. */
  method SenderRun(party: Party, B: seq<Point>, masks: seq<nat>, x: nat, H: Point -> nat)
      returns (m: seq<OtPair>, uij: nat)
    requires party.OtSized() && |B| == OT_TERM_SIZE && |masks| == OT_TERM_SIZE
    ensures m == SenderMessages(party.a[..], party.A[..], B, masks, x, H)
    ensures uij == BitHorner(masks, 0)
  {
    ghost var planned := SenderMessages(party.a[..], party.A[..], B, masks, x, H);
    var msgs := new OtPair[OT_TERM_SIZE](_ => OtPair(0, 0));
    uij := 0;
    var i: int := OT_TERM_SIZE - 1;
    while i >= 0
      invariant -1 <= i < OT_TERM_SIZE
      invariant uij == BitHorner(masks, i + 1)
      invariant msgs[i + 1..] == planned[i + 1..]
    {
      var ui := masks[i];
      uij := (2 * uij + ui) % ORDER;
      var pair := MaskPair(party.a[i], party.A[i], B[i], ui, x, H);
      assert pair == planned[i];
      msgs[i] := pair;
      assert msgs[i..] == [pair] + msgs[i + 1..];
      i := i - 1;
    }
    m := msgs[..];
  }

  /** The two masked messages of one bit, under the keys H(a·B) and
      H(a·(B − A)). */
  method MaskPair(a: nat, A: Point, B: Point, ui: nat, x: nat, H: Point -> nat) returns (pair: OtPair)
    ensures pair == SenderPair(a, A, B, ui, x, H)
  {
    var k0 := H(Mul(a, B));
    var k1 := H(Mul(a, Add(Negate(A), B)));
    pair := OtPair(Xor(k0, ui), Xor(k1, (ui + x) % ORDER));
  }

  /** The receiver's choices: B[i] = b[i]·G, plus A[i] when bit i of y is
      set. */
  method ReceiverChoose(party: Party, A: seq<Point>, y: nat) returns (B: seq<Point>)
    requires party.OtSized() && |A| == OT_TERM_SIZE
    ensures B == Choices(party.b[..], A, y)
  {
    var bs := new Point[OT_TERM_SIZE](_ => Infinity);
    var i := 0;
    while i < OT_TERM_SIZE
      invariant 0 <= i <= OT_TERM_SIZE
      invariant forall k :: 0 <= k < i ==> bs[k] == ReceiverChoice(party.b[k], A[k], TestBit(y, k))
    {
      var bit := TestBit(y, i);
      bs[i] := MulBase(party.b[i]);
      if bit {
        bs[i] := Add(A[i], bs[i]);
      }
      i := i + 1;
    }
    B := bs[..];
  }

  /** The receiver's unmasking and accumulation, bits 255 down to 0. */
  method ReceiverDecode(party: Party, A: seq<Point>, m: seq<OtPair>, y: nat, H: Point -> nat) returns (vij: nat)
    requires party.OtSized() && |A| == OT_TERM_SIZE && |m| == OT_TERM_SIZE
    ensures vij == BitHorner(Decoded(party.b[..], A, m, y, H), 0)
  {
    ghost var v := Decoded(party.b[..], A, m, y, H);
    vij := 0;
    var i: int := OT_TERM_SIZE - 1;
    while i >= 0
      invariant -1 <= i < OT_TERM_SIZE
      invariant vij == BitHorner(v, i + 1)
    {
      var bit := TestBit(y, i);
      var kr := H(Mul(party.b[i], A[i]));
      var vi := Xor(kr, if bit then m[i].m1 else m[i].m0);
      assert vi == v[i];
      vij := (2 * vij + vi) % ORDER;
      i := i - 1;
    }
  }

  /** One transfer to an accepted peer: send A, read B, compute and send the
      messages. */
  method TransferTo(party: Party, s: OtServe, x: nat, H: Point -> nat) returns (status: Status, m: seq<OtPair>, uij: nat)
    requires party.OtSized() && |s.B| == OT_TERM_SIZE && |s.masks| == OT_TERM_SIZE
    ensures status == AsLeg(s).after
    ensures status == Success ==> m == SenderMessages(party.a[..], party.A[..], s.B, s.masks, x, H)
    ensures status == Success ==> uij == BitHorner(s.masks, 0)
  {
    m, uij := [], 0;
    if !s.aSent {
      return NetSendFail, m, uij;
    }
    if !s.bRead {
      return NetReadFail, m, uij;
    }
    m, uij := SenderRun(party, s.B, s.masks, x, H);
    if !s.mSent {
      return NetSendFail, m, uij;
    }
    status := Success;
  }

  /** The messages of each transfer of a serving round. */
  function Transfers(a: seq<nat>, A: seq<Point>, ss: seq<OtServe>, x: nat, H: Point -> nat): (ms: seq<seq<OtPair>>)
    requires |a| == OT_TERM_SIZE && |A| == OT_TERM_SIZE && ServeSized(ss)
    ensures |ms| == |ss|
  {
    seq(|ss|, j requires 0 <= j < |ss| => SenderMessages(a, A, ss[j].B, ss[j].masks, x, H))
  }

  /** Σ_{j < k} −Uij over the peers served: what the party's own round adds
      to its share. */
  function ServeSum(ss: seq<OtServe>, k: nat): int
    requires k <= |ss| && ServeSized(ss)
  {
    if k == 0 then 0 else ServeSum(ss, k - 1) + (ORDER - BitHorner(ss[k - 1].masks, 0))
  }

  /** The party's own OT round, serving n − 1 peers in any order with the id
      check of `connected[]`.  `sent` holds the messages of every completed
      transfer. */
  method OtServeRound(party: Party, u0: nat, x: nat, nParties: nat, pid: nat, ss: seq<OtServe>, H: Point -> nat)
      returns (status: Status, u: nat, sent: seq<seq<OtPair>>)
    requires party.OtSized() && 1 <= pid <= nParties && |ss| == nParties - 1 && u0 < ORDER
    requires IdsInRange(AsLegs(ss), nParties) && ServeSized(ss)
    ensures status == ServeStatus(AsLegs(ss), {pid}, NetReadFail)
    ensures |sent| == ServedCount(AsLegs(ss), {pid}, NetReadFail)
    ensures sent == Transfers(party.a[..], party.A[..], ss, x, H)[..|sent|]
    ensures status == Success ==> u == (u0 + ServeSum(ss, |ss|)) % ORDER
  {
    ghost var legs := AsLegs(ss);
    ghost var a, A := party.a[..], party.A[..];
    ghost var planned := Transfers(a, A, ss, x, H);
    var connected := new bool[nParties](_ => false);
    connected[pid - 1] := true;
    ghost var seen: set<nat> := {pid};
    u := u0;
    sent := [];
    var j := 0;
    ModSmall(u0, ORDER);
    while j < |ss|
      invariant 0 <= j <= |ss|
      invariant forall k :: 0 <= k < nParties ==> (connected[k] <==> k + 1 in seen)
      invariant ServeStatus(legs, {pid}, NetReadFail) == ServeStatus(legs[j..], seen, NetReadFail)
      invariant ServedCount(legs, {pid}, NetReadFail) == j + ServedCount(legs[j..], seen, NetReadFail)
      invariant |sent| == j
      invariant sent == planned[..j]
      invariant u == (u0 + ServeSum(ss, j)) % ORDER
      invariant party.a[..] == a && party.A[..] == A
    {
      var s := ss[j];
      assert legs[j] == AsLeg(s);
      ServeStep(legs, j, seen, NetReadFail);
      var st, m, uij := ServePeer(party, s, connected, seen, x, H);
      if st != Success {
        return st, u, sent;
      }
      ghost var j0, u1, seen0, sent0 := j, u, seen, sent;
      u := (u + (ORDER - uij)) % ORDER;
      seen := seen + {s.id};
      sent := sent + [m];
      j := j + 1;
      ServeAdvance(legs, pid, j0, j, seen0, seen);
      TransfersStep(a, A, ss, x, H, j0, j, m, sent0, sent);
      ServeSumStep(ss, j0, j, u0, u1, uij, u);
    }
    assert legs[j..] == [];
    status := Success;
  }

  /** Subtracting the transfer's Uij keeps U equal to u0 + Σ −Uij modulo n. */
  lemma ServeSumStep(ss: seq<OtServe>, j: nat, j': nat, u0: nat, u: nat, uij: nat, u': nat)
    requires ServeSized(ss) && j < |ss| && j' == j + 1
    requires u == (u0 + ServeSum(ss, j)) % ORDER && uij == BitHorner(ss[j].masks, 0)
    requires u' == (u + (ORDER - uij)) % ORDER
    ensures u' == (u0 + ServeSum(ss, j')) % ORDER
  {
    Accumulate(u0 + ServeSum(ss, j), ORDER - uij);
  }

  /** A completed transfer extends the planned messages by one. */
  lemma TransfersStep(a: seq<nat>, A: seq<Point>, ss: seq<OtServe>, x: nat, H: Point -> nat, j: nat, j': nat,
                      m: seq<OtPair>, sent: seq<seq<OtPair>>, sent': seq<seq<OtPair>>)
    requires |a| == OT_TERM_SIZE && |A| == OT_TERM_SIZE && ServeSized(ss) && j < |ss| && j' == j + 1
    requires m == SenderMessages(a, A, ss[j].B, ss[j].masks, x, H)
    requires sent == Transfers(a, A, ss, x, H)[..j] && sent' == sent + [m]
    ensures sent' == Transfers(a, A, ss, x, H)[..j']
  {
    assert Transfers(a, A, ss, x, H)[..j + 1] == Transfers(a, A, ss, x, H)[..j] + [m];
  }

  /** A peer served completely moves the round's status and count on by one
      leg. */
  lemma ServeAdvance(legs: seq<Leg>, pid: nat, j: nat, j': nat, seen: set<nat>, seen': set<nat>)
    requires j < |legs| && j' == j + 1 && LegStatus(legs[j], seen, NetReadFail) == Success && seen' == seen + {legs[j].id}
    requires ServeStatus(legs, {pid}, NetReadFail) == ServeStatus(legs[j..], seen, NetReadFail)
    requires ServedCount(legs, {pid}, NetReadFail) == j + ServedCount(legs[j..], seen, NetReadFail)
    ensures ServeStatus(legs, {pid}, NetReadFail) == ServeStatus(legs[j'..], seen', NetReadFail)
    ensures ServedCount(legs, {pid}, NetReadFail) == j' + ServedCount(legs[j'..], seen', NetReadFail)
  {
    ServeStep(legs, j, seen, NetReadFail);
  }

  /** Serving one peer: accept, read and check its id against `connected[]`,
      then the transfer. */
  method ServePeer(party: Party, s: OtServe, connected: array<bool>, ghost seen: set<nat>, x: nat, H: Point -> nat)
      returns (status: Status, m: seq<OtPair>, uij: nat)
    requires party.OtSized() && |s.B| == OT_TERM_SIZE && |s.masks| == OT_TERM_SIZE
    requires 1 <= s.id <= connected.Length
    requires forall k :: 0 <= k < connected.Length ==> (connected[k] <==> k + 1 in seen)
    modifies connected
    ensures status == LegStatus(AsLeg(s), seen, NetReadFail)
    ensures status == Success ==> forall k :: 0 <= k < connected.Length ==> (connected[k] <==> k + 1 in seen + {s.id})
    ensures status == Success ==> m == SenderMessages(party.a[..], party.A[..], s.B, s.masks, x, H)
    ensures status == Success ==> uij == BitHorner(s.masks, 0)
  {
    m, uij := [], 0;
    if !s.accepted {
      return NetFailedConnection, m, uij;
    }
    if !s.idRead {
      return NetReadFail, m, uij;
    }
    if connected[s.id - 1] {
      return NetInvalidConnection, m, uij;
    }
    connected[s.id - 1] := true;
    status, m, uij := TransferTo(party, s, x, H);
  }

  /** Adding modulo n to a value known modulo n. */
  lemma Accumulate(s: int, d: int)
    ensures (s % ORDER + d) % ORDER == (s + d) % ORDER
  {
    ModAdd(s % ORDER, d, ORDER);
    ModAdd(s, d, ORDER);
    ModIdempotent(s, ORDER);
  }

  /** The party's round as the receiver of another party's transfer. */
  method OtFetchRound(party: Party, f: OtFetch, y: nat, H: Point -> nat) returns (status: Status, B: seq<Point>, vij: nat)
    requires party.OtSized() && |f.A| == OT_TERM_SIZE && |f.m| == OT_TERM_SIZE
    ensures status == OtFetchStatus(f)
    ensures f.aRead && DialStatus(f.dial) == Success && f.idSent ==> B == Choices(party.b[..], f.A, y)
    ensures status == Success ==> vij == BitHorner(Decoded(party.b[..], f.A, f.m, y, H), 0)
  {
    B := [];
    vij := 0;
    status := Network.Receiver(f.dial);
    if status != Success {
      return;
    }
    if !f.idSent {
      return NetSendFail, B, vij;
    }
    if !f.aRead {
      return NetReadFail, B, vij;
    }
    B := ReceiverChoose(party, f.A, y);
    if !f.bSent {
      return NetSendFail, B, vij;
    }
    if !f.mRead {
      return NetReadFail, B, vij;
    }
    vij := ReceiverDecode(party, f.A, f.m, y, H);
  }

  /** The statuses of rounds 1..n of `ot`. */
  function OtRounds(n: nat, pid: nat, serve: seq<OtServe>, fetch: seq<OtFetch>): (rs: seq<Status>)
    requires n <= |fetch|
    ensures |rs| == n
  {
    seq(n, k requires 0 <= k < n => if k + 1 == pid then ServeStatus(AsLegs(serve), {pid}, NetReadFail) else OtFetchStatus(fetch[k]))
  }

  /** Vij, the receiver's accumulated value in a round it receives. */
  function ReceivedValue(b: seq<nat>, f: OtFetch, y: nat, H: Point -> nat): nat
    requires |b| == OT_TERM_SIZE && |f.A| == OT_TERM_SIZE && |f.m| == OT_TERM_SIZE
  {
    BitHorner(Decoded(b, f.A, f.m, y, H), 0)
  }

  /** What round k adds to U: Σ −Uij in the own round, Vij in another. */
  function Turn(b: seq<nat>, pid: nat, serve: seq<OtServe>, fetch: seq<OtFetch>, y: nat, H: Point -> nat, k: nat): int
    requires 1 <= k <= |fetch| && |b| == OT_TERM_SIZE && ServeSized(serve) && FetchSized(fetch)
  {
    if k == pid then ServeSum(serve, |serve|) else ReceivedValue(b, fetch[k - 1], y, H)
  }

  /** Σ of the contributions of rounds 1..k. */
  function RoundSum(b: seq<nat>, pid: nat, serve: seq<OtServe>, fetch: seq<OtFetch>, y: nat, H: Point -> nat, k: nat): int
    requires k <= |fetch| && |b| == OT_TERM_SIZE && ServeSized(serve) && FetchSized(fetch)
  {
    if k == 0 then 0 else RoundSum(b, pid, serve, fetch, y, H, k - 1) + Turn(b, pid, serve, fetch, y, H, k)
  }

  /** The share U that a successful `ot` returns. */
  function OtShare(b: seq<nat>, pid: nat, nParties: nat, serve: seq<OtServe>, fetch: seq<OtFetch>, y: nat, H: Point -> nat): nat
    requires nParties <= |fetch| && |b| == OT_TERM_SIZE && ServeSized(serve) && FetchSized(fetch)
  {
    RoundSum(b, pid, serve, fetch, y, H, nParties) % ORDER
  }

  /** Round i of `ot`, as sender or as receiver. */
  method OtTurn(party: Party, i: nat, u: nat, x: nat, y: nat, nParties: nat, serve: seq<OtServe>, fetch: seq<OtFetch>, H: Point -> nat)
      returns (status: Status, un: nat)
    requires party.OtSized() && 1 <= party.id <= nParties && 1 <= i <= nParties <= |fetch| && u < ORDER
    requires |serve| == nParties - 1 && IdsInRange(AsLegs(serve), nParties) && ServeSized(serve) && FetchSized(fetch)
    ensures status == OtRounds(nParties, party.id, serve, fetch)[i - 1]
    ensures status == Success ==> un == (u + Turn(party.b[..], party.id, serve, fetch, y, H, i)) % ORDER
  {
    if i == party.id {
      var sent;
      status, un, sent := OtServeRound(party, u, x, nParties, party.id, serve, H);
    } else {
      var B, vij;
      status, B, vij := OtFetchRound(party, fetch[i - 1], y, H);
      un := (u + vij) % ORDER;
    }
  }

  /** Adding round i's contribution extends the running sum modulo n. */
  lemma RoundStep(b: seq<nat>, pid: nat, serve: seq<OtServe>, fetch: seq<OtFetch>, y: nat, H: Point -> nat, i: nat, u: int, un: int)
    requires 1 <= i <= |fetch| && |b| == OT_TERM_SIZE && ServeSized(serve) && FetchSized(fetch)
    requires u == RoundSum(b, pid, serve, fetch, y, H, i - 1) % ORDER
    requires un == (u + Turn(b, pid, serve, fetch, y, H, i)) % ORDER
    ensures un == RoundSum(b, pid, serve, fetch, y, H, i) % ORDER
  {
    Accumulate(RoundSum(b, pid, serve, fetch, y, H, i - 1), Turn(b, pid, serve, fetch, y, H, i));
  }

  /** `ot`: the n rounds in order; the first failing round's status is
      returned. */
  method Ot(party: Party, x: nat, y: nat, nParties: nat, serve: seq<OtServe>, fetch: seq<OtFetch>, H: Point -> nat)
      returns (status: Status, u: nat)
    requires party.OtSized() && 1 <= party.id <= nParties && nParties <= |fetch|
    requires |serve| == nParties - 1 && IdsInRange(AsLegs(serve), nParties) && ServeSized(serve) && FetchSized(fetch)
    ensures status == Outcome(OtRounds(nParties, party.id, serve, fetch))
    ensures status == Success ==> u == OtShare(party.b[..], party.id, nParties, serve, fetch, y, H)
  {
    ghost var rounds := OtRounds(nParties, party.id, serve, fetch);
    ghost var b := party.b[..];
    u := 0;
    ModSmall(0, ORDER);
    var i := 1;
    while i <= nParties
      invariant 1 <= i <= nParties + 1
      invariant forall j :: 0 <= j < i - 1 ==> rounds[j] == Success
      invariant u == RoundSum(b, party.id, serve, fetch, y, H, i - 1) % ORDER
      invariant party.b[..] == b
    {
      var st, un := OtTurn(party, i, u, x, y, nParties, serve, fetch, H);
      if st != Success {
        Network.FirstFailIs(rounds, i - 1);
        return st, u;
      }
      RoundStep(b, party.id, serve, fetch, y, H, i, u, un);
      u := un;
      i := i + 1;
    }
    Network.FirstFailIs(rounds, nParties);
    status := Success;
  }
}
