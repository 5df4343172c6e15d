/** The sockets of the protocol rounds as one party sees them.  Everything the
    operating system or a peer decides (a refused connect, a failed read, the
    id a peer announces, the value it sends) is an input; the functions here
    say which status each combination of those inputs leads to. */
module Transport {
  import opened Config

  // ---------------------------------------------------------------------------
  // Dialling a peer (`receiver`).

  /** The outcome of one `connect` call. */
  datatype Attempt = Connected | Refused | ConnectError

  /** One dial: socket creation, address conversion, and the outcomes of the
      successive `connect` calls (attempts past the end of the list are
      refused). */
  datatype Dial = Dial(socketOk: bool, addressOk: bool, attempts: seq<Attempt>)

  function AttemptAt(attempts: seq<Attempt>, k: nat): Attempt
  {
    if k < |attempts| then attempts[k] else Refused
  }

  /** The status once `tries` connects have been refused. */
  function RetryStatus(attempts: seq<Attempt>, tries: nat): Status
    requires tries <= TIMEOUT_TRIES
    decreases TIMEOUT_TRIES - tries
  {
    if tries == TIMEOUT_TRIES then NetConnectionTimeout
    else match AttemptAt(attempts, tries)
      case Connected => Success
      case ConnectError => NetInvalidConnection
      case Refused => RetryStatus(attempts, tries + 1)
  }

  function DialStatus(d: Dial): Status
  {
    if !d.socketOk then NetSocketFail
    else if !d.addressOk then NetInvalidConnection
    else RetryStatus(d.attempts, 0)
  }

  lemma {:induction false} RetryMeaning(attempts: seq<Attempt>, tries: nat)
    requires tries <= TIMEOUT_TRIES
    ensures RetryStatus(attempts, tries) == NetConnectionTimeout <==>
      forall k :: tries <= k < TIMEOUT_TRIES ==> AttemptAt(attempts, k) == Refused
    ensures RetryStatus(attempts, tries) == Success <==>
      exists k :: tries <= k < TIMEOUT_TRIES && AttemptAt(attempts, k) == Connected &&
        forall j :: tries <= j < k ==> AttemptAt(attempts, j) == Refused
    ensures RetryStatus(attempts, tries) in {Success, NetInvalidConnection, NetConnectionTimeout}
    decreases TIMEOUT_TRIES - tries
  {
    if tries < TIMEOUT_TRIES {
      RetryMeaning(attempts, tries + 1);
      if AttemptAt(attempts, tries) == Connected {
        assert RetryStatus(attempts, tries) == Success;
      } else if AttemptAt(attempts, tries) == Refused {
        if RetryStatus(attempts, tries) == Success {
          var k :| tries + 1 <= k < TIMEOUT_TRIES && AttemptAt(attempts, k) == Connected &&
            forall j :: tries + 1 <= j < k ==> AttemptAt(attempts, j) == Refused;
          assert forall j :: tries <= j < k ==> AttemptAt(attempts, j) == Refused;
        }
        if exists k :: tries <= k < TIMEOUT_TRIES && AttemptAt(attempts, k) == Connected &&
            forall j :: tries <= j < k ==> AttemptAt(attempts, j) == Refused {
          var k :| tries <= k < TIMEOUT_TRIES && AttemptAt(attempts, k) == Connected &&
            forall j :: tries <= j < k ==> AttemptAt(attempts, j) == Refused;
          assert k != tries;
          assert forall j :: tries + 1 <= j < k ==> AttemptAt(attempts, j) == Refused;
        }
      }
    }
  }

  /** `receiver` times out exactly when every one of the TIMEOUT_TRIES connects
      is refused, and succeeds exactly when a connect succeeds after refusals
      only; any other connect error fails at once. */
  lemma DialStatusMeaning(d: Dial)
    ensures DialStatus(d) == NetConnectionTimeout <==>
      d.socketOk && d.addressOk && forall k :: 0 <= k < TIMEOUT_TRIES ==> AttemptAt(d.attempts, k) == Refused
    ensures DialStatus(d) == Success <==>
      d.socketOk && d.addressOk &&
      exists k :: 0 <= k < TIMEOUT_TRIES && AttemptAt(d.attempts, k) == Connected &&
        forall j :: 0 <= j < k ==> AttemptAt(d.attempts, j) == Refused
  {
    RetryMeaning(d.attempts, 0);
  }

  // ---------------------------------------------------------------------------
  // Serving the peers in the party's own round.

  /** One peer served by the party whose round it is: whether `accept`
      succeeded, whether the peer's id could be read and which id it
      announced, and the status of the sends and reads that follow. */
  datatype Leg = Leg(accepted: bool, idRead: bool, id: nat, after: Status)

  /** The status of a serving round; `seen` are the ids already marked in
      `connected[]` (initially only the server's own id), `readFail` the status
      for an id that cannot be read. */
  function ServeStatus(legs: seq<Leg>, seen: set<nat>, readFail: Status): Status
    decreases |legs|
  {
    if legs == [] then Success
    else if !legs[0].accepted then NetFailedConnection
    else if !legs[0].idRead then readFail
    else if legs[0].id in seen then NetInvalidConnection
    else if legs[0].after != Success then legs[0].after
    else ServeStatus(legs[1..], seen + {legs[0].id}, readFail)
  }

  /** How many peers are completely served before the round stops. */
  function ServedCount(legs: seq<Leg>, seen: set<nat>, readFail: Status): (r: nat)
    ensures r <= |legs|
    decreases |legs|
  {
    if legs == [] then 0
    else if !legs[0].accepted || !legs[0].idRead || legs[0].id in seen || legs[0].after != Success then 0
    else 1 + ServedCount(legs[1..], seen + {legs[0].id}, readFail)
  }

  /** The status of serving one peer, given the ids already marked. */
  function LegStatus(l: Leg, seen: set<nat>, readFail: Status): Status
  {
    if !l.accepted then NetFailedConnection
    else if !l.idRead then readFail
    else if l.id in seen then NetInvalidConnection
    else l.after
  }

  /** Serving the peer at position j: a failure ends the round with its
      status and nothing more served; a success moves on with its id
      marked. */
  lemma ServeStep(legs: seq<Leg>, j: nat, seen: set<nat>, readFail: Status)
    requires j < |legs| && readFail != Success
    ensures LegStatus(legs[j], seen, readFail) != Success ==>
      ServeStatus(legs[j..], seen, readFail) == LegStatus(legs[j], seen, readFail) &&
      ServedCount(legs[j..], seen, readFail) == 0
    ensures LegStatus(legs[j], seen, readFail) == Success ==>
      ServeStatus(legs[j..], seen, readFail) == ServeStatus(legs[j + 1..], seen + {legs[j].id}, readFail) &&
      ServedCount(legs[j..], seen, readFail) == 1 + ServedCount(legs[j + 1..], seen + {legs[j].id}, readFail)
  {
    assert legs[j..][0] == legs[j] && legs[j..][1..] == legs[j + 1..];
  }

  /** Peer ids the source does not range-check, assumed in 1..n. */
  predicate IdsInRange(legs: seq<Leg>, n: nat)
  {
    forall j :: 0 <= j < |legs| ==> 1 <= legs[j].id <= n
  }

  /** In `broadcast_shares` and `dkg_private_share` the only step after the
      id is marked is one `send`, so every served peer ends in success or
      `MPC_OP_NET_SEND_FAIL`. */
  predicate SendOnly(legs: seq<Leg>)
  {
    forall j :: 0 <= j < |legs| ==> legs[j].after == Success || legs[j].after == NetSendFail
  }

  /** The statuses a send-only serving round can end in: a failed `accept`,
      an unreadable id (`readFail`), an id already marked, a failed send. */
  predicate ServeResult(s: Status, readFail: Status)
  {
    s == Success || s == NetFailedConnection || s == readFail || s == NetInvalidConnection || s == NetSendFail
  }

  /** A send-only serving round returns one of those statuses and no other. */
  lemma {:induction false} ServeStatusRange(legs: seq<Leg>, seen: set<nat>, readFail: Status)
    requires SendOnly(legs)
    ensures ServeResult(ServeStatus(legs, seen, readFail), readFail)
    decreases |legs|
  {
    if legs != [] && legs[0].accepted && legs[0].idRead && legs[0].id !in seen && legs[0].after == Success {
      assert forall j :: 0 <= j < |legs[1..]| ==> legs[1..][j] == legs[j + 1];
      ServeStatusRange(legs[1..], seen + {legs[0].id}, readFail);
    }
  }

  function Ids(legs: seq<Leg>): seq<nat>
  {
    seq(|legs|, j requires 0 <= j < |legs| => legs[j].id)
  }

  predicate Distinct(s: seq<nat>)
  {
    forall i, j :: 0 <= i < j < |s| ==> s[i] != s[j]
  }

  /** s lists every party id other than pid exactly once. */
  predicate CoversOthers(s: seq<nat>, pid: nat, n: nat)
  {
    Distinct(s) && |s| == n - 1 &&
    (forall j :: 0 <= j < |s| ==> 1 <= s[j] <= n && s[j] != pid) &&
    (forall id :: 1 <= id <= n && id != pid ==> id in s)
  }

  /** A serving round succeeds only if every peer was served and no id was
      accepted twice or equal to one already seen. */
  lemma {:induction false} ServeSuccess(legs: seq<Leg>, seen: set<nat>, readFail: Status)
    requires readFail != Success
    requires ServeStatus(legs, seen, readFail) == Success
    ensures ServedCount(legs, seen, readFail) == |legs|
    ensures Distinct(Ids(legs))
    ensures forall j :: 0 <= j < |legs| ==> legs[j].id !in seen
    decreases |legs|
  {
    if legs != [] {
      var l := legs[0];
      ServeSuccess(legs[1..], seen + {l.id}, readFail);
      var ids := Ids(legs);
      assert Ids(legs[1..]) == ids[1..];
      forall i, j | 0 <= i < j < |ids|
        ensures ids[i] != ids[j]
      {
        if i == 0 {
          assert ids[j] == legs[1..][j - 1].id;
        } else {
          assert ids[i] == ids[1..][i - 1];
          assert ids[j] == ids[1..][j - 1];
        }
      }
      forall j | 0 <= j < |legs|
        ensures legs[j].id !in seen
      {
        if j > 0 {
          assert legs[j] == legs[1..][j - 1];
        }
      }
    }
  }

  lemma SubsetCard(a: set<nat>, b: set<nat>)
    requires a <= b
    ensures |a| <= |b|
  {
    assert b == a + (b - a);
  }

  lemma SubsetEqual(a: set<nat>, b: set<nat>)
    requires a <= b && |a| == |b|
    ensures a == b
  {
    if a != b {
      assert exists y :: y in b && y !in a;
      var x :| x in b && x !in a;
      assert a <= b - {x};
      SubsetCard(a, b - {x});
    }
  }

  /** The party ids 1..n. */
  function Range(n: nat): set<nat>
  {
    if n == 0 then {} else Range(n - 1) + {n}
  }

  lemma {:induction false} RangeCard(n: nat)
    ensures |Range(n)| == n
    ensures forall k :: k in Range(n) <==> 1 <= k <= n
    decreases n
  {
    if n > 0 {
      RangeCard(n - 1);
    }
  }

  function Elems(s: seq<nat>): set<nat>
  {
    set x | x in s
  }

  lemma {:induction false} DistinctCard(s: seq<nat>)
    requires Distinct(s)
    ensures |Elems(s)| == |s|
    decreases |s|
  {
    if s != [] {
      var t := s[..|s| - 1];
      assert s == t + [s[|s| - 1]];
      var last := s[|s| - 1];
      assert Distinct(t);
      DistinctCard(t);
      var a := Elems(t);
      forall i | 0 <= i < |t|
        ensures t[i] != last
      {
        assert t[i] == s[i];
      }
      assert last !in a;
      assert Elems(s) == a + {last};
      assert |a + {last}| == |a| + 1;
    }
  }

  /** The pigeonhole step: n − 1 distinct ids from 1..n, none equal to pid,
      are all the other ids. */
  lemma Pigeonhole(s: seq<nat>, pid: nat, n: nat)
    requires 1 <= pid <= n && |s| == n - 1 && Distinct(s)
    requires forall j :: 0 <= j < |s| ==> 1 <= s[j] <= n && s[j] != pid
    ensures CoversOthers(s, pid, n)
  {
    var others := Range(n) - {pid};
    var got := Elems(s);
    RangeCard(n);
    DistinctCard(s);
    assert got <= others;
    assert pid in Range(n);
    assert |others| == n - 1;
    SubsetEqual(got, others);
    forall id | 1 <= id <= n && id != pid
      ensures id in s
    {
      assert id in others;
    }
  }

  /** A successful serving round with n − 1 legs served every other party
      exactly once. */
  lemma ServeCovers(legs: seq<Leg>, pid: nat, n: nat, readFail: Status)
    requires 1 <= pid <= n && |legs| == n - 1 && IdsInRange(legs, n) && readFail != Success
    requires ServeStatus(legs, {pid}, readFail) == Success
    ensures CoversOthers(Ids(legs), pid, n)
  {
    ServeSuccess(legs, {pid}, readFail);
    Pigeonhole(Ids(legs), pid, n);
  }

  // ---------------------------------------------------------------------------
  // Fetching in another party's round.

  /** One round in which the party is a client: the dial, whether sending its
      own id succeeded, whether the read succeeded, and the value read. */
  datatype Fetch<T> = Fetch(dial: Dial, idSent: bool, readOk: bool, value: T)

  function FetchStatus<T>(f: Fetch<T>): Status
  {
    if DialStatus(f.dial) != Success then DialStatus(f.dial)
    else if !f.idSent then NetSendFail
    else if !f.readOk then NetReadFail
    else Success
  }

  /** The statuses a fetching round can end in: those of `receiver`, then a
      failed send of the own id, then a failed read. */
  predicate FetchResult(s: Status)
  {
    s == Success || s == NetSocketFail || s == NetInvalidConnection || s == NetConnectionTimeout ||
    s == NetSendFail || s == NetReadFail
  }

  /** A fetching round returns one of those statuses and no other. */
  lemma FetchStatusRange<T>(f: Fetch<T>)
    ensures FetchResult(FetchStatus(f))
  {
    RetryMeaning(f.dial.attempts, 0);
  }

  // ---------------------------------------------------------------------------
  // A sequence of rounds stops at the first failure.

  /** The index of the first failing round, or the number of rounds. */
  function FirstFail(ss: seq<Status>): (k: nat)
    ensures k <= |ss|
    ensures forall j :: 0 <= j < k ==> ss[j] == Success
    ensures k < |ss| ==> ss[k] != Success
    decreases |ss|
  {
    if ss == [] then 0
    else if ss[0] != Success then 0
    else 1 + FirstFail(ss[1..])
  }

  /** The status of a sequence of rounds: that of the first failing one. */
  function Outcome(ss: seq<Status>): (st: Status)
    ensures st == Success <==> forall j :: 0 <= j < |ss| ==> ss[j] == Success
  {
    if FirstFail(ss) < |ss| then ss[FirstFail(ss)] else Success
  }
}
