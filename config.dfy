/** Build-time constants of the networked protocol and its status codes. */
module Config {

  const N_PARTIES: nat := 5
  const THRESHOLD: nat := 2
  const OT_TERM_SIZE: nat := 256
  const TIMEOUT_TRIES: nat := 6

  /** Listening port of party i is PORTS[i − 1]. */
  const PORTS: seq<nat> := [8881, 8882, 8883, 8884, 8885]

  /** The t + 1 parties that take part in the signature phase. */
  const THRESHOLD_PARTIES: seq<nat> := [2, 3, 4]

  /** The message that is signed. */
  const MESSAGE: seq<nat> := [0x01, 0x04, 0x01, 0x00, 0x06]

  /** `MPC_STATUS`. */
  datatype Status =
    | Success
    | NetInvalidConnection
    | NetFailedConnection
    | NetConnectionTimeout
    | NetSendFail
    | NetReadFail
    | NetSocketFail
    | WrongParam
    | MemFail
    | InvalidData
    | CheckFail
    | Overflow

  /** The numeric value of each status. */
  function Code(s: Status): (c: nat)
    ensures c <= 11
    ensures c == 0 <==> s == Success
  {
    match s
    case Success => 0
    case NetInvalidConnection => 1
    case NetFailedConnection => 2
    case NetConnectionTimeout => 3
    case NetSendFail => 4
    case NetReadFail => 5
    case NetSocketFail => 6
    case WrongParam => 7
    case MemFail => 8
    case InvalidData => 9
    case CheckFail => 10
    case Overflow => 11
  }

  /** The status whose value is c (an integer stored into an `MPC_STATUS`). */
  function FromCode(c: nat): Status
    requires c <= 11
  {
    if c == 0 then Success
    else if c == 1 then NetInvalidConnection
    else if c == 2 then NetFailedConnection
    else if c == 3 then NetConnectionTimeout
    else if c == 4 then NetSendFail
    else if c == 5 then NetReadFail
    else if c == 6 then NetSocketFail
    else if c == 7 then WrongParam
    else if c == 8 then MemFail
    else if c == 9 then InvalidData
    else if c == 10 then CheckFail
    else Overflow
  }

  /** The two encodings are inverse to each other. */
  lemma CodeRoundTrip(s: Status, c: nat)
    requires c <= 11
    ensures FromCode(Code(s)) == s
    ensures Code(FromCode(c)) == c
  {
  }
}

/** An optional value, for the source's nullable pointers. */
module Wrappers {
  datatype Option<T> = None | Some(value: T)
}
