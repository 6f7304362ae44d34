/** Bytes, telnet constants and the small enumerations the proxy is built from. */
module Telnet {

  newtype byte = x: int | 0 <= x < 256

  type Bytes = seq<byte>

  // Telnet commands (RFC 854)
  const IAC: byte := 255
  const DONT: byte := 254
  const DO: byte := 253
  const WONT: byte := 252
  const WILL: byte := 251
  const SB: byte := 250
  const SE: byte := 240

  // The NEW-ENVIRON option (RFC 1572)
  const NEW_ENVIRON: byte := 39
  const QUAL_IS: byte := 0
  const QUAL_SEND: byte := 1
  const VAR: byte := 0
  const VALUE: byte := 1
  const ESC: byte := 2
  const USERVAR: byte := 3

  // Mud Client Compression Protocol, versions 1 to 3
  const MCCP: byte := 85
  const MCCP2: byte := 86
  const MCCP3: byte := 87

  /** Capacity of every endpoint buffer. */
  const EP_BUFSIZE: nat := 65536

  datatype Option<+T> = None | Some(value: T)

  /** How an endpoint treats compression; the configuration fixes it. */
  datatype Mode = Ignore | Disable | Enable

  /** What an endpoint has said about NEW-ENVIRON; Silent is the initial 0. */
  datatype Mnes = Silent | SaidDo | SaidWill | SaidWont

  /** Outcome of the MCCP2 offer made to an endpoint. */
  datatype Nego = Unoffered | Offered | Accepted | Refused

  /** The handlers that can be attached to a pattern. */
  datatype Action =
    | MnesRequest | MnesDoes | MnesClientWill | MnesClientWont
    | RespondDo | RespondDont | RespondWont
    | MccpIgnore | Mccp2Do | Mccp2Dont | Mccp2SbStart

  datatype Pattern = Pattern(text: Bytes, action: Action)

  /** The concatenation of a sequence of byte strings. */
  function Concat(parts: seq<Bytes>): Bytes {
    if parts == [] then [] else parts[0] + Concat(parts[1..])
  }

  lemma {:induction false} ConcatSnoc(parts: seq<Bytes>, last: Bytes)
    ensures Concat(parts + [last]) == Concat(parts) + last
  {
    if parts == [] {
      assert parts + [last] == [last];
      assert Concat([last]) == last + Concat([last][1..]);
    } else {
      ConcatSnoc(parts[1..], last);
      assert (parts + [last])[1..] == parts[1..] + [last];
      assert Concat(parts + [last]) == parts[0] + (Concat(parts[1..]) + last);
    }
  }
}
