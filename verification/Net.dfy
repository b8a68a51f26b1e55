/** What a session sees of the network: finite input, writes that may fail, resolved endpoints and their outcomes. */
module Net {
  import opened IpText

  type Port = n: int | 0 <= n < 65536

  /** The error codes src/socks5.cpp tells apart, and all the others. */
  datatype ErrorCode =
    | HostNotFound | HostUnreachable | ConnectionAborted | ConnectionRefused | TimedOut | NetworkUnreachable
    | OtherError(code: int)

  /** What connecting to one endpoint gives: a connection with a local port, or an error. */
  datatype Attempt = Accepts(localPort: Port) | Rejects(ec: ErrorCode)

  datatype Resolution = Unresolved(ec: ErrorCode) | Resolved(endpoints: seq<Attempt>)

  datatype Dial = Connected(localPort: Port) | DialFailed(ec: ErrorCode)

  /** The other side of an accepted client: all it will ever send, which handshake writes reach it, and the resolver. */
  datatype Peer = Peer(
    input: seq<Byte>,
    writeOk: nat -> bool,
    resolve: (string, string) -> Resolution)

  // ---- Reading ----

  /** The result of reading: a value and the bytes behind it, or the stream ended first. */
  datatype Got<+T> = Got(value: T, rest: seq<Byte>) | Short

  function TakeByte(input: seq<Byte>): Got<Byte> {
    if input == [] then Short else Got(input[0], input[1..])
  }

  function Take(input: seq<Byte>, n: nat): Got<seq<Byte>> {
    if |input| < n then Short else Got(input[..n], input[n..])
  }

  /** A length byte and as many bytes. */
  function TakeCounted(input: seq<Byte>): Got<seq<Byte>> {
    if input == [] then Short else Take(input[1..], input[0])
  }

  // ---- Connecting ----

  /** The index of the first endpoint that accepts, or the number of endpoints. */
  function FirstAccepting(eps: seq<Attempt>): (i: nat)
    ensures i <= |eps|
    ensures i < |eps| ==> eps[i].Accepts?
    ensures forall k :: 0 <= k < i ==> eps[k].Rejects?
  {
    if eps == [] || eps[0].Accepts? then 0 else 1 + FirstAccepting(eps[1..])
  }

  /** The outcome of TcpSession::connect: the first accepting endpoint's; failing that the last one's error. */
  function Dialled(r: Resolution): Dial {
    match r
    case Unresolved(ec) => DialFailed(ec)
    case Resolved(eps) =>
      var i := FirstAccepting(eps);
      if i < |eps| then Connected(eps[i].localPort)
      else if eps == [] then DialFailed(HostNotFound)
      else DialFailed(eps[|eps| - 1].ec)
  }

  /** A list of endpoints leads to the local port of the first that accepts; if none does, to the error of the last, and
      to host_not_found if there is none. A resolver's error is passed on. */
  lemma DialledIff(r: Resolution, dial: Dial)
    ensures Dialled(r) == dial <==>
      match (r, dial)
      case (Unresolved(e), DialFailed(ec)) => ec == e
      case (Unresolved(_), Connected(_)) => false
      case (Resolved(eps), Connected(p)) =>
        exists i :: 0 <= i < |eps| && eps[i] == Accepts(p) && forall k :: 0 <= k < i ==> eps[k].Rejects?
      case (Resolved(eps), DialFailed(ec)) =>
        && (forall k :: 0 <= k < |eps| ==> eps[k].Rejects?)
        && (if eps == [] then ec == HostNotFound else eps[|eps| - 1] == Rejects(ec))
  {
    match r
    case Unresolved(_) =>
    case Resolved(eps) =>
      var first := FirstAccepting(eps);
      if first < |eps| { assert eps[first] == Accepts(eps[first].localPort); }
  }
}
