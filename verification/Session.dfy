/** src/session.cpp, the synchronous half: reading and writing the client, and connecting to the destination. */
module Session {
  import opened Text
  import opened IpText
  import opened Net

  class TcpSession {
    const writeOk: nat -> bool
    const resolve: (string, string) -> Resolution
    const remoteAddress: string
    const remotePort: string

    /** Bytes of the client not read yet, and the writes to it so far, whether they arrived or not. */
    var input: seq<Byte>
    var log: seq<seq<Byte>>

    /** The last (host, service) handed to the resolver, and how many of its endpoints were tried. */
    var query: Option<(string, string)>
    var tried: nat

    constructor (peer: Peer, remoteAddress: string, remotePort: string)
      ensures input == peer.input && log == [] && query == None && tried == 0
      ensures writeOk == peer.writeOk && resolve == peer.resolve
      ensures this.remoteAddress == remoteAddress && this.remotePort == remotePort
    {
      writeOk, resolve := peer.writeOk, peer.resolve;
      this.remoteAddress, this.remotePort := remoteAddress, remotePort;
      input, log, query, tried := peer.input, [], None, 0;
    }

    /** readByte: a zero byte and an error when the stream has ended. */
    method ReadByte() returns (b: Byte, failed: bool)
      modifies this`input
      ensures match TakeByte(old(input))
        case Got(v, rest) => !failed && b == v && input == rest
        case Short => failed && b == 0 && input == []
    {
      if input == [] { return 0, true; }
      b, failed, input := input[0], false, input[1..];
    }

    /** readBytes: fills the buffer, or consumes what is left and reports an error. */
    method ReadBytes(n: nat) returns (bytes: seq<Byte>, failed: bool)
      modifies this`input
      ensures match Take(old(input), n)
        case Got(v, rest) => !failed && bytes == v && input == rest
        case Short => failed && input == []
    {
      if |input| < n {
        bytes, failed, input := input + seq(n - |input|, _ => 0), true, [];
      } else {
        bytes, failed, input := input[..n], false, input[n..];
      }
    }

    /** writeBytes: the attempt is logged; whether it succeeds depends on the connection. */
    method WriteBytes(bytes: seq<Byte>) returns (failed: bool)
      modifies this`log
      ensures log == old(log) + [bytes] && failed == !writeOk(|old(log)|)
    {
      failed := !writeOk(|log|);
      log := log + [bytes];
    }

    /** connect: endpoints are tried in the order of the list until one accepts. */
    method Connect(host: string, service: string) returns (bindPort: Port, ec: Option<ErrorCode>)
      modifies this`query, this`tried
      ensures query == Some((host, service))
      ensures match Dialled(resolve(host, service))
        case Connected(p) => ec == None && bindPort == p
        case DialFailed(e) => ec == Some(e) && bindPort == 0
      ensures match resolve(host, service)
        case Unresolved(e) => tried == 0 && ec == Some(e)
        case Resolved(eps) =>
          && tried <= |eps|
          && (forall k :: 0 <= k < tried - 1 ==> eps[k].Rejects?)
          && (if ec.None? then tried > 0 && eps[tried - 1] == Accepts(bindPort)
              else
                && tried == |eps| && (forall a :: a in eps ==> a.Rejects?)
                && (if eps == [] then ec == Some(HostNotFound) else eps[|eps| - 1] == Rejects(ec.value)))
    {
      query, tried := Some((host, service)), 0;
      match resolve(host, service)
      case Unresolved(e) => return 0, Some(e);
      case Resolved(eps) =>
        ec := Some(HostNotFound);
        var it := 0;
        bindPort := 0;
        while ec.Some? && it != |eps|
          invariant 0 <= it <= |eps| && tried == it && query == Some((host, service))
          invariant forall k :: 0 <= k < it - 1 ==> eps[k].Rejects?
          invariant it == 0 ==> ec == Some(HostNotFound)
          invariant it > 0 ==> ec == match eps[it - 1] case Accepts(_) => None case Rejects(e) => Some(e)
          decreases |eps| - it
        {
          ec := match eps[it] case Accepts(_) => None case Rejects(e) => Some(e);
          it := it + 1;
          tried := it;
        }
        if ec.Some? { return 0, ec; }
        bindPort := eps[it - 1].localPort;
        assert FirstAccepting(eps) == it - 1;
    }
  }
}
