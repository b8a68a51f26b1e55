/** The SOCKS4 handshake of src/socks4.cpp as a relation between bytes, the reply and the connection made. */
module Socks4Spec {
  import opened Text
  import opened IpText
  import opened Net

  const SOCKS4_VER: Byte := 4
  const CONNECT: Byte := 1
  const GRANTED: Byte := 90
  const REJECTED: Byte := 91

  datatype Request = Request(port: Port, address: seq<Byte>, user: seq<Byte>) {
    predicate Valid() { |address| == 4 && 0 !in user }
  }

  /** The CONNECT request behind the version byte. */
  function Encode(r: Request): seq<Byte>
    requires r.Valid()
  {
    [CONNECT, r.port / 256, r.port % 256] + r.address + r.user + [0]
  }

  /** The bytes in front of the first zero byte and those behind it. */
  function ReadUser(input: seq<Byte>): (r: Got<seq<Byte>>)
    ensures r.Got? ==> 0 !in r.value && input == r.value + [0] + r.rest
    ensures r.Short? ==> 0 !in input
  {
    if input == [] then Short
    else if input[0] == 0 then Got([], input[1..])
    else
      match ReadUser(input[1..])
      case Short => Short
      case Got(user, rest) => Got([input[0]] + user, rest)
  }

  function Read(input: seq<Byte>): (r: Got<Request>)
    ensures r.Got? ==> r.value.Valid()
  {
    if |input| < 7 || input[0] != CONNECT then Short
    else
      match ReadUser(input[7..])
      case Short => Short
      case Got(user, rest) => Got(Request((input[1] as int) * 256 + input[2], input[3..7], user), rest)
  }

  lemma {:induction false} UserIff(input: seq<Byte>, user: seq<Byte>, rest: seq<Byte>)
    ensures ReadUser(input) == Got(user, rest) <==> 0 !in user && input == user + [0] + rest
  {
    if 0 !in user && input == user + [0] + rest {
      if user == [] {
        assert input[1..] == rest;
      } else {
        var tail := user[1..];
        assert input[0] == user[0] && input[1..] == tail + [0] + rest;
        UserIff(input[1..], tail, rest);
        assert user == [user[0]] + tail;
      }
    }
  }

  lemma {:induction false} NoZero(input: seq<Byte>)
    requires 0 !in input
    ensures ReadUser(input) == Short
  {
  }

  lemma Shift(user: seq<Byte>, unread: seq<Byte>, c: Byte, rest: seq<Byte>)
    requires unread == [c] + rest
    ensures user + unread == user + [c] + rest
  {
  }

  /** Where the loop that reads the user id stops. */
  lemma UserEnds(input: seq<Byte>, user: seq<Byte>, unread: seq<Byte>)
    requires 0 !in user && input == user + unread && (unread == [] || unread[0] == 0)
    ensures ReadUser(input) == if unread == [] then Short else Got(user, unread[1..])
  {
    if unread == [] {
      NoZero(input);
    } else {
      assert unread == [0] + unread[1..];
      Shift(user, unread, 0, unread[1..]);
      UserIff(input, user, unread[1..]);
    }
  }

  lemma Sound(input: seq<Byte>, r: Request, rest: seq<Byte>)
    requires Read(input) == Got(r, rest)
    ensures r.Valid() && input == Encode(r) + rest
  {
    UserIff(input[7..], r.user, rest);
    assert input == [input[0], input[1], input[2]] + input[3..7] + input[7..];
    assert input == [CONNECT, r.port / 256, r.port % 256] + r.address + (r.user + [0] + rest);
  }

  lemma CompleteFor(input: seq<Byte>, r: Request, rest: seq<Byte>)
    requires r.Valid() && input == Encode(r) + rest
    ensures Read(input) == Got(r, rest)
  {
    assert input == [CONNECT, r.port / 256, r.port % 256] + r.address + (r.user + [0] + rest);
    assert input[7..] == r.user + [0] + rest && input[3..7] == r.address;
    UserIff(input[7..], r.user, rest);
  }

  /** The request is read exactly off its encoding: port, address and user id come back, the payload stays. */
  lemma SoundAndComplete(input: seq<Byte>, r: Request, rest: seq<Byte>)
    ensures Read(input) == Got(r, rest) <==> r.Valid() && input == Encode(r) + rest
  {
    if Read(input) == Got(r, rest) { Sound(input, r, rest); }
    if r.Valid() && input == Encode(r) + rest { CompleteFor(input, r, rest); }
  }

  lemma PrefixFree(a: Request, b: Request, restA: seq<Byte>, restB: seq<Byte>)
    requires a.Valid() && b.Valid() && Encode(a) + restA == Encode(b) + restB
    ensures a == b && restA == restB
  {
    CompleteFor(Encode(a) + restA, a, restA);
    CompleteFor(Encode(b) + restB, b, restB);
  }

  /** A proper prefix of a request is not taken for a request. */
  lemma NoPrefixAccepted(r: Request, n: nat)
    requires r.Valid() && n < |Encode(r)|
    ensures Read(Encode(r)[..n]).Short?
  {
    var all := Encode(r);
    var p := Read(all[..n]);
    if p.Got? {
      Sound(all[..n], p.value, p.rest);
      assert all == all[..n] + all[n..];
      assert all + [] == Encode(p.value) + (p.rest + all[n..]);
      PrefixFree(r, p.value, [], p.rest + all[n..]);
    }
  }

  function Reply(code: Byte): seq<Byte> { [0, code, 0, 0, 0, 0, 0, 0] }

  datatype Outcome = Outcome(log: seq<seq<Byte>>, query: Option<(string, string)>, bound: Option<Port>)

  /** What init does. Unlike SOCKS5, a reply that cannot be written ends the session. */
  function Init(peer: Peer): Outcome {
    match Read(peer.input)
    case Short => Outcome([], None, None)
    case Got(r, _) =>
      var host, service := IPv4Text(r.address), Numeral(r.port, Decimal);
      match Dialled(peer.resolve(host, service))
      case Connected(p) => Outcome([Reply(GRANTED)], Some((host, service)), if peer.writeOk(0) then Some(p) else None)
      case DialFailed(_) => Outcome([Reply(REJECTED)], Some((host, service)), None)
  }

  /** One reply of 8 bytes is attempted exactly when a request was read; it carries 90 exactly when the connection it
      asks for was made; and init returns true exactly when that reply was also written. */
  lemma Replies(peer: Peer)
    ensures var o := Init(peer);
      && (o.log == [] <==> Read(peer.input).Short?)
      && (o.log != [] ==>
            && |o.log| == 1 && |o.log[0]| == 8 && o.query.Some?
            && ParseIPv4(o.query.value.0) == Some(Read(peer.input).value.address)
            && (o.log[0][1] == GRANTED || o.log[0][1] == REJECTED)
            && (o.log[0][1] == GRANTED <==> Dialled(peer.resolve(o.query.value.0, o.query.value.1)).Connected?))
      && (o.bound.Some? <==> o.log == [Reply(GRANTED)] && peer.writeOk(0))
  {
    match Read(peer.input)
    case Short =>
    case Got(r, _) => IPv4RoundTrip(r.address);
  }
}
