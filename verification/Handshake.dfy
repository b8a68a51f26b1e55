/** src/session.cpp, start and createProxy: from the first byte of a client to the moment its bytes are relayed. */
module Handshake {
  import opened Text
  import opened IpText
  import opened Net
  import opened StatDb
  import opened Session
  import opened ConfigReader
  import SocksBase = Socks
  import Five = Socks5
  import Four = Socks4
  import S5 = Socks5Spec
  import S4 = Socks4Spec

  function Behind(peer: Peer): Peer {
    if peer.input == [] then peer else peer.(input := peer.input[1..])
  }

  function Payload5(sv: S5.Server, peer: Peer): Option<seq<Byte>> {
    var p := S5.Read(sv, peer.input);
    if S5.Init(sv, peer).bound.Some? && p.Complete? then Some(p.rest) else None
  }

  function Payload4(peer: Peer): Option<seq<Byte>> {
    var p := S4.Read(peer.input);
    if S4.Init(peer).bound.Some? && p.Got? then Some(p.rest) else None
  }

  /** The bytes still unread when both sockets start to relay; None when the session ends in the handshake. */
  function Payload(sv: S5.Server, peer: Peer): Option<seq<Byte>> {
    if peer.input == [] then None
    else if peer.input[0] == S5.SOCKS5_VER then Payload5(sv, Behind(peer))
    else if peer.input[0] == S4.SOCKS4_VER then Payload4(Behind(peer))
    else None
  }

  datatype Greeting = V5(five: S5.Request) | V4(four: S4.Request)

  /** The greeting asks for something this server does, the destination accepts, and the replies before it get through.
      */
  predicate Admitted(sv: S5.Server, peer: Peer, g: Greeting) {
    match g
    case V5(req) =>
      && S5.Acceptable(sv, req) && req.command.cmd == S5.CONNECT
      && Dialled(peer.resolve(req.command.target.Host(), Numeral(req.command.port, Decimal))).Connected?
      && peer.writeOk(0) && (sv.auth ==> peer.writeOk(1))
    case V4(req) =>
      && req.Valid() && Dialled(peer.resolve(IPv4Text(req.address), Numeral(req.port, Decimal))).Connected?
      && peer.writeOk(0)
  }

  function Transcript(sv: S5.Server, g: Greeting): seq<Byte>
    requires match g case V5(req) => S5.Acceptable(sv, req) case V4(req) => req.Valid()
  {
    match g
    case V5(req) => [S5.SOCKS5_VER] + S5.Encode(sv, req)
    case V4(req) => [S4.SOCKS4_VER] + S4.Encode(req)
  }

  lemma Payload5Iff(sv: S5.Server, peer: Peer, req: S5.Request, payload: seq<Byte>)
    ensures Payload5(sv, peer) == Some(payload) && S5.Read(sv, peer.input) == S5.Complete(req, payload)
      <==> Admitted(sv, peer, V5(req)) && peer.input == S5.Encode(sv, req) + payload
  {
    S5.SoundAndComplete(sv, peer.input, req, payload);
    if S5.Read(sv, peer.input) == S5.Complete(req, payload) {
      S5.CompleteOutcome(sv, peer);
    }
  }

  lemma Payload4Iff(sv: S5.Server, peer: Peer, req: S4.Request, payload: seq<Byte>)
    ensures Payload4(peer) == Some(payload) && S4.Read(peer.input) == Got(req, payload)
      <==> Admitted(sv, peer, V4(req)) && peer.input == S4.Encode(req) + payload
  {
    S4.SoundAndComplete(peer.input, req, payload);
  }

  predicate Greets(sv: S5.Server, peer: Peer, g: Greeting, payload: seq<Byte>) {
    Admitted(sv, peer, g) && peer.input == Transcript(sv, g) + payload
  }

  /** The version byte is taken off. */
  lemma BehindVersion(peer: Peer, version: Byte, request: seq<Byte>, payload: seq<Byte>)
    ensures peer.input == [version] + request + payload
      <==> peer.input != [] && peer.input[0] == version && Behind(peer).input == request + payload
  {
    assert [version] + request + payload == [version] + (request + payload);
    if peer.input != [] { assert peer.input == [peer.input[0]] + peer.input[1..]; }
  }

  lemma Admits5(sv: S5.Server, peer: Peer, req: S5.Request, payload: seq<Byte>)
    requires Greets(sv, peer, V5(req), payload)
    ensures Payload(sv, peer) == Some(payload)
  {
    BehindVersion(peer, S5.SOCKS5_VER, S5.Encode(sv, req), payload);
    Payload5Iff(sv, Behind(peer), req, payload);
  }

  lemma Admits4(sv: S5.Server, peer: Peer, req: S4.Request, payload: seq<Byte>)
    requires Greets(sv, peer, V4(req), payload)
    ensures Payload(sv, peer) == Some(payload)
  {
    BehindVersion(peer, S4.SOCKS4_VER, S4.Encode(req), payload);
    Payload4Iff(sv, Behind(peer), req, payload);
  }

  lemma GreetingAdmitted(sv: S5.Server, peer: Peer, g: Greeting, payload: seq<Byte>)
    requires Greets(sv, peer, g, payload)
    ensures Payload(sv, peer) == Some(payload)
  {
    match g
    case V5(req) => Admits5(sv, peer, req, payload);
    case V4(req) => Admits4(sv, peer, req, payload);
  }

  lemma Greets5(sv: S5.Server, peer: Peer, payload: seq<Byte>)
    requires peer.input != [] && peer.input[0] == S5.SOCKS5_VER && Payload5(sv, Behind(peer)) == Some(payload)
    ensures Greets(sv, peer, V5(S5.Read(sv, Behind(peer).input).req), payload)
  {
    var req := S5.Read(sv, Behind(peer).input).req;
    Payload5Iff(sv, Behind(peer), req, payload);
    BehindVersion(peer, S5.SOCKS5_VER, S5.Encode(sv, req), payload);
  }

  lemma Greets4(sv: S5.Server, peer: Peer, payload: seq<Byte>)
    requires peer.input != [] && peer.input[0] == S4.SOCKS4_VER && Payload4(Behind(peer)) == Some(payload)
    ensures Greets(sv, peer, V4(S4.Read(Behind(peer).input).value), payload)
  {
    var req := S4.Read(Behind(peer).input).value;
    Payload4Iff(sv, Behind(peer), req, payload);
    BehindVersion(peer, S4.SOCKS4_VER, S4.Encode(req), payload);
  }

  /** A session starts to relay with `payload` unread exactly when the client's stream is the transcript of an admitted
      greeting followed by that payload. */
  lemma PayloadIff(sv: S5.Server, peer: Peer, payload: seq<Byte>)
    ensures Payload(sv, peer) == Some(payload) <==> exists g :: Greets(sv, peer, g, payload)
  {
    if Payload(sv, peer) == Some(payload) {
      if peer.input[0] == S5.SOCKS5_VER { Greets5(sv, peer, payload); } else { Greets4(sv, peer, payload); }
    }
    if g :| Greets(sv, peer, g, payload) {
      GreetingAdmitted(sv, peer, g, payload);
    }
  }

  /** In numbers: the first byte is 5 or 4, and tells which of the two handshakes follows; with any other, or with none,
      the session ends. */
  lemma FirstByte(sv: S5.Server, peer: Peer)
    ensures (peer.input == [] || (peer.input[0] != 4 && peer.input[0] != 5)) ==> Payload(sv, peer) == None
    ensures forall g, payload :: Greets(sv, peer, g, payload) ==>
      peer.input != [] && peer.input[0] == match g case V5(_) => 5 case V4(_) => 4
  {
    forall g, payload | Greets(sv, peer, g, payload)
      ensures peer.input != [] && peer.input[0] == match g case V5(_) => 5 case V4(_) => 4
    {
      match g
      case V5(req) => BehindVersion(peer, 5, S5.Encode(sv, req), payload);
      case V4(req) => BehindVersion(peer, 4, S4.Encode(req), payload);
    }
  }

  /** start, up to the first relayed read: with a fresh session, true exactly when the handshake reaches a payload,
      which is then what is left unread; a record is in the table exactly when it is true and SQLite works. */
  method Start(session: TcpSession, db: DatabaseService, config: ConfigReader, authFlag: bool, fault: bool)
    returns (ok: bool, socks: Option<SocksBase.Socks>)
    requires session.log == [] && session.query == None
    modifies session, db
    ensures var sv := S5.Server(authFlag, config.users);
      var peer := Peer(old(session.input), session.writeOk, session.resolve);
      && ok == Payload(sv, peer).Some?
      && (ok ==> session.input == Payload(sv, peer).value)
    ensures ok ==> socks.Some? && fresh(socks.value) && socks.value.session == session && socks.value.db == db
    ensures ok && !fault ==>
      && db.table == Inserted(old(db.table), socks.value.RecordAddresses()) && socks.value.id == db.table.lastId
      && socks.value.id in db.table.rows && socks.value.Records(db.table.rows[socks.value.id])
    ensures !ok || fault ==> db.table == old(db.table) && (socks.Some? ==> socks.value.id == 0)
  {
    var ver, failed := session.ReadByte();
    if failed { return false, None; }
    if ver == S5.SOCKS5_VER {
      var base := new SocksBase.Socks(session, db, S5.SOCKS5_VER);
      var proxy := new Five.Socks5(base, config, authFlag);
      ok := proxy.Init(fault);
      return ok, Some(base);
    }
    if ver == S4.SOCKS4_VER {
      var base := new SocksBase.Socks(session, db, S4.SOCKS4_VER);
      var proxy := new Four.Socks4(base);
      ok := proxy.Init(fault);
      return ok, Some(base);
    }
    return false, None;
  }
}
