/** The SOCKS5 handshake of src/socks5.cpp as a relation between bytes, replies and the connection made:
    RFC 1928 sections 3 to 6, with a username/password exchange laid out as in section 2 of RFC 1929. */
module Socks5Spec {
  import opened Text
  import opened IpText
  import opened Net

  const AUTH_VER: Byte := 1
  const SOCKS5_VER: Byte := 5

  const NO_AUTH_REQ: Byte := 0
  const USERNAME_PASSWORD: Byte := 2
  const NO_ACC_METHODS: Byte := 0xFF

  const CONNECT: Byte := 1

  const ATYP_IPV4: Byte := 1
  const ATYP_DOMAIN: Byte := 3
  const ATYP_IPV6: Byte := 4

  const SUCCEEDED: Byte := 0
  const SERVER_FAILURE: Byte := 1
  const CONN_NOT_ALLOWED: Byte := 2
  const NETWORK_UNREACH: Byte := 3
  const HOST_UNREACHABLE: Byte := 4
  const CONNECTION_REFUSED: Byte := 5
  const TTL_EXPIRED: Byte := 6
  const COMMAND_NOT_SUPP: Byte := 7
  const ADDR_TYPE_NOT_SUPP: Byte := 8

  /** The server's configuration: is authentication on, and which users are stored. */
  datatype Server = Server(auth: bool, users: map<string, string>) {
    function Method(): Byte { if auth then USERNAME_PASSWORD else NO_AUTH_REQ }

    predicate Known(c: Credentials) {
      ToText(c.user) in users && users[ToText(c.user)] == ToText(c.password)
    }
  }

  datatype Credentials = Credentials(user: seq<Byte>, password: seq<Byte>)

  datatype Target = IPv4(bytes: seq<Byte>) | Domain(bytes: seq<Byte>) | IPv6(bytes: seq<Byte>) {
    predicate Valid() {
      match this
      case IPv4(b) => |b| == 4
      case Domain(b) => 0 < |b| < 256
      case IPv6(b) => |b| == 16
    }

    function Atyp(): Byte {
      match this case IPv4(_) => ATYP_IPV4 case Domain(_) => ATYP_DOMAIN case IPv6(_) => ATYP_IPV6
    }

    /** The host name handed to the resolver. */
    function Host(): string
      requires Valid()
    {
      match this case IPv4(b) => IPv4Text(b) case Domain(b) => ToText(b) case IPv6(b) => IPv6Text(b)
    }
  }

  datatype Command = Command(cmd: Byte, rsv: Byte, target: Target, port: Port)

  datatype Request = Request(methods: seq<Byte>, login: Option<Credentials>, command: Command)

  // ---- The encoder ----

  function Counted(bytes: seq<Byte>): seq<Byte>
    requires |bytes| < 256
  {
    [|bytes|] + bytes
  }

  function EncodeLogin(c: Credentials): seq<Byte>
    requires |c.user| < 256 && |c.password| < 256
  {
    [AUTH_VER] + Counted(c.user) + Counted(c.password)
  }

  function EncodeTarget(t: Target): seq<Byte>
    requires t.Valid()
  {
    if t.Domain? then Counted(t.bytes) else t.bytes
  }

  function EncodePort(p: Port): seq<Byte> { [p / 256, p % 256] }

  function EncodeCommand(c: Command): seq<Byte>
    requires c.target.Valid()
  {
    [SOCKS5_VER, c.cmd, c.rsv, c.target.Atyp()] + EncodeTarget(c.target) + EncodePort(c.port)
  }

  predicate AcceptableLogin(sv: Server, login: Option<Credentials>) {
    if sv.auth then login.Some? && 0 < |login.value.user| < 256 && |login.value.password| < 256 && sv.Known(login.value)
    else login.None?
  }

  /** A request this server accepts: it offers the server's method, logs in exactly when asked to, names an address. */
  predicate Acceptable(sv: Server, req: Request) {
    && |req.methods| < 256 && sv.Method() in req.methods
    && AcceptableLogin(sv, req.login)
    && req.command.target.Valid()
  }

  function EncodeBehind(sv: Server, login: Option<Credentials>, c: Command): seq<Byte>
    requires AcceptableLogin(sv, login) && c.target.Valid()
  {
    if login.Some? then EncodeLogin(login.value) + EncodeCommand(c) else EncodeCommand(c)
  }

  /** The transcript behind the version byte that TcpSession::createProxy has read. */
  function Encode(sv: Server, req: Request): seq<Byte>
    requires Acceptable(sv, req)
  {
    Counted(req.methods) + EncodeBehind(sv, req.login, req.command)
  }

  // ---- The parser ----

  /** How far the bytes of a client get. */
  datatype Parse =
    | NoMethod
    | NoLogin
    | WrongLogin
    | NoVersion
    | Truncated
    | NoAddressType
    | Complete(req: Request, rest: seq<Byte>)

  function ReadLogin(input: seq<Byte>): Got<Credentials> {
    match TakeByte(input)
    case Short => Short
    case Got(ver, in1) =>
      if ver != AUTH_VER then Short
      else
        match TakeCounted(in1)
        case Short => Short
        case Got(user, in2) =>
          if user == [] then Short
          else
            match TakeCounted(in2)
            case Short => Short
            case Got(password, rest) => Got(Credentials(user, password), rest)
  }

  predicate KnownAtyp(atyp: Byte) { atyp == ATYP_IPV4 || atyp == ATYP_DOMAIN || atyp == ATYP_IPV6 }

  /** An address; an empty domain name is none. */
  function ReadTarget(atyp: Byte, input: seq<Byte>): (r: Got<Target>)
    requires KnownAtyp(atyp)
    ensures r.Got? ==> r.value.Valid() && r.value.Atyp() == atyp
  {
    if atyp == ATYP_IPV4 then match Take(input, 4) case Short => Short case Got(b, rest) => Got(IPv4(b), rest)
    else if atyp == ATYP_IPV6 then match Take(input, 16) case Short => Short case Got(b, rest) => Got(IPv6(b), rest)
    else
      match TakeCounted(input)
      case Short => Short
      case Got(b, rest) => if b == [] then Short else Got(Domain(b), rest)
  }

  function ReadPort(input: seq<Byte>): Got<Port> {
    if |input| < 2 then Short else Got((input[0] as int) * 256 + input[1], input[2..])
  }

  function ReadCommand(methods: seq<Byte>, login: Option<Credentials>, input: seq<Byte>): (p: Parse)
    ensures p.Complete? ==> p.req.command.target.Valid()
  {
    if input == [] || input[0] != SOCKS5_VER then NoVersion
    else if |input| < 4 then Truncated
    else if !KnownAtyp(input[3]) then NoAddressType
    else
      match ReadTarget(input[3], input[4..])
      case Short => Truncated
      case Got(target, in2) =>
        match ReadPort(in2)
        case Short => Truncated
        case Got(port, rest) => Complete(Request(methods, login, Command(input[1], input[2], target, port)), rest)
  }

  function ReadBehind(sv: Server, methods: seq<Byte>, input: seq<Byte>): (p: Parse)
    ensures p.Complete? ==> p.req.command.target.Valid()
  {
    if !sv.auth then ReadCommand(methods, None, input)
    else
      match ReadLogin(input)
      case Short => NoLogin
      case Got(c, rest) => if sv.Known(c) then ReadCommand(methods, Some(c), rest) else WrongLogin
  }

  function Read(sv: Server, input: seq<Byte>): (p: Parse)
    ensures p.Complete? ==> p.req.command.target.Valid()
  {
    match TakeCounted(input)
    case Short => NoMethod
    case Got(methods, rest) => if sv.Method() in methods then ReadBehind(sv, methods, rest) else NoMethod
  }

  // ---- Soundness and completeness ----

  lemma CountedIff(input: seq<Byte>, bytes: seq<Byte>, rest: seq<Byte>)
    ensures TakeCounted(input) == Got(bytes, rest) <==> |bytes| < 256 && input == Counted(bytes) + rest
  {
    if TakeCounted(input) == Got(bytes, rest) {
      assert input == [input[0]] + input[1..] && input[1..] == input[1..][..input[0]] + input[1..][input[0]..];
    }
    if |bytes| < 256 && input == Counted(bytes) + rest {
      assert input[1..] == bytes + rest && (bytes + rest)[..|bytes|] == bytes && (bytes + rest)[|bytes|..] == rest;
    }
  }

  lemma Regroup(a: seq<Byte>, b: seq<Byte>, c: seq<Byte>)
    ensures a + b + c == a + (b + c)
  {
  }

  lemma LoginSound(input: seq<Byte>, c: Credentials, rest: seq<Byte>)
    requires ReadLogin(input) == Got(c, rest)
    ensures 0 < |c.user| < 256 && |c.password| < 256 && input == EncodeLogin(c) + rest
  {
    var in2 := TakeCounted(input[1..]).rest;
    CountedIff(input[1..], c.user, in2);
    CountedIff(in2, c.password, rest);
    Regroup(Counted(c.user), Counted(c.password), rest);
    Regroup([AUTH_VER], Counted(c.user), in2);
    Regroup([AUTH_VER] + Counted(c.user), Counted(c.password), rest);
    assert input == [AUTH_VER] + input[1..];
  }

  lemma LoginComplete(input: seq<Byte>, c: Credentials, rest: seq<Byte>)
    requires 0 < |c.user| < 256 && |c.password| < 256 && input == EncodeLogin(c) + rest
    ensures ReadLogin(input) == Got(c, rest)
  {
    var in2 := Counted(c.password) + rest;
    assert input == [AUTH_VER] + (Counted(c.user) + in2);
    assert input[1..] == Counted(c.user) + in2;
    CountedIff(input[1..], c.user, in2);
    CountedIff(in2, c.password, rest);
  }

  lemma LoginIff(input: seq<Byte>, c: Credentials, rest: seq<Byte>)
    ensures ReadLogin(input) == Got(c, rest)
      <==> 0 < |c.user| < 256 && |c.password| < 256 && input == EncodeLogin(c) + rest
  {
    if ReadLogin(input) == Got(c, rest) { LoginSound(input, c, rest); }
    if 0 < |c.user| < 256 && |c.password| < 256 && input == EncodeLogin(c) + rest { LoginComplete(input, c, rest); }
  }

  lemma TargetIff(atyp: Byte, input: seq<Byte>, t: Target, rest: seq<Byte>)
    requires KnownAtyp(atyp)
    ensures ReadTarget(atyp, input) == Got(t, rest)
      <==> t.Valid() && atyp == t.Atyp() && input == EncodeTarget(t) + rest
  {
    CountedIff(input, t.bytes, rest);
    var r := ReadTarget(atyp, input);
    if r == Got(t, rest) && !t.Domain? { assert input == t.bytes + rest; }
    if t.Valid() && atyp == t.Atyp() && input == EncodeTarget(t) + rest && !t.Domain? {
      assert input[..|t.bytes|] == t.bytes && input[|t.bytes|..] == rest;
    }
  }

  lemma PortIff(input: seq<Byte>, p: Port, rest: seq<Byte>)
    ensures ReadPort(input) == Got(p, rest) <==> input == EncodePort(p) + rest
  {
  }

  lemma CommandComplete(methods: seq<Byte>, login: Option<Credentials>, input: seq<Byte>, c: Command, rest: seq<Byte>)
    requires c.target.Valid() && input == EncodeCommand(c) + rest
    ensures ReadCommand(methods, login, input) == Complete(Request(methods, login, c), rest)
  {
    var in2 := EncodePort(c.port) + rest;
    var in1 := EncodeTarget(c.target) + in2;
    assert input == [SOCKS5_VER, c.cmd, c.rsv, c.target.Atyp()] + in1;
    assert input[4..] == in1;
    TargetIff(c.target.Atyp(), in1, c.target, in2);
    PortIff(in2, c.port, rest);
  }

  lemma CommandSound(methods: seq<Byte>, login: Option<Credentials>, input: seq<Byte>, c: Command, rest: seq<Byte>)
    requires ReadCommand(methods, login, input) == Complete(Request(methods, login, c), rest)
    ensures c.target.Valid() && input == EncodeCommand(c) + rest
  {
    var in2 := ReadTarget(input[3], input[4..]).rest;
    TargetIff(input[3], input[4..], c.target, in2);
    PortIff(in2, c.port, rest);
    var head := [SOCKS5_VER, c.cmd, c.rsv, c.target.Atyp()];
    assert input == head + input[4..];
    Regroup(EncodeTarget(c.target), EncodePort(c.port), rest);
    Regroup(head, EncodeTarget(c.target), in2);
    Regroup(head + EncodeTarget(c.target), EncodePort(c.port), rest);
  }

  lemma CommandIff(methods: seq<Byte>, login: Option<Credentials>, input: seq<Byte>, c: Command, rest: seq<Byte>)
    ensures ReadCommand(methods, login, input) == Complete(Request(methods, login, c), rest)
      <==> c.target.Valid() && input == EncodeCommand(c) + rest
  {
    if ReadCommand(methods, login, input) == Complete(Request(methods, login, c), rest) {
      CommandSound(methods, login, input, c, rest);
    }
    if c.target.Valid() && input == EncodeCommand(c) + rest {
      CommandComplete(methods, login, input, c, rest);
    }
  }

  predicate IsBehind(sv: Server, input: seq<Byte>, req: Request, rest: seq<Byte>) {
    AcceptableLogin(sv, req.login) && req.command.target.Valid()
    && input == EncodeBehind(sv, req.login, req.command) + rest
  }

  lemma BehindSound(sv: Server, methods: seq<Byte>, input: seq<Byte>, req: Request, rest: seq<Byte>)
    requires sv.auth && ReadBehind(sv, methods, input) == Complete(req, rest)
    ensures IsBehind(sv, input, req, rest)
  {
    var c, in2 := ReadLogin(input).value, ReadLogin(input).rest;
    LoginIff(input, c, in2);
    CommandIff(methods, Some(c), in2, req.command, rest);
    Regroup(EncodeLogin(c), EncodeCommand(req.command), rest);
  }

  lemma BehindComplete(sv: Server, methods: seq<Byte>, input: seq<Byte>, req: Request, rest: seq<Byte>)
    requires sv.auth && req.methods == methods && IsBehind(sv, input, req, rest)
    ensures ReadBehind(sv, methods, input) == Complete(req, rest)
  {
    var c, in2 := req.login.value, EncodeCommand(req.command) + rest;
    Regroup(EncodeLogin(c), EncodeCommand(req.command), rest);
    LoginIff(input, c, in2);
    CommandIff(methods, req.login, in2, req.command, rest);
  }

  lemma BehindIff(sv: Server, methods: seq<Byte>, input: seq<Byte>, req: Request, rest: seq<Byte>)
    requires req.methods == methods
    ensures ReadBehind(sv, methods, input) == Complete(req, rest) <==> IsBehind(sv, input, req, rest)
  {
    if !sv.auth {
      CommandIff(methods, None, input, req.command, rest);
    } else {
      if ReadBehind(sv, methods, input) == Complete(req, rest) { BehindSound(sv, methods, input, req, rest); }
      if IsBehind(sv, input, req, rest) { BehindComplete(sv, methods, input, req, rest); }
    }
  }

  lemma MethodsKept(sv: Server, methods: seq<Byte>, input: seq<Byte>)
    ensures ReadBehind(sv, methods, input).Complete? ==> ReadBehind(sv, methods, input).req.methods == methods
  {
  }

  lemma Sound(sv: Server, input: seq<Byte>, req: Request, rest: seq<Byte>)
    requires Read(sv, input) == Complete(req, rest)
    ensures Acceptable(sv, req) && input == Encode(sv, req) + rest
  {
    var methods, in1 := TakeCounted(input).value, TakeCounted(input).rest;
    CountedIff(input, methods, in1);
    MethodsKept(sv, methods, in1);
    BehindIff(sv, methods, in1, req, rest);
    Regroup(Counted(methods), EncodeBehind(sv, req.login, req.command), rest);
  }

  lemma CompleteFor(sv: Server, input: seq<Byte>, req: Request, rest: seq<Byte>)
    requires Acceptable(sv, req) && input == Encode(sv, req) + rest
    ensures Read(sv, input) == Complete(req, rest)
  {
    var behind := EncodeBehind(sv, req.login, req.command);
    BehindIff(sv, req.methods, behind + rest, req, rest);
    Regroup(Counted(req.methods), behind, rest);
    CountedIff(input, req.methods, behind + rest);
  }

  /** The stream is read to the end of a request exactly when it is the encoding of an acceptable request and a rest;
      the request is the encoded one, and exactly the rest is left unread. */
  lemma SoundAndComplete(sv: Server, input: seq<Byte>, req: Request, rest: seq<Byte>)
    ensures Read(sv, input) == Complete(req, rest) <==> Acceptable(sv, req) && input == Encode(sv, req) + rest
  {
    if Read(sv, input) == Complete(req, rest) { Sound(sv, input, req, rest); }
    if Acceptable(sv, req) && input == Encode(sv, req) + rest { CompleteFor(sv, input, req, rest); }
  }

  /** No accepted transcript is a proper prefix of another one, and nothing behind it is ever looked at. */
  lemma PrefixFree(sv: Server, a: Request, b: Request, restA: seq<Byte>, restB: seq<Byte>)
    requires Acceptable(sv, a) && Acceptable(sv, b) && Encode(sv, a) + restA == Encode(sv, b) + restB
    ensures a == b && restA == restB
  {
    SoundAndComplete(sv, Encode(sv, a) + restA, a, restA);
    SoundAndComplete(sv, Encode(sv, b) + restB, b, restB);
  }

  lemma Extends(all: seq<Byte>, n: nat, a: seq<Byte>, rest: seq<Byte>)
    requires n < |all| && all[..n] == a + rest
    ensures all + [] == a + (rest + all[n..]) && rest + all[n..] != []
  {
  }

  /** A proper prefix of an accepted transcript is not accepted, whatever it would be taken for. */
  lemma NoPrefixAccepted(sv: Server, req: Request, n: nat)
    requires Acceptable(sv, req) && n < |Encode(sv, req)|
    ensures !Read(sv, Encode(sv, req)[..n]).Complete?
  {
    var all := Encode(sv, req);
    var p := Read(sv, all[..n]);
    if p.Complete? {
      Sound(sv, all[..n], p.req, p.rest);
      Extends(all, n, Encode(sv, p.req), p.rest);
      PrefixFree(sv, req, p.req, [], p.rest + all[n..]);
    }
  }

  // ---- Replies ----

  function MethodReply(code: Byte): seq<Byte> { [SOCKS5_VER, code] }

  function LoginReply(known: bool): seq<Byte> { [AUTH_VER, if known then 0 else 1] }

  function ErrorReply(code: Byte): seq<Byte> { [SOCKS5_VER, code, 0, ATYP_IPV4, 0, 0, 0, 0, 0, 0] }

  function Zeros(n: nat): (r: seq<Byte>)
    ensures |r| == n && forall i :: 0 <= i < n ==> r[i] == 0
  {
    seq(n, _ => 0)
  }

  /** The success reply: the high byte of the port is computed as (port & 0xFF) >> 8, which is no byte but zero. */
  function SuccessReply(t: Target, bindPort: Port): seq<Byte> {
    [SOCKS5_VER, SUCCEEDED, 0] + (if t.IPv6? then [ATYP_IPV6] + Zeros(16) else [ATYP_IPV4] + Zeros(4))
      + [(bindPort % 256) / 256, bindPort % 256]
  }

  function ReplyCode(ec: ErrorCode): (code: Byte)
    ensures code != SUCCEEDED
  {
    match ec
    case HostNotFound => HOST_UNREACHABLE
    case HostUnreachable => HOST_UNREACHABLE
    case ConnectionAborted => CONN_NOT_ALLOWED
    case ConnectionRefused => CONNECTION_REFUSED
    case TimedOut => TTL_EXPIRED
    case NetworkUnreachable => NETWORK_UNREACH
    case OtherError(_) => SERVER_FAILURE
  }

  /** What init does: the writes it attempts, the name it has resolved, and the local port if it succeeds. */
  datatype Outcome = Outcome(log: seq<seq<Byte>>, query: Option<(string, string)>, bound: Option<Port>)

  function Refuse(log: seq<seq<Byte>>): Outcome { Outcome(log, None, None) }

  function AfterCommand(log: seq<seq<Byte>>, c: Command, resolve: (string, string) -> Resolution): Outcome
    requires c.target.Valid()
  {
    var host, service := c.target.Host(), Numeral(c.port, Decimal);
    match Dialled(resolve(host, service))
    case Connected(p) => Outcome(log + [SuccessReply(c.target, p)], Some((host, service)), Some(p))
    case DialFailed(ec) => Outcome(log + [ErrorReply(ReplyCode(ec))], Some((host, service)), None)
  }

  function AfterLogin(log: seq<seq<Byte>>, p: Parse, resolve: (string, string) -> Resolution): Outcome
    requires p.Complete? ==> p.req.command.target.Valid()
  {
    match p
    case NoVersion => Refuse(log + [ErrorReply(SERVER_FAILURE)])
    case NoAddressType => Refuse(log + [ErrorReply(ADDR_TYPE_NOT_SUPP)])
    case Complete(req, _) =>
      if req.command.cmd != CONNECT then Refuse(log + [ErrorReply(COMMAND_NOT_SUPP)])
      else AfterCommand(log, req.command, resolve)
    case _ => Refuse(log)
  }

  function AfterMethod(sv: Server, p: Parse, peer: Peer): Outcome
    requires p.Complete? ==> p.req.command.target.Valid()
  {
    var log := [MethodReply(sv.Method())];
    if !sv.auth then AfterLogin(log, p, peer.resolve)
    else if p.NoLogin? || p.NoMethod? then Refuse(log)
    else if p.WrongLogin? then Refuse(log + [LoginReply(false)])
    else if !peer.writeOk(1) then Refuse(log + [LoginReply(true)])
    else AfterLogin(log + [LoginReply(true)], p, peer.resolve)
  }

  function Init(sv: Server, peer: Peer): Outcome {
    var p := Read(sv, peer.input);
    if p.NoMethod? then Refuse([MethodReply(NO_ACC_METHODS)])
    else if !peer.writeOk(0) then Refuse([MethodReply(sv.Method())])
    else AfterMethod(sv, p, peer)
  }

  /** The handshake up to the command: the replies it stops with, or what was read and what is left. */
  datatype Negotiation = Stop(log: seq<seq<Byte>>) | Go(methods: seq<Byte>, login: Option<Credentials>, rest: seq<Byte>)

  /** The replies before the command, all of them attempted with success. */
  function Preamble(sv: Server): seq<seq<Byte>> {
    if sv.auth then [MethodReply(sv.Method()), LoginReply(true)] else [MethodReply(sv.Method())]
  }

  function NegotiateLogin(sv: Server, methods: seq<Byte>, input: seq<Byte>, writeOk: nat -> bool): Negotiation
    requires sv.auth
  {
    match ReadLogin(input)
    case Short => Stop([MethodReply(sv.Method())])
    case Got(c, rest) =>
      if !sv.Known(c) then Stop([MethodReply(sv.Method()), LoginReply(false)])
      else if !writeOk(1) then Stop([MethodReply(sv.Method()), LoginReply(true)])
      else Go(methods, Some(c), rest)
  }

  function Negotiate(sv: Server, peer: Peer): Negotiation {
    match TakeCounted(peer.input)
    case Short => Stop([MethodReply(NO_ACC_METHODS)])
    case Got(methods, rest) =>
      if sv.Method() !in methods then Stop([MethodReply(NO_ACC_METHODS)])
      else if !peer.writeOk(0) then Stop([MethodReply(sv.Method())])
      else if sv.auth then NegotiateLogin(sv, methods, rest, peer.writeOk)
      else Go(methods, None, rest)
  }

  lemma InitWithoutLogin(sv: Server, peer: Peer)
    requires !sv.auth
    ensures match Negotiate(sv, peer)
      case Stop(log) => Init(sv, peer) == Refuse(log)
      case Go(methods, login, rest) =>
        && Read(sv, peer.input) == ReadCommand(methods, login, rest)
        && Init(sv, peer) == AfterLogin(Preamble(sv), ReadCommand(methods, login, rest), peer.resolve)
  {
  }

  /** What is read behind the method is never taken for a missing method; nor a command for a missing login. */
  lemma NotRefusedBefore(sv: Server, methods: seq<Byte>, input: seq<Byte>)
    ensures !ReadBehind(sv, methods, input).NoMethod?
    ensures var p := ReadBehind(sv, methods, input);
      ReadLogin(input).Got? && sv.auth && sv.Known(ReadLogin(input).value) ==> !p.NoLogin? && !p.WrongLogin?
  {
  }

  lemma InitAfterLogin(sv: Server, peer: Peer)
    requires sv.auth
    ensures match Negotiate(sv, peer)
      case Stop(log) => Init(sv, peer) == Refuse(log)
      case Go(methods, login, rest) =>
        && Read(sv, peer.input) == ReadCommand(methods, login, rest)
        && Init(sv, peer) == AfterLogin(Preamble(sv), ReadCommand(methods, login, rest), peer.resolve)
  {
    var got := TakeCounted(peer.input);
    if got.Got? && sv.Method() in got.value {
      NotRefusedBefore(sv, got.value, got.rest);
      var m := MethodReply(sv.Method());
      assert [m] + [LoginReply(true)] == [m, LoginReply(true)] && [m] + [LoginReply(false)] == [m, LoginReply(false)];
    }
  }

  lemma InitAfterNegotiation(sv: Server, peer: Peer)
    ensures match Negotiate(sv, peer)
      case Stop(log) => Init(sv, peer) == Refuse(log)
      case Go(methods, login, rest) =>
        && Read(sv, peer.input) == ReadCommand(methods, login, rest)
        && Init(sv, peer) == AfterLogin(Preamble(sv), ReadCommand(methods, login, rest), peer.resolve)
  {
    if sv.auth { InitAfterLogin(sv, peer); } else { InitWithoutLogin(sv, peer); }
  }

  // ---- The reply grammar ----

  predicate FinalReply(reply: seq<Byte>) {
    (|reply| == 10 || |reply| == 22) && reply[0] == SOCKS5_VER
  }

  predicate FinalGrammar(log: seq<seq<Byte>>) {
    log == [] || (|log| == 1 && FinalReply(log[0]))
  }

  predicate LoginGrammar(log: seq<seq<Byte>>) {
    log == [] || log == [LoginReply(false)] || (log[0] == LoginReply(true) && FinalGrammar(log[1..]))
  }

  predicate Grammar(sv: Server, log: seq<seq<Byte>>) {
    || log == [MethodReply(NO_ACC_METHODS)]
    || (log != [] && log[0] == MethodReply(sv.Method())
        && if sv.auth then LoginGrammar(log[1..]) else FinalGrammar(log[1..]))
  }

  predicate IsSuccess(reply: seq<Byte>) { |reply| >= 10 && reply[0] == SOCKS5_VER && reply[1] == SUCCEEDED }

  /** One attempted reply says "succeeded" exactly when init returns true, and it is the last one; init returns true
      only when the connection asked for was made. */
  predicate Honest(o: Outcome, peer: Peer) {
    && (o.bound.Some? <==> o.log != [] && IsSuccess(o.log[|o.log| - 1]))
    && (forall i :: 0 <= i < |o.log| - 1 ==> !IsSuccess(o.log[i]))
    && (o.bound.Some? ==>
          && o.query.Some?
          && Dialled(peer.resolve(o.query.value.0, o.query.value.1)) == Connected(o.bound.value))
  }

  lemma StopLogs(sv: Server, peer: Peer)
    requires Negotiate(sv, peer).Stop?
    ensures var log, m := Negotiate(sv, peer).log, MethodReply(sv.Method());
      || log == [MethodReply(NO_ACC_METHODS)] || log == [m]
      || (sv.auth && (log == [m, LoginReply(false)] || log == [m, LoginReply(true)]))
  {
  }

  lemma StopReplies(sv: Server, peer: Peer)
    requires Negotiate(sv, peer).Stop?
    ensures var log := Negotiate(sv, peer).log; Grammar(sv, log) && Honest(Refuse(log), peer)
  {
    var log := Negotiate(sv, peer).log;
    StopLogs(sv, peer);
    if |log| == 2 {
      var tail: seq<seq<Byte>> := log[1..];
      assert tail == [log[1]] && |tail[1..]| == 0;
    }
  }

  /** At most one reply is added, a final one; it says "succeeded" exactly when a port is bound. */
  lemma AfterLoginAdds(log: seq<seq<Byte>>, p: Parse, peer: Peer)
    requires p.Complete? ==> p.req.command.target.Valid()
    ensures var o := AfterLogin(log, p, peer.resolve);
      && (o.log == log || (|o.log| == |log| + 1 && o.log == log + [o.log[|log|]] && FinalReply(o.log[|log|])))
      && (o.bound.Some? <==> |o.log| == |log| + 1 && IsSuccess(o.log[|log|]))
      && (o.bound.Some? ==>
            && o.query.Some?
            && Dialled(peer.resolve(o.query.value.0, o.query.value.1)) == Connected(o.bound.value))
  {
  }

  lemma GrammarSnoc(sv: Server, reply: seq<Byte>)
    requires FinalReply(reply)
    ensures Grammar(sv, Preamble(sv) + [reply])
  {
  }

  lemma AfterLoginReplies(sv: Server, p: Parse, peer: Peer)
    requires p.Complete? ==> p.req.command.target.Valid()
    ensures var o := AfterLogin(Preamble(sv), p, peer.resolve); Grammar(sv, o.log) && Honest(o, peer)
  {
    var pre := Preamble(sv);
    var o := AfterLogin(pre, p, peer.resolve);
    AfterLoginAdds(pre, p, peer);
    if o.log != pre {
      GrammarSnoc(sv, o.log[|pre|]);
    }
  }

  /** Every run, failed writes included. */
  lemma Replies(sv: Server, peer: Peer)
    ensures Grammar(sv, Init(sv, peer).log) && Honest(Init(sv, peer), peer)
  {
    InitAfterNegotiation(sv, peer);
    match Negotiate(sv, peer)
    case Stop(log) => StopReplies(sv, peer);
    case Go(methods, login, rest) => AfterLoginReplies(sv, ReadCommand(methods, login, rest), peer);
  }

  lemma AfterLoginConnects(log: seq<seq<Byte>>, p: Parse, resolve: (string, string) -> Resolution)
    requires p.Complete? ==> p.req.command.target.Valid()
    ensures var o := AfterLogin(log, p, resolve);
      && log <= o.log
      && (o.query.Some? ==>
            && p.Complete? && p.req.command.cmd == CONNECT
            && o.query.value == (p.req.command.target.Host(), Numeral(p.req.command.port, Decimal)))
  {
  }

  /** A name is resolved only for a complete acceptable CONNECT request read off the stream, and it is that request's;
      with authentication on, the client has by then logged in with known credentials and been told so. */
  lemma NoConnectBeforeLogin(sv: Server, peer: Peer)
    requires Init(sv, peer).query.Some?
    ensures var p := Read(sv, peer.input);
      && p.Complete? && Acceptable(sv, p.req) && p.req.command.cmd == CONNECT
      && peer.input == Encode(sv, p.req) + p.rest
      && Init(sv, peer).query.value == (p.req.command.target.Host(), Numeral(p.req.command.port, Decimal))
      && Preamble(sv) <= Init(sv, peer).log
  {
    InitAfterNegotiation(sv, peer);
    var p := Read(sv, peer.input);
    AfterLoginConnects(Preamble(sv), p, peer.resolve);
    Sound(sv, peer.input, p.req, p.rest);
  }

  lemma InitOfComplete(sv: Server, peer: Peer)
    requires Read(sv, peer.input).Complete?
    ensures Init(sv, peer)
      == if peer.writeOk(0) then AfterMethod(sv, Read(sv, peer.input), peer) else Refuse([MethodReply(sv.Method())])
  {
  }

  lemma MethodOfComplete(sv: Server, p: Parse, peer: Peer)
    requires p.Complete? && p.req.command.target.Valid()
    ensures var o := AfterMethod(sv, p, peer);
      if sv.auth ==> peer.writeOk(1) then o == AfterLogin(Preamble(sv), p, peer.resolve)
      else o == Refuse(Preamble(sv))
  {
    if sv.auth {
      assert [MethodReply(sv.Method())] + [LoginReply(true)] == Preamble(sv);
    }
  }

  lemma OutcomeOfCommand(log: seq<seq<Byte>>, p: Parse, resolve: (string, string) -> Resolution)
    requires p.Complete? && p.req.command.target.Valid()
    ensures var o, c := AfterLogin(log, p, resolve), p.req.command;
      && (o.query.Some? <==> c.cmd == CONNECT)
      && (o.bound.Some? <==>
            c.cmd == CONNECT && Dialled(resolve(c.target.Host(), Numeral(c.port, Decimal))).Connected?)
  {
  }

  /** For a complete request, init goes on to connect exactly when the replies before the last are written and the
      command is CONNECT; and it returns true exactly when, moreover, the destination accepts. */
  lemma CompleteOutcome(sv: Server, peer: Peer)
    requires Read(sv, peer.input).Complete?
    ensures var o, c := Init(sv, peer), Read(sv, peer.input).req.command;
      && (o.query.Some? <==> peer.writeOk(0) && (sv.auth ==> peer.writeOk(1)) && c.cmd == CONNECT)
      && (o.bound.Some? <==>
            o.query.Some? && Dialled(peer.resolve(c.target.Host(), Numeral(c.port, Decimal))).Connected?)
  {
    var p := Read(sv, peer.input);
    InitOfComplete(sv, peer);
    MethodOfComplete(sv, p, peer);
    OutcomeOfCommand(Preamble(sv), p, peer.resolve);
  }

  predicate IsConnect(sv: Server, input: seq<Byte>, req: Request, rest: seq<Byte>) {
    Acceptable(sv, req) && req.command.cmd == CONNECT && input == Encode(sv, req) + rest
  }

  /** Init goes on to connect exactly when the stream is an acceptable CONNECT request and a rest, and the replies that
      come before are written. */
  lemma ConnectsIff(sv: Server, peer: Peer)
    ensures Init(sv, peer).query.Some?
      <==> (peer.writeOk(0) && (sv.auth ==> peer.writeOk(1))
            && exists req, rest :: IsConnect(sv, peer.input, req, rest))
  {
    if Init(sv, peer).query.Some? {
      NoConnectBeforeLogin(sv, peer);
      CompleteOutcome(sv, peer);
      assert IsConnect(sv, peer.input, Read(sv, peer.input).req, Read(sv, peer.input).rest);
    }
    if req, rest :| IsConnect(sv, peer.input, req, rest) {
      CompleteFor(sv, peer.input, req, rest);
      CompleteOutcome(sv, peer);
    }
  }

  // ---- The success reply under RFC 1928 section 6 ----

  datatype Reply = Reply(rep: Byte, atyp: Byte, address: seq<Byte>, port: Port)

  /** Decodes VER REP RSV ATYP BND.ADDR BND.PORT. */
  function DecodeReply(bytes: seq<Byte>): Option<Reply> {
    if |bytes| < 4 || bytes[0] != SOCKS5_VER || bytes[2] != 0 || !KnownAtyp(bytes[3]) then None
    else
      match ReadTarget(bytes[3], bytes[4..])
      case Short => None
      case Got(t, in2) =>
        match ReadPort(in2)
        case Short => None
        case Got(port, rest) => if rest == [] then Some(Reply(bytes[1], bytes[3], t.bytes, port)) else None
  }

  /** The success reply decodes, whatever the address type: a zero address of the request's width (four bytes for a
      domain name), and the bound port reduced mod 256, which is the bound port exactly when that is below 256. */
  lemma SuccessReplyDecodes(t: Target, bindPort: Port)
    requires t.Valid()
    ensures DecodeReply(SuccessReply(t, bindPort))
      == Some(if t.IPv6? then Reply(SUCCEEDED, ATYP_IPV6, Zeros(16), bindPort % 256)
              else Reply(SUCCEEDED, ATYP_IPV4, Zeros(4), bindPort % 256))
    ensures DecodeReply(SuccessReply(t, bindPort)).value.port == bindPort <==> bindPort < 256
  {
    var reply := SuccessReply(t, bindPort);
    var address := if t.IPv6? then IPv6(Zeros(16)) else IPv4(Zeros(4));
    var port := EncodePort(bindPort % 256);
    assert (bindPort % 256) / 256 == 0;
    assert reply[4..] == EncodeTarget(address) + port;
    TargetIff(reply[3], reply[4..], address, port);
    assert port + [] == port;
    PortIff(port, bindPort % 256, []);
  }
}
