/** The two handshakes byte by byte: which byte of the wire means what, in numbers. The layouts are those of sections 3
    to 6 of RFC 1928, of section 2 of RFC 1929 and of SOCKS4; the specifications are measured against them here. */
module Wire {
  import opened Text
  import opened IpText
  import opened Net
  import S5 = Socks5Spec
  import S4 = Socks4Spec

  /** A text that is, character by character, these bytes. */
  predicate Spells(s: string, bytes: seq<Byte>) {
    |s| == |bytes| && forall i :: 0 <= i < |bytes| ==> s[i] as int == bytes[i]
  }

  lemma SpellsIff(s: string, bytes: seq<Byte>)
    ensures Spells(s, bytes) <==> s == ToText(bytes)
  {
    if Spells(s, bytes) {
      forall i | 0 <= i < |s| ensures s[i] == ToText(bytes)[i] {
        assert s[i] as int == ToText(bytes)[i] as int;
      }
    }
  }

  function BigEndian(hi: Byte, lo: Byte): int { (hi as int) * 256 + lo }

  // ---- The method ----

  /** The first byte counts the methods behind it, and `m` is one of them. */
  predicate Offers(input: seq<Byte>, m: Byte) {
    input != [] && |input| > input[0] && exists i :: 1 <= i <= input[0] && input[i] == m
  }

  /** Method 2, username and password, with authentication on; method 0 with authentication off. */
  function MethodNumber(auth: bool): Byte { if auth then 2 else 0 }

  lemma OffersIff(input: seq<Byte>, m: Byte)
    ensures Offers(input, m) <==> TakeCounted(input).Got? && m in TakeCounted(input).value
  {
    if TakeCounted(input).Got? {
      var methods := TakeCounted(input).value;
      assert forall i :: 0 <= i < |methods| ==> methods[i] == input[i + 1];
      if m in methods {
        var i :| 0 <= i < |methods| && methods[i] == m;
        assert input[i + 1] == m;
      }
      if Offers(input, m) {
        var i :| 1 <= i <= input[0] && input[i] == m;
        assert methods[i - 1] == m;
      }
    }
  }

  lemma NegotiateAnswers(sv: S5.Server, peer: Peer)
    ensures var log := S5.Init(sv, peer).log;
      && log != []
      && (if TakeCounted(peer.input).Got? && sv.Method() in TakeCounted(peer.input).value
          then log[0] == S5.MethodReply(sv.Method()) else log[0] == S5.MethodReply(S5.NO_ACC_METHODS))
  {
    S5.InitAfterNegotiation(sv, peer);
    match S5.Negotiate(sv, peer)
    case Stop(log) =>
    case Go(methods, login, rest) =>
      S5.AfterLoginConnects(S5.Preamble(sv), S5.ReadCommand(methods, login, rest), peer.resolve);
  }

  /** The first reply in every run: the server's method if it was offered, 255 if it was not. */
  lemma MethodAnswer(sv: S5.Server, peer: Peer)
    ensures var log, m := S5.Init(sv, peer).log, MethodNumber(sv.auth);
      log != [] && log[0] == [5, if Offers(peer.input, m) then m else 255]
  {
    OffersIff(peer.input, MethodNumber(sv.auth));
    S5.Replies(sv, peer);
    S5.InitAfterNegotiation(sv, peer);
    NegotiateAnswers(sv, peer);
  }

  // ---- The login ----

  /** Version 1, the length of the name, the name, which is not empty, the length of the password, the password. */
  predicate LoginOnWire(input: seq<Byte>, c: S5.Credentials, rest: seq<Byte>) {
    && |input| >= 2 && input[0] == 1 && input[1] > 0
    && |input| - 3 >= input[1]
    && var m: nat := (input[1] as int) + 2;
       |input| > m + input[m]
       && c.user == input[2..m] && c.password == input[m + 1..m + 1 + input[m]] && rest == input[m + 1 + input[m]..]
  }

  lemma LoginOnWireIff(input: seq<Byte>, c: S5.Credentials, rest: seq<Byte>)
    ensures S5.ReadLogin(input) == Got(c, rest) <==> LoginOnWire(input, c, rest)
  {
    if |input| >= 2 && |input| - 3 >= input[1] {
      var m: nat := (input[1] as int) + 2;
      assert input[1..][1..][..input[1]] == input[2..m];
      assert input[1..][1..][input[1]..] == input[m..];
      if |input| > m + input[m] {
        assert input[m..][1..][..input[m]] == input[m + 1..m + 1 + input[m]];
        assert input[m..][1..][input[m]..] == input[m + 1 + input[m]..];
      }
    }
  }

  /** A stored user whose name is the one on the wire, with the password on the wire. */
  ghost predicate Stored(users: map<string, string>, c: S5.Credentials) {
    exists u :: u in users && Spells(u, c.user) && Spells(users[u], c.password)
  }

  lemma KnownIff(sv: S5.Server, c: S5.Credentials)
    ensures sv.Known(c) <==> Stored(sv.users, c)
  {
    if sv.Known(c) {
      SpellsIff(ToText(c.user), c.user);
      SpellsIff(sv.users[ToText(c.user)], c.password);
    }
    if u :| u in sv.users && Spells(u, c.user) && Spells(sv.users[u], c.password) {
      SpellsIff(u, c.user);
      SpellsIff(sv.users[u], c.password);
    }
  }

  lemma LoginReplied(sv: S5.Server, peer: Peer, c: S5.Credentials, rest: seq<Byte>)
    requires sv.auth && TakeCounted(peer.input).Got? && sv.Method() in TakeCounted(peer.input).value && peer.writeOk(0)
    requires S5.ReadLogin(TakeCounted(peer.input).rest) == Got(c, rest)
    ensures var log := S5.Init(sv, peer).log; |log| >= 2 && log[1] == [1, if sv.Known(c) then 0 else 1]
  {
    S5.InitAfterNegotiation(sv, peer);
    match S5.Negotiate(sv, peer)
    case Stop(log) =>
    case Go(methods, login, more) =>
      S5.AfterLoginConnects(S5.Preamble(sv), S5.ReadCommand(methods, login, more), peer.resolve);
  }

  lemma NoLoginReplied(sv: S5.Server, peer: Peer)
    requires sv.auth && TakeCounted(peer.input).Got? && sv.Method() in TakeCounted(peer.input).value && peer.writeOk(0)
    requires S5.ReadLogin(TakeCounted(peer.input).rest).Short?
    ensures |S5.Init(sv, peer).log| == 1
  {
    S5.InitAfterNegotiation(sv, peer);
  }

  /** The status behind the version: 0 for success, 1 for denial. */
  ghost predicate TellsLogin(reply: seq<Byte>, users: map<string, string>, c: S5.Credentials) {
    |reply| == 2 && reply[0] == 1 && reply[1] == if Stored(users, c) then 0 else 1
  }

  /** With authentication on and its method announced, a login is answered by two bytes: 1 and a status that is 0 when
      the credentials are stored and 1 when they are not. Without a login there is no second reply. */
  lemma LoginAnswer(sv: S5.Server, peer: Peer)
    requires sv.auth && Offers(peer.input, 2) && peer.writeOk(0)
    ensures var log, behind := S5.Init(sv, peer).log, peer.input[peer.input[0] + 1..];
      && (forall c, rest :: LoginOnWire(behind, c, rest) ==> |log| >= 2 && TellsLogin(log[1], sv.users, c))
      && ((forall c, rest :: !LoginOnWire(behind, c, rest)) ==> |log| == 1)
  {
    OffersIff(peer.input, 2);
    var behind := TakeCounted(peer.input).rest;
    assert peer.input[peer.input[0] + 1..] == behind;
    forall c, rest | LoginOnWire(behind, c, rest)
      ensures |S5.Init(sv, peer).log| >= 2 && TellsLogin(S5.Init(sv, peer).log[1], sv.users, c)
    {
      LoginOnWireIff(behind, c, rest);
      KnownIff(sv, c);
      LoginReplied(sv, peer, c, rest);
    }
    var got := S5.ReadLogin(behind);
    if got.Got? { LoginOnWireIff(behind, got.value, got.rest); } else { NoLoginReplied(sv, peer); }
  }

  // ---- The command ----

  /** The address behind its type: four bytes behind 1, sixteen behind 4, a length, not zero, and a name behind 3. */
  predicate TargetOnWire(input: seq<Byte>, t: S5.Target) {
    && |input| >= 5
    && match t
       case IPv4(b) => input[3] == 1 && |input| >= 8 && b == input[4..8]
       case Domain(b) =>
         input[3] == 3 && input[4] > 0 && |b| == input[4] && |input| >= 5 + |b| && b == input[5..5 + |b|]
       case IPv6(b) => input[3] == 4 && |input| >= 20 && b == input[4..20]
  }

  /** Where the address ends. */
  function End(t: S5.Target): nat {
    match t case IPv4(_) => 8 case Domain(b) => 5 + |b| case IPv6(_) => 20
  }

  /** Version 5, the command, a reserved byte, the type of the address (1, 3 or 4), the address, the port. */
  predicate CommandOnWire(input: seq<Byte>, c: S5.Command, rest: seq<Byte>) {
    var end := End(c.target);
    && TargetOnWire(input, c.target) && |input| >= end + 2
    && input[0] == 5 && input[1] == c.cmd && input[2] == c.rsv
    && c.port == BigEndian(input[end], input[end + 1]) && rest == input[end + 2..]
  }

  lemma FixedOnWire(input: seq<Byte>, n: nat)
    requires |input| >= 4 && n > 0
    ensures Take(input[4..], n) == if |input| < n + 4 then Short else Got(input[4..n + 4], input[n + 4..])
  {
    if |input| >= n + 4 {
      assert input[4..][..n] == input[4..n + 4] && input[4..][n..] == input[n + 4..];
    }
  }

  lemma DomainOnWire(input: seq<Byte>)
    requires |input| >= 5
    ensures TakeCounted(input[4..])
      == if |input| - 5 < input[4] then Short else Got(input[5..input[4] + 5], input[input[4] + 5..])
  {
    assert input[4..][1..] == input[5..];
    if |input| - 5 >= input[4] {
      assert input[5..][..input[4]] == input[5..input[4] + 5] && input[5..][input[4]..] == input[input[4] + 5..];
    }
  }

  lemma TargetOnWireIff(input: seq<Byte>, t: S5.Target, rest: seq<Byte>)
    requires |input| >= 4 && S5.KnownAtyp(input[3])
    ensures S5.ReadTarget(input[3], input[4..]) == Got(t, rest)
      <==> TargetOnWire(input, t) && rest == input[End(t)..]
  {
    if input[3] == 1 { FixedOnWire(input, 4); }
    else if input[3] == 4 { FixedOnWire(input, 16); }
    else if |input| >= 5 { DomainOnWire(input); }
  }

  lemma CommandOnWireIff(
    methods: seq<Byte>, login: Option<S5.Credentials>, input: seq<Byte>, c: S5.Command, rest: seq<Byte>)
    ensures S5.ReadCommand(methods, login, input) == S5.Complete(S5.Request(methods, login, c), rest)
      <==> CommandOnWire(input, c, rest)
  {
    if |input| >= 4 && input[0] == 5 && S5.KnownAtyp(input[3]) {
      var got := S5.ReadTarget(input[3], input[4..]);
      if got.Got? { TargetOnWireIff(input, got.value, got.rest); }
      if TargetOnWire(input, c.target) { TargetOnWireIff(input, c.target, input[End(c.target)..]); }
    }
  }

  // ---- From the first byte to the command ----

  /** What stands in front of the command: the methods and, with authentication on, a stored login; both answered. */
  ghost predicate GreetedOnWire(sv: S5.Server, peer: Peer, rest: seq<Byte>) {
    && Offers(peer.input, MethodNumber(sv.auth)) && peer.writeOk(0)
    && var behind := peer.input[peer.input[0] + 1..];
       if sv.auth then exists c :: LoginOnWire(behind, c, rest) && Stored(sv.users, c) && peer.writeOk(1)
       else rest == behind
  }

  lemma GreetedOpenly(sv: S5.Server, peer: Peer, rest: seq<Byte>)
    requires !sv.auth
    ensures GreetedOnWire(sv, peer, rest) <==> S5.Negotiate(sv, peer).Go? && S5.Negotiate(sv, peer).rest == rest
  {
    OffersIff(peer.input, 0);
    if peer.input != [] && |peer.input| > peer.input[0] {
      assert peer.input[1..][peer.input[0]..] == peer.input[peer.input[0] + 1..];
    }
  }

  lemma LoginGoesOn(sv: S5.Server, methods: seq<Byte>, behind: seq<Byte>, writeOk: nat -> bool, rest: seq<Byte>)
    requires sv.auth
    ensures var go := S5.NegotiateLogin(sv, methods, behind, writeOk);
      go.Go? && go.rest == rest
      <==> exists c :: LoginOnWire(behind, c, rest) && Stored(sv.users, c) && writeOk(1)
  {
    var got := S5.ReadLogin(behind);
    if got.Got? {
      LoginOnWireIff(behind, got.value, got.rest);
      KnownIff(sv, got.value);
    }
    if c :| LoginOnWire(behind, c, rest) && Stored(sv.users, c) && writeOk(1) {
      LoginOnWireIff(behind, c, rest);
      KnownIff(sv, c);
    }
  }

  lemma GreetedWithLogin(sv: S5.Server, peer: Peer, rest: seq<Byte>)
    requires sv.auth
    ensures GreetedOnWire(sv, peer, rest) <==> S5.Negotiate(sv, peer).Go? && S5.Negotiate(sv, peer).rest == rest
  {
    OffersIff(peer.input, 2);
    if peer.input != [] && |peer.input| > peer.input[0] {
      var methods, behind := TakeCounted(peer.input).value, TakeCounted(peer.input).rest;
      assert behind == peer.input[peer.input[0] + 1..];
      LoginGoesOn(sv, methods, behind, peer.writeOk, rest);
    }
  }

  lemma GreetedOnWireIff(sv: S5.Server, peer: Peer, rest: seq<Byte>)
    ensures GreetedOnWire(sv, peer, rest) <==> S5.Negotiate(sv, peer).Go? && S5.Negotiate(sv, peer).rest == rest
  {
    if sv.auth { GreetedWithLogin(sv, peer, rest); } else { GreetedOpenly(sv, peer, rest); }
  }

  // ---- The final reply ----

  /** The reply to an unsuccessful request: ten bytes with a zero IPv4 address and port. */
  function Failure(code: Byte): seq<Byte> { [5, code, 0, 1, 0, 0, 0, 0, 0, 0] }

  function Success(t: S5.Target, bindPort: Port): seq<Byte> {
    if t.IPv6? then [5, 0, 0, 4, 0, 0, 0, 0, 0, 0, 0, 0, 0, 0, 0, 0, 0, 0, 0, 0, 0, bindPort % 256]
    else [5, 0, 0, 1, 0, 0, 0, 0, 0, bindPort % 256]
  }

  /** The reply field of section 6 of RFC 1928 for each error, as src/socks5.cpp chooses it. */
  function FailureCode(ec: ErrorCode): Byte {
    match ec
    case HostNotFound => 4
    case HostUnreachable => 4
    case ConnectionAborted => 2
    case ConnectionRefused => 5
    case TimedOut => 6
    case NetworkUnreachable => 3
    case OtherError(_) => 1
  }

  /** The replies so far: the method and, with authentication on, the login's success. */
  function Opening(auth: bool): seq<seq<Byte>> { if auth then [[5, 2], [1, 0]] else [[5, 0]] }

  /** The host name of an address: dotted decimal, the name as it is spelled on the wire, or eight hexadecimal pairs. */
  predicate Names(host: string, t: S5.Target)
    requires t.Valid()
  {
    match t
    case IPv4(b) =>
      host == Numeral(b[0], Decimal) + "." + Numeral(b[1], Decimal) + "."
        + Numeral(b[2], Decimal) + "." + Numeral(b[3], Decimal)
    case Domain(b) => Spells(host, b)
    case IPv6(b) => EightGroups(host, b)
  }

  lemma HostNames(t: S5.Target)
    requires t.Valid()
    ensures Names(t.Host(), t)
  {
    match t
    case IPv4(b) => IPv4Notation(b[0], b[1], b[2], b[3]); assert b == [b[0], b[1], b[2], b[3]];
    case Domain(b) => SpellsIff(t.Host(), b);
    case IPv6(b) => IPv6Notation(b);
  }

  lemma FinalReplies(t: S5.Target, bindPort: Port, code: Byte, ec: ErrorCode)
    ensures S5.ErrorReply(code) == Failure(code)
    ensures S5.SuccessReply(t, bindPort) == Success(t, bindPort)
    ensures S5.ReplyCode(ec) == FailureCode(ec)
  {
    assert S5.Zeros(4) == [0, 0, 0, 0];
    assert S5.Zeros(16) == [0, 0, 0, 0, 0, 0, 0, 0, 0, 0, 0, 0, 0, 0, 0, 0];
  }

  ghost predicate BreaksOff(input: seq<Byte>) {
    && input != [] && input[0] == 5
    && (|input| >= 4 ==> input[3] == 1 || input[3] == 3 || input[3] == 4)
    && forall c, more :: !CommandOnWire(input, c, more)
  }

  /** A command that is refused before it is read to its end: 1 for another version, 8 for another type of address. A
      command that breaks off is not answered. */
  lemma BrokenCommandAnswer(sv: S5.Server, peer: Peer, rest: seq<Byte>)
    requires GreetedOnWire(sv, peer, rest)
    ensures var o, log := S5.Init(sv, peer), Opening(sv.auth);
      && (rest == [] || rest[0] != 5 ==> o.log == log + [Failure(1)] && o.query.None?)
      && (|rest| >= 4 && rest[0] == 5 && rest[3] != 1 && rest[3] != 3 && rest[3] != 4 ==>
            o.log == log + [Failure(8)] && o.query.None?)
      && (BreaksOff(rest) ==> o.log == log && o.query.None?)
  {
    GreetedOnWireIff(sv, peer, rest);
    S5.InitAfterNegotiation(sv, peer);
    var go := S5.Negotiate(sv, peer);
    var p := S5.ReadCommand(go.methods, go.login, rest);
    if p.Complete? {
      S5.CommandSound(go.methods, go.login, rest, p.req.command, p.rest);
      S5.CommandComplete(go.methods, go.login, rest, p.req.command, p.rest);
      CommandOnWireIff(go.methods, go.login, rest, p.req.command, p.rest);
    }
  }

  lemma CommandAnswered(log: seq<seq<Byte>>, p: S5.Parse, resolve: (string, string) -> Resolution)
    requires p.Complete? && p.req.command.target.Valid()
    ensures var o, c := S5.AfterLogin(log, p, resolve), p.req.command;
      if c.cmd != 1 then o.log == log + [Failure(7)] && o.query.None?
      else
        && o.query == Some((c.target.Host(), Numeral(c.port, Decimal)))
        && o.log == log + [match Dialled(resolve(c.target.Host(), Numeral(c.port, Decimal)))
                           case Connected(p) => Success(c.target, p)
                           case DialFailed(ec) => Failure(FailureCode(ec))]
  {
    var host, service := p.req.command.target.Host(), Numeral(p.req.command.port, Decimal);
    match Dialled(resolve(host, service))
    case Connected(port) => FinalReplies(p.req.command.target, port, 7, HostNotFound);
    case DialFailed(ec) => FinalReplies(p.req.command.target, 0, 7, ec);
  }

  /** A complete command: 7 unless it is command 1; else the name and the port on the wire are resolved, and the reply
      is that of success or carries the code of the error that connecting ended with. */
  lemma CommandAnswer(sv: S5.Server, peer: Peer, rest: seq<Byte>, c: S5.Command, more: seq<Byte>)
    requires GreetedOnWire(sv, peer, rest) && CommandOnWire(rest, c, more)
    ensures var o, log := S5.Init(sv, peer), Opening(sv.auth);
      if c.cmd != 1 then o.log == log + [Failure(7)] && o.query.None?
      else
        && o.query.Some? && c.target.Valid()
        && Names(o.query.value.0, c.target) && o.query.value.1 == Numeral(c.port, Decimal)
        && o.log == log + [match Dialled(peer.resolve(o.query.value.0, o.query.value.1))
                           case Connected(p) => Success(c.target, p)
                           case DialFailed(ec) => Failure(FailureCode(ec))]
  {
    GreetedOnWireIff(sv, peer, rest);
    S5.InitAfterNegotiation(sv, peer);
    var go := S5.Negotiate(sv, peer);
    CommandOnWireIff(go.methods, go.login, rest, c, more);
    HostNames(c.target);
    CommandAnswered(S5.Preamble(sv), S5.Complete(S5.Request(go.methods, go.login, c), more), peer.resolve);
  }

  /** A method or login reply that cannot be written is the last one; nothing is resolved behind it. */
  lemma FailedWriteStops(sv: S5.Server, peer: Peer)
    ensures var o := S5.Init(sv, peer);
      && (!peer.writeOk(0) ==> |o.log| == 1 && o.query.None? && o.bound.None?)
      && (sv.auth && !peer.writeOk(1) ==> |o.log| <= 2 && o.query.None? && o.bound.None?)
  {
    S5.InitAfterNegotiation(sv, peer);
  }

  // ---- SOCKS4 ----

  /** Command 1, the port, the address, the user id and a zero byte. */
  predicate Request4OnWire(input: seq<Byte>, r: S4.Request, rest: seq<Byte>) {
    var end := 7 + |r.user|;
    && |input| > end && input[0] == 1
    && r.port == BigEndian(input[1], input[2]) && r.address == input[3..7]
    && r.user == input[7..end] && 0 !in r.user && input[end] == 0 && rest == input[end + 1..]
  }

  /** One way to say that a text of bytes starts with `user`, a zero byte, and goes on with `rest`. */
  lemma Terminated(tail: seq<Byte>, user: seq<Byte>, rest: seq<Byte>)
    ensures tail == user + [0] + rest
      <==> |tail| > |user| && user == tail[..|user|] && tail[|user|] == 0 && rest == tail[|user| + 1..]
  {
    if |tail| > |user| && user == tail[..|user|] && tail[|user|] == 0 && rest == tail[|user| + 1..] {
      assert tail == tail[..|user|] + [tail[|user|]] + tail[|user| + 1..];
    }
  }

  lemma UserOnWire(input: seq<Byte>, user: seq<Byte>, rest: seq<Byte>)
    requires |input| >= 7
    ensures S4.ReadUser(input[7..]) == Got(user, rest) <==>
      var end := 7 + |user|;
      |input| > end && user == input[7..end] && 0 !in user && input[end] == 0 && rest == input[end + 1..]
  {
    var tail := input[7..];
    S4.UserIff(tail, user, rest);
    Terminated(tail, user, rest);
    if |tail| > |user| {
      assert tail[..|user|] == input[7..7 + |user|] && tail[|user| + 1..] == input[7 + |user| + 1..];
    }
  }

  lemma Request4OnWireIff(input: seq<Byte>, r: S4.Request, rest: seq<Byte>)
    ensures S4.Read(input) == Got(r, rest) <==> Request4OnWire(input, r, rest)
  {
    if |input| >= 7 { UserOnWire(input, r.user, rest); }
  }

  /** The request is answered by eight bytes, the second one 90 when the destination accepts and 91 when it does not;
      what is not a request is not answered. */
  lemma Answer4(peer: Peer)
    ensures var o := S4.Init(peer);
      && (forall r, rest :: Request4OnWire(peer.input, r, rest) ==>
            && |r.address| == 4 && o.query.Some?
            && Names(o.query.value.0, S5.IPv4(r.address)) && o.query.value.1 == Numeral(r.port, Decimal)
            && var granted := Dialled(peer.resolve(o.query.value.0, o.query.value.1)).Connected?;
               o.log == [[0, if granted then 90 else 91, 0, 0, 0, 0, 0, 0]])
      && ((forall r, rest :: !Request4OnWire(peer.input, r, rest)) ==> o.log == [] && o.query.None?)
  {
    match S4.Read(peer.input)
    case Short =>
    case Got(r, rest) =>
      Request4OnWireIff(peer.input, r, rest);
      HostNames(S5.IPv4(r.address));
    forall r, rest | Request4OnWire(peer.input, r, rest) ensures S4.Read(peer.input) == Got(r, rest) {
      Request4OnWireIff(peer.input, r, rest);
    }
  }
}
