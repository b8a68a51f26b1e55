/** src/socks5.cpp: the handshake as it reads, replies and connects. */
module Socks5 {
  import opened Text
  import opened IpText
  import opened Net
  import opened Socks
  import opened StatDb
  import opened ConfigReader
  import S = Socks5Spec
  import W = Wire

  lemma LoginsOnWire(input: seq<Byte>)
    ensures forall c, rest :: W.LoginOnWire(input, c, rest) ==> S.ReadLogin(input) == Got(c, rest)
  {
    forall c, rest | W.LoginOnWire(input, c, rest) ensures S.ReadLogin(input) == Got(c, rest) {
      W.LoginOnWireIff(input, c, rest);
    }
  }

  lemma FourRead(input: seq<Byte>)
    requires |input| >= 4
    ensures input[1..][1..][1..][1..] == input[4..]
    ensures input[1..][0] == input[1] && input[1..][1..][0] == input[2] && input[1..][1..][1..][0] == input[3]
  {
  }

  class Socks5 {
    const base: Socks
    const config: ConfigReader
    const authFlag: bool

    var atyp: Byte
    var cmd: Byte

    constructor (base: Socks, config: ConfigReader, authFlag: bool)
      requires base.socksVer == S.SOCKS5_VER
      ensures this.base == base && this.config == config && this.authFlag == authFlag
    {
      this.base, this.config, this.authFlag := base, config, authFlag;
      atyp, cmd := 0, 0;
    }

    ghost predicate Valid() {
      base.socksVer == S.SOCKS5_VER
    }

    ghost function Server(): S.Server
      reads config
    {
      S.Server(authFlag, config.users)
    }

    function GetServerMethod(): Byte {
      if authFlag then S.USERNAME_PASSWORD else S.NO_AUTH_REQ
    }

    ghost predicate Finished(p: S.Parse, bound: Option<Port>)
      reads this, base, base.session
    {
      && p.Complete? && p.req.command.target.Valid() && bound.Some?
      && base.session.input == p.rest
      && cmd == p.req.command.cmd && atyp == p.req.command.target.Atyp()
      && base.dstAddress == p.req.command.target.Host() && base.dstPort == p.req.command.port
      && W.Names(base.dstAddress, p.req.command.target)
      && base.bindPort == bound.value
      && (p.req.login.Some? ==> W.Spells(base.username, p.req.login.value.user))
    }

    /** auth: the login on the wire is answered with 0 when it is stored and with 1 when it is not. */
    method Auth() returns (ok: bool)
      modifies base`username, base.session`input, base.session`log
      ensures match S.ReadLogin(old(base.session.input))
        case Short => !ok && base.session.log == old(base.session.log)
        case Got(c, rest) =>
          && base.session.input == rest
          && base.username == ToText(c.user)
          && base.session.log == old(base.session.log) + [S.LoginReply(Server().Known(c))]
          && ok == (Server().Known(c) && base.session.writeOk(|old(base.session.log)|))
      ensures forall c, rest :: W.LoginOnWire(old(base.session.input), c, rest) ==>
        && W.Spells(base.username, c.user) && base.session.input == rest
        && base.session.log == old(base.session.log) + [[1, if W.Stored(config.users, c) then 0 else 1]]
    {
      LoginsOnWire(base.session.input);
      var session := base.session;
      ghost var input := session.input;
      var ver, failed := session.ReadByte();
      if failed || ver != S.AUTH_VER { return false; }
      ghost var in1 := session.input;
      var ulen, failed1 := session.ReadByte();
      if failed1 || ulen == 0 { return false; }
      var uname, failed2 := session.ReadBytes(ulen);
      if failed2 { return false; }
      assert TakeCounted(in1) == Got(uname, session.input);
      ghost var in2 := session.input;
      var plen, failed3 := session.ReadByte();
      if failed3 { return false; }
      var passwd, failed4 := session.ReadBytes(plen);
      if failed4 { return false; }
      assert TakeCounted(in2) == Got(passwd, session.input);
      base.username := ToText(uname);
      var success := config.HasUser(base.username, ToText(passwd));
      var response: seq<Byte> := [];
      response := response + [S.AUTH_VER];
      response := response + [if success then 0 else 1];
      assert response == S.LoginReply(success);
      W.KnownIff(Server(), S.ReadLogin(input).value);
      W.SpellsIff(base.username, uname);
      var failed5 := session.WriteBytes(response);
      if failed5 { return false; }
      ok := success;
    }

    method SendErrorResponse(responseCode: Byte)
      requires Valid()
      modifies base.session`log
      ensures base.session.log == old(base.session.log) + [S.ErrorReply(responseCode)]
      ensures S.ErrorReply(responseCode) == [5, responseCode, 0, 1, 0, 0, 0, 0, 0, 0]
    {
      var response: seq<Byte> := [];
      response := response + [base.socksVer];
      response := response + [responseCode];
      response := response + [0];
      response := response + [S.ATYP_IPV4];
      response := response + seq(10 - |response|, _ => 0);
      assert response == S.ErrorReply(responseCode);
      var _ := base.session.WriteBytes(response);
    }

    method ReadAddress(kind: Byte) returns (text: string)
      requires Valid()
      modifies base.session`input, base.session`log
      ensures !S.KnownAtyp(kind) ==>
        text == "" && base.session.log == old(base.session.log) + [S.ErrorReply(S.ADDR_TYPE_NOT_SUPP)]
      ensures S.KnownAtyp(kind) ==> base.session.log == old(base.session.log)
      ensures S.KnownAtyp(kind) ==>
        (match S.ReadTarget(kind, old(base.session.input))
         case Got(t, rest) => text == t.Host() && W.Names(text, t) && text != "" && base.session.input == rest
         case Short => text == "")
    {
      var session := base.session;
      if S.KnownAtyp(kind) && S.ReadTarget(kind, session.input).Got? {
        W.HostNames(S.ReadTarget(kind, session.input).value);
      }
      if kind == S.ATYP_IPV4 {
        text := base.ReadIPV4();
        return;
      } else if kind == S.ATYP_DOMAIN {
        var addSize, failed := session.ReadByte();
        if failed { return ""; }
        var dstAdd, failed1 := session.ReadBytes(addSize);
        if failed1 { return ""; }
        return ToText(dstAdd);
      } else if kind == S.ATYP_IPV6 {
        var dstAdd, failed := session.ReadBytes(16);
        if failed { return ""; }
        IPv6TextNotEmpty(dstAdd);
        text := FormIpAddressString(dstAdd);
        return;
      }
      SendErrorResponse(S.ADDR_TYPE_NOT_SUPP);
      text := "";
    }

    method CheckMethod() returns (ok: bool)
      modifies base.session`input
      ensures match TakeCounted(old(base.session.input))
        case Got(methods, rest) => base.session.input == rest && ok == (GetServerMethod() in methods)
        case Short => !ok
      ensures ok <==> W.Offers(old(base.session.input), if authFlag then 2 else 0)
    {
      W.OffersIff(base.session.input, GetServerMethod());
      var nMethods, failed := base.session.ReadByte();
      if failed { return false; }
      var methods, failed1 := base.session.ReadBytes(nMethods);
      if failed1 { return false; }
      ok := GetServerMethod() in methods;
    }

    /** sendMethodResponse: true when the write failed. */
    method SendMethodResponse(code: Byte) returns (failed: bool)
      requires Valid()
      modifies base.session`log
      ensures base.session.log == old(base.session.log) + [S.MethodReply(code)]
      ensures failed == !base.session.writeOk(|old(base.session.log)|)
    {
      var response: seq<Byte> := [];
      response := response + [base.socksVer];
      response := response + [code];
      assert response == S.MethodReply(code);
      failed := base.session.WriteBytes(response);
    }

    method ReadMethodRequest() returns (ok: bool)
      requires Valid() && base.session.log == []
      modifies base.session`input, base.session`log
      ensures match TakeCounted(old(base.session.input))
        case Got(methods, rest) =>
          if GetServerMethod() in methods then
            && ok == base.session.writeOk(0) && base.session.input == rest
            && base.session.log == [S.MethodReply(GetServerMethod())]
          else !ok && base.session.log == [S.MethodReply(S.NO_ACC_METHODS)]
        case Short => !ok && base.session.log == [S.MethodReply(S.NO_ACC_METHODS)]
      ensures var m: Byte := if authFlag then 2 else 0;
        base.session.log == [[5, if W.Offers(old(base.session.input), m) then m else 255]]
    {
      var found := CheckMethod();
      if !found {
        var _ := SendMethodResponse(S.NO_ACC_METHODS);
        return false;
      }
      var failed := SendMethodResponse(GetServerMethod());
      ok := !failed;
    }

    /** The part of init in front of the command: the method and, if authentication is on, the login. */
    method Negotiate() returns (ok: bool, ghost methods: seq<Byte>, ghost login: Option<S.Credentials>)
      requires Valid() && base.session.log == []
      modifies base`username, base.session`input, base.session`log
      ensures match S.Negotiate(Server(), Peer(old(base.session.input), base.session.writeOk, base.session.resolve))
        case Stop(log) => !ok && base.session.log == log
        case Go(ms, l, rest) =>
          && ok && methods == ms && login == l && base.session.input == rest && base.session.log == S.Preamble(Server())
          && (l.Some? ==> base.username == ToText(l.value.user))
    {
      ghost var input := base.session.input;
      methods, login := [], None;
      ok := ReadMethodRequest();
      if !ok { return; }
      methods := TakeCounted(input).value;
      if authFlag {
        ghost var in1 := base.session.input;
        ok := Auth();
        if !ok { return; }
        login := Some(S.ReadLogin(in1).value);
      }
    }

    method ReadCommandRequest(ghost methods: seq<Byte>, ghost login: Option<S.Credentials>) returns (ok: bool)
      requires Valid()
      modifies this, base`dstAddress, base`dstPort, base.session`input, base.session`log
      ensures match S.ReadCommand(methods, login, old(base.session.input))
        case Complete(req, rest) =>
          && ok && base.session.log == old(base.session.log) && base.session.input == rest
          && cmd == req.command.cmd && atyp == req.command.target.Atyp()
          && base.dstAddress == req.command.target.Host() && base.dstPort == req.command.port
        case NoVersion => !ok && base.session.log == old(base.session.log) + [S.ErrorReply(S.SERVER_FAILURE)]
        case NoAddressType => !ok && base.session.log == old(base.session.log) + [S.ErrorReply(S.ADDR_TYPE_NOT_SUPP)]
        case _ => !ok && base.session.log == old(base.session.log)
    {
      var session := base.session;
      ghost var input := session.input;
      var sameVersion := base.CheckVersion();
      if !sameVersion {
        SendErrorResponse(S.SERVER_FAILURE);
        return false;
      }
      var failed;
      cmd, failed := session.ReadByte();
      if failed { return false; }
      var rsv, failed1 := session.ReadByte();
      if failed1 { return false; }
      atyp, failed := session.ReadByte();
      if failed { return false; }
      FourRead(input);
      base.dstAddress := ReadAddress(atyp);
      if base.dstAddress == "" { return false; }
      ok := base.ReadPort();
    }

    method SendCommandResponse(bindPort: Port, ghost target: S.Target) returns (ok: bool)
      requires Valid() && target.Valid() && atyp == target.Atyp()
      modifies base.session`log
      ensures base.session.log == old(base.session.log) + [S.SuccessReply(target, bindPort)]
      ensures S.SuccessReply(target, bindPort) == W.Success(target, bindPort)
      ensures ok == base.session.writeOk(|old(base.session.log)|)
    {
      var response: seq<Byte> := [];
      response := response + [base.socksVer];
      response := response + [S.SUCCEEDED];
      response := response + [0];
      if atyp == S.ATYP_IPV4 || atyp == S.ATYP_DOMAIN {
        response := response + [S.ATYP_IPV4];
        response := response + [0];
        response := response + [0];
        response := response + [0];
        response := response + [0];
        assert response == [S.SOCKS5_VER, S.SUCCEEDED, 0] + ([S.ATYP_IPV4] + S.Zeros(4));
      } else if atyp == S.ATYP_IPV6 {
        response := response + [S.ATYP_IPV6];
        var i := 0;
        while i < 16
          invariant 0 <= i <= 16
          invariant response == [S.SOCKS5_VER, S.SUCCEEDED, 0] + ([S.ATYP_IPV6] + S.Zeros(i))
        {
          response := response + [0];
          i := i + 1;
        }
      }
      response := response + [(bindPort % 256) / 256];
      response := response + [bindPort % 256];
      W.FinalReplies(target, bindPort, 0, HostNotFound);
      assert response == S.SuccessReply(target, bindPort);
      var failed := base.session.WriteBytes(response);
      ok := !failed;
    }

    /** connect: the reply tells the mapped error code; a failing write of the success reply is ignored. */
    method Connect(ghost c: S.Command) returns (ok: bool)
      requires Valid() && c.target.Valid() && atyp == c.target.Atyp()
      requires base.dstAddress == c.target.Host() && base.dstPort == c.port
      modifies base`bindPort, base.session`log, base.session`query, base.session`tried
      ensures var host, service := c.target.Host(), Numeral(c.port, Decimal);
        && base.session.query == Some((host, service))
        && match Dialled(base.session.resolve(host, service))
          case Connected(p) =>
            ok && base.bindPort == p && base.session.log == old(base.session.log) + [S.SuccessReply(c.target, p)]
          case DialFailed(ec) =>
            && !ok && base.session.log == old(base.session.log) + [S.ErrorReply(S.ReplyCode(ec))]
            && S.ErrorReply(S.ReplyCode(ec)) == W.Failure(W.FailureCode(ec))
    {
      var bound, ec := base.session.Connect(base.dstAddress, Numeral(base.dstPort, Decimal));
      base.bindPort := bound;
      var reply: Byte := S.SUCCEEDED;
      if ec == Some(HostNotFound) || ec == Some(HostUnreachable) {
        reply := S.HOST_UNREACHABLE;
      } else if ec == Some(ConnectionAborted) {
        reply := S.CONN_NOT_ALLOWED;
      } else if ec == Some(ConnectionRefused) {
        reply := S.CONNECTION_REFUSED;
      } else if ec == Some(TimedOut) {
        reply := S.TTL_EXPIRED;
      } else if ec == Some(NetworkUnreachable) {
        reply := S.NETWORK_UNREACH;
      } else if ec.Some? {
        reply := S.SERVER_FAILURE;
      }
      if reply == S.SUCCEEDED {
        var _ := SendCommandResponse(base.bindPort, c.target);
        ok := true;
      } else {
        SendErrorResponse(reply);
        ok := false;
      }
    }

    /** The part of init from the command to the reply. */
    method Execute(ghost methods: seq<Byte>, ghost login: Option<S.Credentials>) returns (ok: bool)
      requires Valid() && base.session.query == None
      modifies this, base`dstAddress, base`dstPort, base`bindPort, base.session
      ensures var p := S.ReadCommand(methods, login, old(base.session.input));
        var o := S.AfterLogin(old(base.session.log), p, base.session.resolve);
        && ok == o.bound.Some? && base.session.log == o.log && base.session.query == o.query
        && (ok && (login.Some? ==> base.username == ToText(login.value.user)) ==> Finished(p, o.bound))
    {
      ghost var p := S.ReadCommand(methods, login, base.session.input);
      ok := ReadCommandRequest(methods, login);
      if !ok { return; }
      if cmd == S.CONNECT {
        W.HostNames(p.req.command.target);
        ok := Connect(p.req.command);
      } else {
        SendErrorResponse(S.COMMAND_NOT_SUPP);
        ok := false;
      }
    }

    /** The whole handshake: the attempted replies, the name resolved and the result are those of the specification; on
        success the fields are the request's, exactly the rest is unread, and a record is made unless SQLite fails. */
    method Init(fault: bool) returns (ok: bool)
      requires Valid() && base.session.log == [] && base.session.query == None
      modifies this, base, base.session, base.db
      ensures var o := S.Init(Server(), Peer(old(base.session.input), base.session.writeOk, base.session.resolve));
        && ok == o.bound.Some? && base.session.log == o.log && base.session.query == o.query
        && (ok ==> Finished(S.Read(Server(), old(base.session.input)), o.bound))
      ensures ok && !fault ==>
        base.db.table == Inserted(old(base.db.table), base.RecordAddresses()) && base.id == base.db.table.lastId
      ensures ok && !fault ==> base.id in base.db.table.rows && base.Records(base.db.table.rows[base.id])
      ensures !ok || fault ==> base.db.table == old(base.db.table) && base.id == old(base.id)
    {
      S.InitAfterNegotiation(Server(), Peer(base.session.input, base.session.writeOk, base.session.resolve));
      ghost var methods, login;
      ok, methods, login := Negotiate();
      if !ok { return; }
      ok := Execute(methods, login);
      if !ok { return; }
      var recorded := base.CreateRecord(fault);
    }
  }
}
