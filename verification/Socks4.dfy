/** src/socks4.cpp: the handshake as it reads, connects and replies. */
module Socks4 {
  import opened Text
  import opened IpText
  import opened Net
  import opened Socks
  import opened StatDb
  import S = Socks4Spec

  class Socks4 {
    const base: Socks

    constructor (base: Socks)
      ensures this.base == base
    {
      this.base := base;
    }

    /** The user id, up to and with the zero byte behind it. */
    method ReadUserId() returns (userid: seq<Byte>, failed: bool)
      modifies base.session`input
      ensures match S.ReadUser(old(base.session.input))
        case Got(user, rest) => !failed && userid == user && base.session.input == rest
        case Short => failed
    {
      ghost var input := base.session.input;
      userid, failed := [], false;
      while true
        invariant 0 !in userid && input == userid + base.session.input
        decreases |base.session.input|
      {
        ghost var unread := base.session.input;
        var c;
        c, failed := base.session.ReadByte();
        if c != 0 && !failed {
          S.Shift(userid, unread, c, base.session.input);
          userid := userid + [c];
        } else {
          S.UserEnds(input, userid, unread);
          break;
        }
      }
    }

    method ReadRequest() returns (ok: bool)
      modifies base`username, base`dstAddress, base`dstPort, base.session`input
      ensures match S.Read(old(base.session.input))
        case Short => !ok
        case Got(r, rest) =>
          && ok && base.session.input == rest && base.dstPort == r.port && base.dstAddress == IPv4Text(r.address)
          && base.username == ToText(r.user)
    {
      ghost var input := base.session.input;
      var cd, _ := base.session.ReadByte();
      if cd != S.CONNECT { return false; }
      var _ := base.ReadPort();
      base.dstAddress := base.ReadIPV4();
      if |base.dstAddress| == 0 { return false; }
      assert input[1..][2..][..4] == input[3..7] && input[1..][2..][4..] == input[7..];
      var userid, failed := ReadUserId();
      if failed { return false; }
      base.username := ToText(userid);
      ok := true;
    }

    method Init(fault: bool) returns (ok: bool)
      requires base.session.log == [] && base.session.query == None
      modifies base, base.session, base.db
      ensures var o := S.Init(Peer(old(base.session.input), base.session.writeOk, base.session.resolve));
        && ok == o.bound.Some? && base.session.log == o.log && base.session.query == o.query
        && (ok ==>
              var p := S.Read(old(base.session.input));
              && p.Got? && base.session.input == p.rest && base.bindPort == o.bound.value
              && base.dstPort == p.value.port && base.dstAddress == IPv4Text(p.value.address)
              && base.username == ToText(p.value.user))
      ensures ok && !fault ==>
        base.db.table == Inserted(old(base.db.table), base.RecordAddresses()) && base.id == base.db.table.lastId
      ensures ok && !fault ==> base.id in base.db.table.rows && base.Records(base.db.table.rows[base.id])
      ensures !ok || fault ==> base.db.table == old(base.db.table) && base.id == old(base.id)
    {
      ok := ReadRequest();
      if !ok { return; }
      var bound, ec := base.session.Connect(base.dstAddress, Numeral(base.dstPort, Decimal));
      base.bindPort := bound;
      var reply: seq<Byte> := seq(8, _ => 0);
      reply := reply[1 := if ec.Some? then S.REJECTED else S.GRANTED];
      assert reply == S.Reply(if ec.Some? then S.REJECTED else S.GRANTED);
      var failed := base.session.WriteBytes(reply);
      if failed || reply[1] == S.REJECTED { return false; }
      var recorded := base.CreateRecord(fault);
    }
  }
}
