/** src/socks.cpp: what both protocol versions share, and the session's record in the statistics table. */
module Socks {
  import opened Text
  import opened IpText
  import opened Net
  import opened Session
  import opened StatDb

  lemma IPv4TextNotEmpty(bytes: seq<Byte>)
    requires |bytes| == 4
    ensures IPv4Text(bytes) != ""
  {
  }

  lemma IPv6TextNotEmpty(bytes: seq<Byte>)
    requires |bytes| == 16
    ensures IPv6Text(bytes) != ""
  {
  }

  lemma NumeralUpToNul(n: nat)
    ensures Bound(Numeral(n, Decimal)) == Numeral(n, Decimal)
  {
    NumeralRoundTrip(n, Decimal);
    assert !IsDigit('\0', Decimal);
  }

  class Socks {
    const session: TcpSession
    const db: DatabaseService
    const socksVer: Byte

    var id: int
    var dstAddress: string
    var dstPort: Port
    var bindPort: Port
    var username: string

    constructor (session: TcpSession, db: DatabaseService, socksVer: Byte)
      ensures this.session == session && this.db == db && this.socksVer == socksVer
      ensures id == 0 && dstAddress == "" && dstPort == 0 && bindPort == 0 && username == ""
    {
      this.session, this.db, this.socksVer := session, db, socksVer;
      id, dstAddress, dstPort, bindPort, username := 0, "", 0, 0, "";
    }

    ghost function RecordAddresses(): Addresses
      reads this
    {
      Addresses(username, session.remoteAddress, session.remotePort, dstAddress, Numeral(dstPort, Decimal))
    }

    /** The row tells who asked, from where, and for what: each of these in the column of its name. */
    ghost predicate Records(row: Row)
      reads this
    {
      && UpToNul(row.addresses.user, username)
      && UpToNul(row.addresses.srcAddr, session.remoteAddress) && UpToNul(row.addresses.srcPort, session.remotePort)
      && UpToNul(row.addresses.dstAddr, dstAddress) && row.addresses.dstPort == Numeral(dstPort, Decimal)
      && row.active && row.sent == 0 && row.recv == 0
    }

    /** close: the record is closed once; a database error is logged and forgotten with the id. */
    method Close(fault: bool)
      modifies this`id, db
      ensures id == 0
      ensures db.table ==
        if old(id) == 0 || fault || Closed(old(db.table), old(id)).Failed? then old(db.table)
        else Closed(old(db.table), old(id)).value
    {
      if id != 0 {
        var r := db.Close(id, fault);
        id := 0;
      }
    }

    /** write_stat: no record, no report; a database error is logged and the report lost. */
    method WriteStat(bytes: SizeT, isServer: bool, fault: bool)
      modifies db
      ensures db.table ==
        var dest := if isServer then ToServer else ToClient;
        if id == 0 || fault then old(db.table) else ApplyOne(old(db.table), Report(id, bytes, dest))
    {
      if id == 0 { return; }
      var r := db.Update(id, bytes, if isServer then ToServer else ToClient, fault);
    }

    /** createRecord: without a database error the id is the new row's. */
    method CreateRecord(fault: bool) returns (ok: bool)
      modifies this`id, db
      ensures ok == !fault
      ensures fault ==> id == old(id) && db.table == old(db.table)
      ensures !fault ==> db.table == Inserted(old(db.table), RecordAddresses()) && id == db.table.lastId
      ensures !fault ==> id == old(db.table).lastId + 1 && id in db.table.rows && Records(db.table.rows[id])
    {
      var s := Addresses(username, session.remoteAddress, session.remotePort, dstAddress, Numeral(dstPort, Decimal));
      var r := db.Create(s, fault);
      if r.Failed? { return false; }
      id := r.value;
      ok := true;
      NumeralUpToNul(dstPort);
    }

    method CheckVersion() returns (ok: bool)
      modifies session`input
      ensures ok <==> old(session.input) != [] && old(session.input)[0] == socksVer
      ensures old(session.input) != [] ==> session.input == old(session.input)[1..]
      ensures old(session.input) == [] ==> session.input == []
    {
      var ver, failed := session.ReadByte();
      if failed { return false; }
      ok := ver == socksVer;
    }

    /** readPort: big-endian; the field is assigned even when the second byte is missing. */
    method ReadPort() returns (ok: bool)
      modifies this`dstPort, session`input
      ensures ok == (|old(session.input)| >= 2)
      ensures ok ==> dstPort == (old(session.input)[0] as int) * 256 + old(session.input)[1]
      ensures ok ==> session.input == old(session.input)[2..]
      ensures !ok ==> session.input == []
    {
      var hi, failed := session.ReadByte();
      dstPort := hi;
      if failed { return false; }
      var lo, failed2 := session.ReadByte();
      dstPort := (hi as int) * 256 + lo;
      ok := !failed2;
    }

    /** readIPV4: the dotted text of the next four bytes, or the empty text. */
    method ReadIPV4() returns (text: string)
      modifies session`input
      ensures match Take(old(session.input), 4)
        case Got(b, rest) => text == IPv4Text(b) && text != "" && session.input == rest
        case Short => text == "" && session.input == []
    {
      var bytes, failed := session.ReadBytes(4);
      if failed { return ""; }
      IPv4TextNotEmpty(bytes);
      text := FormIpAddressString(bytes);
    }
  }
}
