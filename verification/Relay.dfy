/** src/session.cpp, the asynchronous half: the handlers as they update the session, each one without interruption. The
    steps of module Lifecycle are what these handlers do; only close() is interrupted there between its parts. */
module Relay {
  import opened IpText
  import opened StatDb
  import opened Socks
  import opened Phases
  import opened Admission
  import opened Net
  import opened Text
  import opened ConfigReader
  import L = Lifecycle
  import Front = Session
  import S5 = Socks5Spec
  import Handshake

  /** A connected socket: what can still be read from it, and what has been written to it. */
  class Socket {
    var isOpen: bool
    var unread: seq<Byte>
    var received: seq<Byte>

    constructor (unread: seq<Byte>)
      ensures isOpen && this.unread == unread && received == []
    {
      isOpen, this.unread, received := true, unread, [];
    }

    /** ba::write: all of the data, or an error after a part of it; on a closed socket an error after nothing. */
    method WriteAll(data: seq<Byte>, w: L.Write) returns (failed: bool)
      requires if isOpen then w.Broke? ==> w.n <= |data| else w == L.Broke(0)
      modifies this`received
      ensures failed == w.Broke?
      ensures received == old(received) + if w.Wrote? then data else data[..w.n]
    {
      failed := w.Broke?;
      received := received + if w.Wrote? then data else data[..w.n];
    }
  }

  /** The server of src/server.cpp: the counter all sessions share, and whether an accept is under way. */
  class TcpServer {
    const maxSessions: SizeT
    var sessions: int
    var accepting: bool

    constructor (maxSessions: SizeT)
      ensures sessions == 0 && !accepting && this.maxSessions == maxSessions
    {
      this.maxSessions, sessions, accepting := maxSessions, 0, false;
    }

    /** The guard of start_accept: it goes on reading the counter, which other threads change, until the step Proceed is
        possible with the value it sees; `seen` are the values it would read. */
    method SpinInStartAccept(seen: seq<int>, ghost cfg: L.Config, ghost st: L.State) returns (passed: bool, rounds: nat)
      requires cfg.max == maxSessions && st.io.Spinning?
      ensures rounds <= |seen| && (passed <==> rounds < |seen|)
      ensures forall k :: 0 <= k < rounds ==> !L.Enabled(cfg, st.(sessions := seen[k]), L.Proceed)
      ensures passed ==> L.Enabled(cfg, st.(sessions := seen[rounds]), L.Proceed)
      ensures maxSessions == 0 && seen != [] ==> passed && rounds == 0
      ensures maxSessions > 0 ==>
        (passed <==> exists k :: 0 <= k < |seen| && seen[k] % 0x1_0000_0000_0000_0000 != maxSessions)
    {
      rounds := 0;
      while rounds < |seen| && maxSessions > 0 && seen[rounds] % TWO64 == maxSessions
        invariant rounds <= |seen| && (maxSessions == 0 ==> rounds == 0)
        invariant forall k :: 0 <= k < rounds ==> !L.Enabled(cfg, st.(sessions := seen[k]), L.Proceed)
      {
        rounds := rounds + 1;
      }
      passed := rounds < |seen|;
    }

    /** start_accept: an accept is started exactly when the guard sees a value with which the step Proceed is possible.
        */
    method StartAccept(seen: seq<int>, ghost cfg: L.Config, ghost st: L.State)
      requires cfg.max == maxSessions && st.io.Spinning? && !accepting
      modifies this`accepting
      ensures accepting <==> exists k :: 0 <= k < |seen| && L.Enabled(cfg, st.(sessions := seen[k]), L.Proceed)
    {
      var rounds;
      accepting, rounds := SpinInStartAccept(seen, cfg, st);
    }

    /** handle_accept. It acts as the steps Accept and AcceptError do: only a session that is handed to the pool is
        counted; then it starts the next accept, when the guard lets it. */
    method HandleAccept(error: bool, seen: seq<int>, ghost cfg: L.Config, ghost st: L.State, ghost step: L.Step)
      returns (posted: bool)
      requires AllHold(st) && st.sessions == sessions && cfg.max == maxSessions && L.Enabled(cfg, st, step)
      requires if error then step.AcceptError? else step.Accept?
      modifies this
      ensures sessions == L.Next(cfg, st, step).sessions
      ensures posted <==> L.Next(cfg, st, step).ss[st.pending.value].pool.Handshaking?
      ensures Count(L.Next(cfg, st, step).ss, Live) - Count(st.ss, Live) == sessions - old(sessions)
      ensures var next := L.Next(cfg, st, step);
        accepting <==> exists k :: 0 <= k < |seen| && L.Enabled(cfg, next.(sessions := seen[k]), L.Proceed)
    {
      posted, accepting := false, false;
      assert Holds(st.ss[st.pending.value], RoleOf(st.io, st.pending, st.pending.value));
      if !error {
        sessions := sessions + 1;
        posted := true;
        CountPut(st.ss, st.pending.value, L.Next(cfg, st, step).ss[st.pending.value], Live);
      }
      StartAccept(seen, cfg, L.Next(cfg, st, step));
    }
  }

  /** All of close(), once the exchange is won. */
  function CloseWhole(s: L.Sess, table: Table, fault: bool): (L.Sess, Table) {
    var s1 := L.ClosedSess(s.(isClosed := true), L.ToShut, table, fault);
    var s2 := L.ClosedSess(s1, L.ToCloseRow, table, fault);
    (L.ClosedSess(s2, L.ToDecrement, table, fault), L.ClosedTable(s1, L.ToCloseRow, table, fault))
  }

  /** A handler as a whole: what it writes, reports and starts, and close() where it calls it. */
  function HandledWhole(s: L.Sess, d: L.Dir, w: L.Write, table: Table, fault: bool, closeFault: bool): (L.Sess, Table)
    requires L.WritePossible(s, d, w)
  {
    var (t, close) := L.Handled(s, d, w, table, fault);
    var after := L.HandledTable(s, d, w, table, fault);
    if close && !s.isClosed then CloseWhole(t, after, closeFault) else (t, after)
  }

  /** The session behind a write that completed, its next read not started yet. */
  ghost function BehindWrite(s: L.Sess, d: L.Dir, table: Table, fault: bool): L.Sess {
    var f := s.Get(d);
    var data := f.op.Data();
    s.Set(d, f.(op := L.Idle, delivered := f.delivered + data, acked := f.acked + data))
      .(ledger := L.Reported(s.ledger, table, d, |data|, fault))
  }

  /** The session behind a write that failed. */
  ghost function BehindFailure(s: L.Sess, d: L.Dir, w: L.Write): L.Sess
    requires w.Broke?
  {
    var f := s.Get(d);
    s.Set(d, f.(op := L.Idle, delivered := f.delivered + L.Prefix(f.op.Data(), w.n), broken := true))
  }

  /** The read failed or brought nothing, or what it brought cannot be forwarded. */
  predicate MustClose(read: L.Op, w: L.Write) { read.Error? || read == L.Done([]) || w.Broke? }

  class TcpSession {
    const server: TcpServer
    const clientSocket: Socket
    const serverSocket: Socket
    const socks: Socks

    var isClosed: bool

    /** The reads in progress; a completed one has its bytes in the buffer of its direction. */
    var clientRead: L.Op
    var serverRead: L.Op

    /** The session of the transition system this object stands for. */
    ghost var model: L.Sess

    ghost predicate Valid()
      reads this, clientSocket, serverSocket, socks
    {
      && clientSocket != serverSocket
      && model.isClosed == isClosed
      && clientSocket.isOpen == !model.shut && serverSocket.isOpen == !model.shut
      && model.ledger.rowId == socks.id
      && model.up.op == clientRead && model.up.unread == clientSocket.unread
      && model.up.delivered == serverSocket.received
      && model.down.op == serverRead && model.down.unread == serverSocket.unread
      && model.down.delivered == clientSocket.received
    }

    constructor (server: TcpServer, clientSocket: Socket, serverSocket: Socket, socks: Socks, ghost s: L.Sess)
      requires clientSocket != serverSocket && clientSocket.isOpen && serverSocket.isOpen
      requires clientSocket.received == [] && serverSocket.received == []
      requires s.pool.Ready? && !s.isClosed && !s.shut && s.ledger.rowId == socks.id
      requires s.up == L.NO_FLOW.(unread := clientSocket.unread) && s.down == L.NO_FLOW.(unread := serverSocket.unread)
      ensures Valid() && model == s && this.server == server && this.socks == socks
      ensures this.clientSocket == clientSocket && this.serverSocket == serverSocket
    {
      this.server, this.clientSocket, this.serverSocket, this.socks := server, clientSocket, serverSocket, socks;
      isClosed, clientRead, serverRead, model := false, L.Idle, L.Idle, s;
    }

    method ClientRead()
      requires Valid()
      modifies this`clientRead, this`model
      ensures Valid() && model == L.Arm(old(model), L.Up)
      ensures clientRead == if clientSocket.isOpen then L.Waiting else old(clientRead)
    {
      if clientSocket.isOpen { clientRead := L.Waiting; }
      model := L.Arm(model, L.Up);
    }

    method ServerRead()
      requires Valid()
      modifies this`serverRead, this`model
      ensures Valid() && model == L.Arm(old(model), L.Down)
      ensures serverRead == if serverSocket.isOpen then L.Waiting else old(serverRead)
    {
      if serverSocket.isOpen { serverRead := L.Waiting; }
      model := L.Arm(model, L.Down);
    }

    /** writeToSocket: false when the write fails; otherwise the bytes are reported. */
    method WriteToSocket(socket: Socket, buffer: L.Chunk, isServer: bool, w: L.Write, fault: bool) returns (ok: bool)
      requires if socket.isOpen then w.Broke? ==> w.n <= |buffer| else w == L.Broke(0)
      modifies socket`received, socks.db
      ensures ok == w.Wrote?
      ensures socket.received == old(socket.received) + if w.Wrote? then buffer else buffer[..w.n]
      ensures socks.db.table ==
        if w.Broke? || socks.id == 0 || fault then old(socks.db.table)
        else ApplyOne(old(socks.db.table), Report(socks.id, |buffer|, if isServer then ToServer else ToClient))
    {
      var failed := socket.WriteAll(buffer, w);
      if failed { return false; }
      socks.WriteStat(|buffer|, isServer, fault);
      ok := true;
    }

    /** close: the first call shuts both sockets, closes the row and counts the session out; later calls do nothing. */
    method Close(fault: bool)
      requires Valid()
      modifies this`isClosed, this`model, server, clientSocket`isOpen, serverSocket`isOpen, socks`id, socks.db
      ensures Valid() && isClosed
      ensures old(isClosed) ==>
        model == old(model) && socks.db.table == old(socks.db.table) && server.sessions == old(server.sessions)
      ensures !old(isClosed) ==>
        (model, socks.db.table) == CloseWhole(old(model), old(socks.db.table), fault)
        && server.sessions == old(server.sessions) - 1
      ensures !old(isClosed) ==> !clientSocket.isOpen && !serverSocket.isOpen && socks.id == 0
      ensures old(isClosed) ==>
        && clientSocket.isOpen == old(clientSocket.isOpen) && serverSocket.isOpen == old(serverSocket.isOpen)
        && socks.id == old(socks.id)
    {
      var was := isClosed;
      isClosed := true;
      if !was {
        model := CloseWhole(model, socks.db.table, fault).0;
        clientSocket.isOpen := false;
        serverSocket.isOpen := false;
        socks.Close(fault);
        server.sessions := server.sessions - 1;
      }
    }

    /** server_handle: the same in the other direction. */
    method ServerHandle(w: L.Write, fault: bool, closeFault: bool)
      requires Valid() && (serverRead.Done? || serverRead.Error?) && L.WritePossible(model, L.Down, w)
      modifies this, server, clientSocket, serverSocket, socks, socks.db
      ensures Valid()
      ensures (model, socks.db.table) == HandledWhole(old(model), L.Down, w, old(socks.db.table), fault, closeFault)
      ensures server.sessions == old(server.sessions) - if isClosed && !old(isClosed) then 1 else 0
      ensures MustClose(old(serverRead), w) && !old(isClosed) ==>
        isClosed && !clientSocket.isOpen && !serverSocket.isOpen && socks.id == 0
      ensures MustClose(old(serverRead), w) ==> isClosed && serverRead == L.Idle
      ensures !MustClose(old(serverRead), w) ==>
        && isClosed == old(isClosed) && serverRead == L.Waiting && socks.id == old(socks.id)
        && clientSocket.isOpen && serverSocket.isOpen
        && clientSocket.received == old(clientSocket.received) + old(serverRead).data
      ensures clientRead == old(clientRead) && serverSocket.received == old(serverSocket.received)
    {
      ghost var s, table := model, socks.db.table;
      var failed, buffer := serverRead.Error?, serverRead.Data();
      serverRead := L.Idle;
      model := s.Set(L.Down, s.down.(op := L.Idle));
      if failed {
        Close(closeFault);
        return;
      }
      if |buffer| > 0 {
        var written := WriteToSocket(clientSocket, buffer, false, w, fault);
        if written {
          model := BehindWrite(s, L.Down, table, fault);
          ServerRead();
        } else {
          model := BehindFailure(s, L.Down, w);
          Close(closeFault);
        }
      } else {
        Close(closeFault);
      }
    }

    /** client_handle: on an error, on no bytes, or when they cannot be forwarded, the session is closed; otherwise the
        bytes are at the destination and in the statistics, and the next read is started. */
    method ClientHandle(w: L.Write, fault: bool, closeFault: bool)
      requires Valid() && (clientRead.Done? || clientRead.Error?) && L.WritePossible(model, L.Up, w)
      modifies this, server, clientSocket, serverSocket, socks, socks.db
      ensures Valid()
      ensures (model, socks.db.table) == HandledWhole(old(model), L.Up, w, old(socks.db.table), fault, closeFault)
      ensures server.sessions == old(server.sessions) - if isClosed && !old(isClosed) then 1 else 0
      ensures MustClose(old(clientRead), w) && !old(isClosed) ==>
        isClosed && !clientSocket.isOpen && !serverSocket.isOpen && socks.id == 0
      ensures MustClose(old(clientRead), w) ==> isClosed && clientRead == L.Idle
      ensures !MustClose(old(clientRead), w) ==>
        && isClosed == old(isClosed) && clientRead == L.Waiting && socks.id == old(socks.id)
        && clientSocket.isOpen && serverSocket.isOpen
        && serverSocket.received == old(serverSocket.received) + old(clientRead).data
      ensures serverRead == old(serverRead) && clientSocket.received == old(clientSocket.received)
    {
      ghost var s, table := model, socks.db.table;
      var failed, buffer := clientRead.Error?, clientRead.Data();
      clientRead := L.Idle;
      model := s.Set(L.Up, s.up.(op := L.Idle));
      if failed {
        Close(closeFault);
        return;
      }
      if |buffer| > 0 {
        var written := WriteToSocket(serverSocket, buffer, true, w, fault);
        if written {
          model := BehindWrite(s, L.Up, table, fault);
          ClientRead();
        } else {
          model := BehindFailure(s, L.Up, w);
          Close(closeFault);
        }
      } else {
        Close(closeFault);
      }
    }
  }

  /** Uninterrupted, the three steps of close() on the io thread are the whole of it. */
  lemma CloseStepsAreWhole(cfg: L.Config, st: L.State, fault: bool)
    requires st.io.Closing? && st.io.pc.ToShut? && st.io.c < |st.ss| && st.ss[st.io.c].isClosed
    ensures var steps := [L.CloseIo(fault), L.CloseIo(fault), L.CloseIo(fault)];
      && L.IsRun(cfg, st, steps)
      && |L.After(cfg, st, steps).ss| == |st.ss|
      && L.After(cfg, st, steps).ss[st.io.c] == CloseWhole(st.ss[st.io.c], st.table, fault).0
      && L.After(cfg, st, steps).table == CloseWhole(st.ss[st.io.c], st.table, fault).1
      && L.After(cfg, st, steps).sessions == st.sessions - 1
  {
    var step := L.CloseIo(fault);
    var s1 := L.Next(cfg, st, step);
    var s2 := L.Next(cfg, s1, step);
    var s3 := L.Next(cfg, s2, step);
    assert [step, step, step][1..] == [step, step] && [step, step][1..] == [step] && [step][1..] == [];
    assert L.IsRun(cfg, s3, []) && L.After(cfg, s3, []) == s3;
    assert L.IsRun(cfg, s2, [step]) && L.After(cfg, s2, [step]) == s3;
    assert L.IsRun(cfg, s1, [step, step]) && L.After(cfg, s1, [step, step]) == s3;
    assert st.ss[st.io.c].(isClosed := true) == st.ss[st.io.c];
  }

  /** So a handler's step of the transition system, and those of the close() it calls, are what the methods above do. */
  lemma HandlerStepsAreWhole(cfg: L.Config, st: L.State, c: nat, d: L.Dir, w: L.Write, fault: bool, closeFault: bool)
    requires L.Enabled(cfg, st, L.Handle(c, d, w, fault))
    ensures var (s, table) := HandledWhole(st.ss[c], d, w, st.table, fault, closeFault);
      var next := L.Next(cfg, st, L.Handle(c, d, w, fault));
      var steps := [L.CloseIo(closeFault), L.CloseIo(closeFault), L.CloseIo(closeFault)];
      if next.io.Closing? then
        && L.IsRun(cfg, next, steps) && |L.After(cfg, next, steps).ss| == |st.ss|
        && L.After(cfg, next, steps).ss[c] == s && L.After(cfg, next, steps).table == table
      else next.ss[c] == s && next.table == table
  {
    var next := L.Next(cfg, st, L.Handle(c, d, w, fault));
    if next.io.Closing? {
      CloseStepsAreWhole(cfg, next, closeFault);
      var t := L.Handled(st.ss[c], d, w, st.table, fault).0;
      assert next.ss[c] == t.(isClosed := true);
      assert t.(isClosed := true).(isClosed := true) == t.(isClosed := true);
    }
  }

  /** An accepted session whose task begins: its peer, its configuration and the table are the ones given. */
  ghost predicate Begins(
    cfg: L.Config, st: L.State, c: nat, sv: S5.Server, peer: Peer, stream: seq<Byte>, table: Table)
  {
    && c < |st.ss| && st.ss[c].pool.Handshaking? && st.ss[c].peer == peer && cfg.sv == sv && st.table == table
    && !st.ss[c].isClosed && !st.ss[c].shut && st.ss[c].ledger == L.NO_LEDGER
    && st.ss[c].up == L.NO_FLOW && st.ss[c].down == L.NO_FLOW.(unread := stream)
  }

  /** The three steps of a task that succeeds. */
  ghost predicate Relays(cfg: L.Config, st: L.State, c: nat, a: Addresses, fault: bool, relay: L.Sess, table: Table) {
    var steps := [L.Greeted(c, a, fault)] + ([L.ArmClient(c)] + ([L.ArmServer(c)] + []));
    && L.IsRun(cfg, st, steps)
    && c < |L.After(cfg, st, steps).ss| && L.After(cfg, st, steps).ss[c] == relay.(pool := L.Finished)
    && L.After(cfg, st, steps).table == table
  }

  /** The reads a task starts are references to the session, so it does not end with the task. */
  lemma ReadsStart(cfg: L.Config, st: L.State, c: nat)
    requires c < |st.ss| && st.ss[c].pool.Ready? && !st.ss[c].shut
    ensures var steps := [L.ArmClient(c)] + ([L.ArmServer(c)] + []);
      && L.IsRun(cfg, st, steps) && c < |L.After(cfg, st, steps).ss|
      && L.After(cfg, st, steps).ss[c] == L.Arm(L.Arm(st.ss[c], L.Up), L.Down).(pool := L.Finished)
      && L.After(cfg, st, steps).table == st.table
  {
    var next := L.Next(cfg, st, L.ArmClient(c));
    Cons(cfg, next, L.ArmServer(c), []);
    Cons(cfg, st, L.ArmClient(c), [L.ArmServer(c)] + []);
  }

  lemma TaskRelays(cfg: L.Config, st: L.State, c: nat, a: Addresses, fault: bool)
    requires L.Enabled(cfg, st, L.Greeted(c, a, fault)) && !st.ss[c].shut
    ensures var st1 := L.Next(cfg, st, L.Greeted(c, a, fault));
      Relays(cfg, st, c, a, fault, L.Arm(L.Arm(st1.ss[c], L.Up), L.Down), st1.table)
  {
    var st1 := L.Next(cfg, st, L.Greeted(c, a, fault));
    ReadsStart(cfg, st1, c);
    Cons(cfg, st, L.Greeted(c, a, fault), [L.ArmClient(c)] + ([L.ArmServer(c)] + []));
  }

  /** start as a whole, from the handshake on one socket to the reads on both: there is a relaying session exactly when
      the step Greeted is possible, and it is then the session that step and the two that start the reads lead to. */
  method Start(front: Front.TcpSession, server: TcpServer, db: DatabaseService, config: ConfigReader, authFlag: bool,
               stream: seq<Byte>, fault: bool, ghost cfg: L.Config, ghost st: L.State, ghost c: nat)
    returns (relay: Option<TcpSession>, ghost a: Addresses)
    requires front.log == [] && front.query == None
    requires var sv, peer := S5.Server(authFlag, config.users), Peer(front.input, front.writeOk, front.resolve);
      Begins(cfg, st, c, sv, peer, stream, db.table)
    modifies front, db
    ensures relay.Some? <==> L.Enabled(cfg, st, L.Greeted(c, a, fault))
    ensures relay.None? ==> db.table == st.table
    ensures relay.Some? ==> fresh(relay.value) && relay.value.Valid() && relay.value.server == server
    ensures relay.Some? ==> relay.value.clientRead == L.Waiting && relay.value.serverRead == L.Waiting
    ensures relay.Some? ==> relay.value.socks.db == db && Relays(cfg, st, c, a, fault, relay.value.model, db.table)
  {
    relay, a := None, Addresses("", "", "", "", "");
    var ok, socks := Handshake.Start(front, db, config, authFlag, fault);
    if !ok { return; }
    a := socks.value.RecordAddresses();
    TaskRelays(cfg, st, c, a, fault);
    var clientSocket := new Socket(front.input);
    var serverSocket := new Socket(stream);
    ghost var s := L.Next(cfg, st, L.Greeted(c, a, fault)).ss[c];
    var session := new TcpSession(server, clientSocket, serverSocket, socks.value, s);
    session.ClientRead();
    session.ServerRead();
    relay := Some(session);
  }
}
