/** The server as a transition system over its threads' steps: src/server.cpp, src/session.cpp and the record keeping of
    src/socks.cpp. One thread runs every accept and read handler (src/main.cpp, context.run); each accepted session has
    a task on a thread pool for its handshake; reads complete, or fail, at any time. */
module Lifecycle {
  import opened Text
  import opened IpText
  import opened Net
  import opened StatDb
  import S5 = Socks5Spec
  import Handshake

  // ---- One direction of a relay ----

  datatype Dir = Up | Down

  /** What one read call can deliver; its size is a size_t. */
  type Chunk = s: seq<Byte> | |s| < TWO64

  /** An asynchronous read and its handler: none, waiting for data, or completed with the handler still to run. */
  datatype Op = Idle | Waiting | Done(data: Chunk) | Error {
    function Data(): seq<Byte> { if Done? then data else [] }
  }

  /** `unread`: what the source will still deliver. `delivered`: what reached the sink. `acked`: the bytes of writes
      that completed. `broken`: a write has failed. */
  datatype Flow = Flow(unread: seq<Byte>, op: Op, delivered: seq<Byte>, acked: seq<Byte>, broken: bool)

  datatype Write = Wrote | Broke(n: nat)

  // ---- Sessions ----

  /** What close() still has to do once it has won the exchange of _isClosed. */
  datatype ClosePc = ToShut | ToCloseRow | ToDecrement

  /** Where the pool task of a session is; NotPosted also covers a session whose accept failed. */
  datatype Pool = NotPosted | Handshaking | Ready | HalfArmed | Finished | Destroying(pc: ClosePc)

  /** The session's record: the row created for it (0: none), the row id it still holds (0: none or closed), whether
      closing the row failed, the bytes reported for it by direction and those lost to database errors, and the bytes
      reported before the last report of each direction. */
  datatype Ledger = Ledger(
    record: int, rowId: int, closeFault: bool,
    sent: nat, recv: nat, lost: nat,
    sentEarlier: nat, recvEarlier: nat)

  datatype Sess = Sess(
    peer: Peer, payload: seq<Byte>, stream: seq<Byte>,
    accepted: bool, pool: Pool,
    up: Flow, down: Flow,
    isClosed: bool, shut: bool, dec: bool,
    ledger: Ledger)
  {
    function Get(d: Dir): Flow { if d.Up? then up else down }

    function Set(d: Dir, f: Flow): Sess { if d.Up? then this.(up := f) else this.(down := f) }

    predicate InPool() { pool.Handshaking? || pool.Ready? || pool.HalfArmed? }
  }

  const NO_FLOW := Flow([], Idle, [], [], false)
  const NO_LEDGER := Ledger(0, 0, false, 0, 0, 0, 0, 0)
  const NO_PEER := Peer([], _ => false, (_, _) => Unresolved(HostNotFound))
  const NEW := Sess(NO_PEER, [], [], false, NotPosted, NO_FLOW, NO_FLOW, false, false, false, NO_LEDGER)

  // ---- The server ----

  datatype Config = Config(max: SizeT, buffer: SizeT, sv: S5.Server)

  /** What the io thread is doing. Spinning: in start_accept's guard, called from handle_accept, whose frame holds the
      session. Returning: the next accept is armed, the frame still holds the session. Closing: inside close(). */
  datatype Io = Running | Spinning(c: nat) | Returning(c: nat) | Closing(c: nat, pc: ClosePc)

  datatype State = State(sessions: int, io: Io, pending: Option<nat>, ss: seq<Sess>, table: Table)

  /** `_maxSessions > 0 && _sessions == _maxSessions`, the int being converted to size_t. */
  predicate Full(cfg: Config, sessions: int) {
    cfg.max > 0 && sessions % TWO64 == cfg.max
  }

  /** After the constructor's start_accept and the table's set_all_inactive. */
  function Initial(table: Table): State {
    State(0, Running, Some(0), [NEW], table)
  }

  predicate FreshTable(table: Table) {
    table.lastId >= 0 && forall id :: id in table.rows ==> 0 < id <= table.lastId && !table.rows[id].active
  }

  /** A reference to the session besides its pool task: a handler, or the frame of handle_accept. */
  predicate Referenced(st: State, c: nat)
    requires c < |st.ss|
  {
    st.io == Spinning(c) || st.io == Returning(c) || st.ss[c].up.op != Idle || st.ss[c].down.op != Idle
  }

  datatype Step =
    | Accept(peer: Peer, stream: seq<Byte>)
    | AcceptError
    | Proceed
    | Return
    | Complete(c: nat, d: Dir, n: nat)
    | Fail(c: nat, d: Dir)
    | Handle(c: nat, d: Dir, w: Write, fault: bool)
    | CloseIo(fault: bool)
    | Greeted(c: nat, a: Addresses, fault: bool)
    | PoolEnd(c: nat)
    | ArmClient(c: nat)
    | ArmServer(c: nat)
    | ClosePool(c: nat, fault: bool)

  /** A write can succeed only on an open socket; one that fails may have delivered a part, on an open socket. */
  predicate WritePossible(s: Sess, d: Dir, w: Write) {
    var data := s.Get(d).op.Data();
    match w
    case Wrote => data == [] || !s.shut
    case Broke(n) => if s.shut then n == 0 else n < |data| || n == 0
  }

  predicate Enabled(cfg: Config, st: State, step: Step) {
    match step
    case Accept(_, _) => st.io.Running? && st.pending.Some? && st.pending.value < |st.ss|
    case AcceptError => st.io.Running? && st.pending.Some? && st.pending.value < |st.ss|
    case Proceed => st.io.Spinning? && !Full(cfg, st.sessions)
    case Return => st.io.Returning? && st.io.c < |st.ss|
    case Complete(c, d, n) =>
      && c < |st.ss| && st.ss[c].Get(d).op.Waiting? && !st.ss[c].shut
      && n <= |st.ss[c].Get(d).unread| && n <= cfg.buffer && (n > 0 || cfg.buffer == 0)
    case Fail(c, d) => c < |st.ss| && st.ss[c].Get(d).op.Waiting?
    case Handle(c, d, w, _) =>
      && st.io.Running? && c < |st.ss| && (st.ss[c].Get(d).op.Done? || st.ss[c].Get(d).op.Error?)
      && WritePossible(st.ss[c], d, w)
    case CloseIo(_) => st.io.Closing? && st.io.c < |st.ss|
    case Greeted(c, _, _) =>
      c < |st.ss| && st.ss[c].pool.Handshaking? && Handshake.Payload(cfg.sv, st.ss[c].peer).Some?
    case PoolEnd(c) => c < |st.ss| && (st.ss[c].pool.Handshaking? || st.ss[c].pool.Ready?)
    case ArmClient(c) => c < |st.ss| && st.ss[c].pool.Ready?
    case ArmServer(c) => c < |st.ss| && st.ss[c].pool.HalfArmed?
    case ClosePool(c, _) => c < |st.ss| && st.ss[c].pool.Destroying?
  }

  // ---- Effects on a session ----

  function Arm(s: Sess, d: Dir): Sess {
    if s.shut then s else s.Set(d, s.Get(d).(op := Waiting))
  }

  function Completed(s: Sess, d: Dir, n: nat): Sess
    requires n <= |s.Get(d).unread| && n < TWO64
  {
    var f := s.Get(d);
    s.Set(d, f.(unread := f.unread[n..], op := Done(f.unread[..n])))
  }

  function Prefix(data: seq<Byte>, n: nat): seq<Byte> {
    if n <= |data| then data[..n] else data
  }

  function DestOf(d: Dir): Dest { if d.Up? then ToServer else ToClient }

  /** Does write_stat reach the table: there is a row, and SQLite works on it. */
  predicate Reaches(l: Ledger, table: Table, fault: bool) {
    l.rowId != 0 && !fault && Updated(table, l.rowId, 0, ToServer).Ok?
  }

  function Reported(l: Ledger, table: Table, d: Dir, n: nat, fault: bool): Ledger {
    if !Reaches(l, table, fault) then l.(lost := l.lost + n)
    else if d.Up? then l.(sentEarlier := l.sent, sent := l.sent + n)
    else l.(recvEarlier := l.recv, recv := l.recv + n)
  }

  /** client_handle and server_handle, up to a call of close(): what was read is written to the other side and reported,
      and the next read is started; true when close() is called instead. */
  function Handled(s: Sess, d: Dir, w: Write, table: Table, fault: bool): (Sess, bool)
    requires WritePossible(s, d, w)
  {
    var f := s.Get(d);
    var data := f.op.Data();
    if data == [] then (s.Set(d, f.(op := Idle)), true)
    else
      match w
      case Wrote =>
        var written := s.Set(d, f.(op := Idle, delivered := f.delivered + data, acked := f.acked + data));
        (Arm(written.(ledger := Reported(s.ledger, table, d, |data|, fault)), d), false)
      case Broke(n) => (s.Set(d, f.(op := Idle, delivered := f.delivered + Prefix(data, n), broken := true)), true)
  }

  function HandledTable(s: Sess, d: Dir, w: Write, table: Table, fault: bool): Table {
    var data := s.Get(d).op.Data();
    if data == [] || w.Broke? || s.ledger.rowId == 0 || fault || |data| >= TWO64 then table
    else ApplyOne(table, Report(s.ledger.rowId, |data|, DestOf(d)))
  }

  predicate RowCloses(l: Ledger, table: Table, fault: bool) {
    l.rowId != 0 && !fault && Closed(table, l.rowId).Ok?
  }

  function ClosedSess(s: Sess, pc: ClosePc, table: Table, fault: bool): Sess {
    match pc
    case ToShut => s.(shut := true)
    case ToCloseRow =>
      var failed := s.ledger.rowId != 0 && !RowCloses(s.ledger, table, fault);
      s.(ledger := s.ledger.(rowId := 0, closeFault := s.ledger.closeFault || failed))
    case ToDecrement => s.(dec := true)
  }

  function ClosedTable(s: Sess, pc: ClosePc, table: Table, fault: bool): Table {
    if pc.ToCloseRow? && RowCloses(s.ledger, table, fault) then Closed(table, s.ledger.rowId).value else table
  }

  function NextPc(pc: ClosePc): ClosePc { if pc.ToShut? then ToCloseRow else ToDecrement }

  // ---- The steps ----

  function Put(st: State, c: nat, s: Sess): State
    requires c < |st.ss|
  {
    st.(ss := st.ss[c := s])
  }

  /** close() called on the io thread: only the first caller goes on. */
  function CallClose(st: State, c: nat): State
    requires c < |st.ss|
  {
    if st.ss[c].isClosed then st.(io := Running)
    else Put(st, c, st.ss[c].(isClosed := true)).(io := Closing(c, ToShut))
  }

  /** The pool task returns and drops its reference; the destructor runs close() if it was the last one. */
  function TaskEnds(st: State, c: nat): State
    requires c < |st.ss|
  {
    var s := st.ss[c];
    if Referenced(st, c) || s.isClosed then Put(st, c, s.(pool := Finished))
    else Put(st, c, s.(isClosed := true, pool := Destroying(ToShut)))
  }

  function Next(cfg: Config, st: State, step: Step): State
    requires Enabled(cfg, st, step)
  {
    match step
    case Accept(peer, stream) =>
      var c := st.pending.value;
      Put(st, c, st.ss[c].(accepted := true, pool := Handshaking, peer := peer, stream := stream,
                           down := st.ss[c].down.(unread := stream)))
        .(sessions := st.sessions + 1, pending := None, io := Spinning(c))
    case AcceptError => st.(pending := None, io := Spinning(st.pending.value))
    case Proceed => st.(ss := st.ss + [NEW], pending := Some(|st.ss|), io := Returning(st.io.c))
    case Return =>
      var c := st.io.c;
      var released := st.(io := Running);
      if st.ss[c].InPool() || Referenced(released, c) then released else CallClose(released, c)
    case Complete(c, d, n) => Put(st, c, Completed(st.ss[c], d, n))
    case Fail(c, d) => Put(st, c, st.ss[c].Set(d, st.ss[c].Get(d).(op := Error)))
    case Handle(c, d, w, fault) =>
      var (s, close) := Handled(st.ss[c], d, w, st.table, fault);
      var next := Put(st, c, s).(table := HandledTable(st.ss[c], d, w, st.table, fault));
      if close then CallClose(next, c) else next
    case CloseIo(fault) =>
      var c, pc := st.io.c, st.io.pc;
      var s := st.ss[c];
      Put(st, c, ClosedSess(s, pc, st.table, fault))
        .(table := ClosedTable(s, pc, st.table, fault),
          io := if pc.ToDecrement? then Running else Closing(c, NextPc(pc)),
          sessions := if pc.ToDecrement? then st.sessions - 1 else st.sessions)
    case Greeted(c, a, fault) =>
      var s := st.ss[c];
      var payload := Handshake.Payload(cfg.sv, s.peer).value;
      var id := if fault then 0 else st.table.lastId + 1;
      Put(st, c, s.(payload := payload, up := s.up.(unread := payload), pool := Ready,
                    ledger := s.ledger.(record := id, rowId := id)))
        .(table := if fault then st.table else Inserted(st.table, a))
    case PoolEnd(c) => TaskEnds(st, c)
    case ArmClient(c) => Put(st, c, Arm(st.ss[c], Up).(pool := HalfArmed))
    case ArmServer(c) => TaskEnds(Put(st, c, Arm(st.ss[c], Down)), c)
    case ClosePool(c, fault) =>
      var s := st.ss[c];
      var pc := s.pool.pc;
      var pool := if pc.ToDecrement? then Finished else Destroying(NextPc(pc));
      Put(st, c, ClosedSess(s, pc, st.table, fault).(pool := pool))
        .(table := ClosedTable(s, pc, st.table, fault),
          sessions := if pc.ToDecrement? then st.sessions - 1 else st.sessions)
  }

  // ---- Runs ----

  predicate IsRun(cfg: Config, st: State, steps: seq<Step>)
    decreases |steps|
  {
    steps == [] || (Enabled(cfg, st, steps[0]) && IsRun(cfg, Next(cfg, st, steps[0]), steps[1..]))
  }

  function After(cfg: Config, st: State, steps: seq<Step>): State
    requires IsRun(cfg, st, steps)
    decreases |steps|
  {
    if steps == [] then st else After(cfg, Next(cfg, st, steps[0]), steps[1..])
  }
}
