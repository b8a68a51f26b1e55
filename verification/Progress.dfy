/** What can still happen: a handler closes its session exactly when it must, a session whose read has failed is closed,
    every byte that was sent can arrive, and without a limit everybody is let in. */
module Progress {
  import opened Text
  import opened IpText
  import opened StatDb
  import opened Net
  import opened Lifecycle
  import opened Phases
  import opened Admission
  import opened Blocking
  import opened Limit
  import Forwarding
  import Handshake

  // ---- One handler ----

  function Other(d: Dir): Dir { if d.Up? then Down else Up }

  /** The read failed or brought nothing, or what it brought cannot be forwarded. */
  predicate MustClose(op: Op, w: Write) { op.Error? || op == Done([]) || w.Broke? }

  /** A handler of a session that is not closed: close() begins exactly when it must; otherwise the bytes are at the
      other side and the next read of that direction is waiting. The other direction is left alone either way. */
  lemma HandlerClosesIff(cfg: Config, st: State, c: nat, d: Dir, w: Write, fault: bool)
    requires AllHold(st) && Enabled(cfg, st, Handle(c, d, w, fault)) && !st.ss[c].isClosed
    ensures var next := Next(cfg, st, Handle(c, d, w, fault));
      && |next.ss| == |st.ss| && next.ss[c].Get(Other(d)) == st.ss[c].Get(Other(d)) && next.sessions == st.sessions
      && var op, f := st.ss[c].Get(d).op, next.ss[c].Get(d);
         if MustClose(op, w) then next.io == Closing(c, ToShut) && next.ss[c].isClosed && f.op == Idle
         else
           && next.io == Running && !next.ss[c].isClosed && !next.ss[c].shut && f.op == Waiting
           && f.delivered == st.ss[c].Get(d).delivered + op.data && f.unread == st.ss[c].Get(d).unread
  {
    assert HoldsAt(st, c);
  }

  /** A handler of a session that is closed does nothing but end its read. */
  lemma HandlerOfClosed(cfg: Config, st: State, c: nat, d: Dir, w: Write, fault: bool)
    requires AllHold(st) && Enabled(cfg, st, Handle(c, d, w, fault)) && st.ss[c].isClosed
    ensures var next := Next(cfg, st, Handle(c, d, w, fault));
      && next.io == Running && next.sessions == st.sessions && next.table == st.table && |next.ss| == |st.ss|
      && next.ss[c].Get(d).op == Idle && next.ss[c].Get(d).delivered == st.ss[c].Get(d).delivered
  {
    assert HoldsAt(st, c);
    assert st.ss[c].Get(d).delivered + Prefix(st.ss[c].Get(d).op.Data(), 0) == st.ss[c].Get(d).delivered;
  }

  // ---- The world outside is free ----

  /** An accept can fail, or bring any client and any destination. */
  lemma AnybodyCanCome(cfg: Config, st: State, peer: Peer, stream: seq<Byte>)
    requires AllHold(st) && st.io.Running?
    ensures Enabled(cfg, st, AcceptError) && Enabled(cfg, st, Accept(peer, stream))
  {
  }

  /** A waiting read can fail, or bring any part of what is there that fits the buffer. */
  lemma AnyReadCanHappen(cfg: Config, st: State, c: nat, d: Dir, n: nat)
    requires AllHold(st) && c < |st.ss| && st.ss[c].Get(d).op.Waiting?
    ensures Enabled(cfg, st, Fail(c, d))
    ensures !st.ss[c].isClosed && 0 < n <= |st.ss[c].Get(d).unread| && n <= cfg.buffer ==>
      Enabled(cfg, st, Complete(c, d, n))
  {
    assert HoldsAt(st, c);
  }

  /** A handler can run as soon as the io thread is free; its write can succeed, or fail behind any part of the bytes. */
  lemma AnyWriteCanHappen(cfg: Config, st: State, c: nat, d: Dir, n: nat, fault: bool)
    requires AllHold(st) && c < |st.ss| && st.io.Running? && !st.ss[c].isClosed
    requires st.ss[c].Get(d).op.Done? || st.ss[c].Get(d).op.Error?
    ensures Enabled(cfg, st, Handle(c, d, Wrote, fault))
    ensures n < |st.ss[c].Get(d).op.Data()| ==> Enabled(cfg, st, Handle(c, d, Broke(n), fault))
  {
    assert HoldsAt(st, c);
  }

  /** A task can end in its handshake, and goes on, with or without a record, exactly when the client is admitted. */
  lemma AnyTaskCanHappen(cfg: Config, st: State, c: nat, a: Addresses, fault: bool)
    requires c < |st.ss| && st.ss[c].pool.Handshaking?
    ensures Enabled(cfg, st, PoolEnd(c))
    ensures Enabled(cfg, st, Greeted(c, a, fault))
      <==> exists g, payload :: Handshake.Greets(cfg.sv, st.ss[c].peer, g, payload)
  {
    var peer := st.ss[c].peer;
    match Handshake.Payload(cfg.sv, peer)
    case Some(payload) => Handshake.PayloadIff(cfg.sv, peer, payload);
    case None =>
      forall g, payload | Handshake.Greets(cfg.sv, peer, g, payload) ensures false {
        Handshake.GreetingAdmitted(cfg.sv, peer, g, payload);
      }
  }

  // ---- The io thread becomes free ----

  /** Not closed, with a read waiting or completed. */
  predicate Busy(s: Sess) { !s.isClosed && !Quiet(s) }

  lemma IoStepKeepsBusy(cfg: Config, st: State, c: nat)
    requires Kept(cfg, st) && !st.io.Running? && !(st.io.Spinning? && Full(cfg, st.sessions))
    ensures Enabled(cfg, st, IoStep(st.io)) && !IoStep(st.io).AcceptError?
    ensures var next := Next(cfg, st, IoStep(st.io));
      && Kept(cfg, next) && Left(next.io) < Left(st.io) && !next.io.Spinning?
      && (c < |st.ss| && Busy(st.ss[c]) ==> c < |next.ss| && next.ss[c] == st.ss[c])
  {
    StepKept(cfg, st, IoStep(st.io));
    assert HoldsAt(st, st.io.c);
  }

  /** Unless the guard has stopped, the io thread finishes what it is doing; a busy session `c` is not touched. */
  lemma {:induction false} GetsFree(cfg: Config, st: State, c: nat) returns (steps: seq<Step>)
    requires Kept(cfg, st) && !(st.io.Spinning? && Full(cfg, st.sessions))
    ensures Follows(cfg, st, steps) && Kept(cfg, After(cfg, st, steps)) && After(cfg, st, steps).io.Running?
    ensures var next := After(cfg, st, steps);
      c < |st.ss| && Busy(st.ss[c]) ==> c < |next.ss| && next.ss[c] == st.ss[c]
    decreases Left(st.io)
  {
    if st.io.Running? {
      steps := [];
    } else {
      IoStepKeepsBusy(cfg, st, c);
      var rest := GetsFree(cfg, Next(cfg, st, IoStep(st.io)), c);
      steps := [IoStep(st.io)] + rest;
      FollowsCons(cfg, st, IoStep(st.io), rest);
    }
  }

  /** If the guard has stopped, but not for good, another session ends first. */
  lemma GuardGoesOn(cfg: Config, st: State, c: nat) returns (steps: seq<Step>)
    requires Kept(cfg, st) && st.io.Spinning? && Full(cfg, st.sessions) && !Stuck(cfg, st)
    ensures Follows(cfg, st, steps) && Kept(cfg, After(cfg, st, steps)) && !After(cfg, st, steps).io.Spinning?
    ensures var next := After(cfg, st, steps);
      c < |st.ss| && Busy(st.ss[c]) ==> c < |next.ss| && next.ss[c] == st.ss[c]
  {
    var d: nat :| d < |st.ss| && d != st.io.c && CanStillEnd(st.ss[d]);
    steps := OneEnds(cfg, st, d);
    NoneFailed(steps);
    RunFailures(cfg, st, steps);
    assert HoldsAt(st, d);
  }

  /** A server that is not stuck can always become free. */
  lemma Frees(cfg: Config, st: State, c: nat) returns (steps: seq<Step>)
    requires Kept(cfg, st) && !Stuck(cfg, st)
    ensures Follows(cfg, st, steps) && Kept(cfg, After(cfg, st, steps)) && After(cfg, st, steps).io.Running?
    ensures var next := After(cfg, st, steps);
      c < |st.ss| && Busy(st.ss[c]) ==> c < |next.ss| && next.ss[c] == st.ss[c]
  {
    if st.io.Spinning? && Full(cfg, st.sessions) {
      var first := GuardGoesOn(cfg, st, c);
      var rest := GetsFree(cfg, After(cfg, st, first), c);
      steps := first + rest;
      JoinFollows(cfg, st, first, rest);
    } else {
      steps := GetsFree(cfg, st, c);
    }
  }

  // ---- A failed read closes its session ----

  /** All that close() does: both sockets are shut, the row is let go of, the session is counted out. */
  predicate ClosedForGood(s: Sess) { s.isClosed && s.shut && s.dec && s.ledger.rowId == 0 }

  lemma ClosesNow(cfg: Config, st: State, c: nat, d: Dir) returns (steps: seq<Step>)
    requires Kept(cfg, st) && st.io.Running? && c < |st.ss| && !st.ss[c].isClosed && st.ss[c].Get(d).op.Error?
    ensures Follows(cfg, st, steps)
    ensures var next := After(cfg, st, steps);
      c < |next.ss| && ClosedForGood(next.ss[c]) && next.io.Running? && next.sessions == st.sessions - 1
  {
    var step := Handle(c, d, Wrote, false);
    HandlerClosesIff(cfg, st, c, d, Wrote, false);
    StepKept(cfg, st, step);
    var mid := Next(cfg, st, step);
    var closing := IoCloses(cfg, mid);
    NoneFailed(closing);
    RunFailures(cfg, mid, closing);
    assert HoldsAt(After(cfg, mid, closing), c);
    steps := [step] + closing;
    FollowsCons(cfg, st, step, closing);
  }

  /** A session whose read has failed can be closed if and only if the guard has not stopped for good; and then it is
      closed for good. */
  lemma FailedReadClosesIff(cfg: Config, table: Table, before: seq<Step>, c: nat, d: Dir)
    requires IsRun(cfg, Initial(table), before) && c < |After(cfg, Initial(table), before).ss|
    requires var s := After(cfg, Initial(table), before).ss[c]; !s.isClosed && s.Get(d).op.Error?
    ensures var st := After(cfg, Initial(table), before);
      && (!Stuck(cfg, st) ==> exists steps :: (Follows(cfg, st, steps) && c < |After(cfg, st, steps).ss|
                                              && ClosedForGood(After(cfg, st, steps).ss[c])))
      && (Stuck(cfg, st) ==> forall steps :: Follows(cfg, st, steps) ==>
                                               c < |After(cfg, st, steps).ss| && !After(cfg, st, steps).ss[c].isClosed)
  {
    var st := After(cfg, Initial(table), before);
    Reached(cfg, table, before);
    if Stuck(cfg, st) {
      forall steps | Follows(cfg, st, steps)
        ensures c < |After(cfg, st, steps).ss| && !After(cfg, st, steps).ss[c].isClosed
      {
        StuckForever(cfg, st, steps);
      }
    } else {
      var first := Frees(cfg, st, c);
      var rest := ClosesNow(cfg, After(cfg, st, first), c, d);
      JoinFollows(cfg, st, first, rest);
      assert ClosedForGood(After(cfg, st, first + rest).ss[c]);
    }
  }

  // ---- Every byte can arrive ----

  /** One byte has been relayed, and the next read waits. */
  predicate TookByte(s: Sess, t: Sess, d: Dir) {
    var f, g := s.Get(d), t.Get(d);
    && !t.isClosed && t.Get(Other(d)) == s.Get(Other(d))
    && f.unread != [] && g.delivered == f.delivered + [f.unread[0]] && g.unread == f.unread[1..] && g.op.Waiting?
  }

  /** All bytes have. */
  predicate TookAll(s: Sess, t: Sess, d: Dir) {
    !t.isClosed && t.Get(Other(d)) == s.Get(Other(d)) && t.Get(d).delivered == s.Get(d).delivered + s.Get(d).unread
  }

  lemma TakesAll(s: Sess, m: Sess, t: Sess, d: Dir)
    requires TookByte(s, m, d) && TookAll(m, t, d)
    ensures TookAll(s, t, d)
  {
    var f := s.Get(d);
    assert f.delivered + [f.unread[0]] + f.unread[1..] == f.delivered + f.unread;
  }

  lemma ByteArrives(cfg: Config, st: State, c: nat, d: Dir) returns (steps: seq<Step>)
    requires Kept(cfg, st) && st.io.Running? && cfg.buffer > 0 && c < |st.ss| && !st.ss[c].isClosed
    requires st.ss[c].Get(d).op.Waiting? && st.ss[c].Get(d).unread != []
    ensures Follows(cfg, st, steps) && Kept(cfg, After(cfg, st, steps)) && After(cfg, st, steps).io.Running?
    ensures c < |After(cfg, st, steps).ss| && TookByte(st.ss[c], After(cfg, st, steps).ss[c], d)
  {
    assert HoldsAt(st, c);
    var read := Complete(c, d, 1);
    var mid := Next(cfg, st, read);
    StepKept(cfg, st, read);
    var handle := Handle(c, d, Wrote, false);
    assert st.ss[c].Get(d).unread[..1] == [st.ss[c].Get(d).unread[0]];
    HandlerClosesIff(cfg, mid, c, d, Wrote, false);
    StepKept(cfg, mid, handle);
    FollowsCons(cfg, mid, handle, []);
    FollowsCons(cfg, st, read, [handle] + []);
    steps := [read] + ([handle] + []);
  }

  lemma {:induction false} AllArrives(cfg: Config, st: State, c: nat, d: Dir) returns (steps: seq<Step>)
    requires Kept(cfg, st) && st.io.Running? && cfg.buffer > 0 && c < |st.ss| && !st.ss[c].isClosed
    requires st.ss[c].Get(d).op.Waiting?
    ensures Follows(cfg, st, steps) && Kept(cfg, After(cfg, st, steps)) && After(cfg, st, steps).io.Running?
    ensures c < |After(cfg, st, steps).ss| && TookAll(st.ss[c], After(cfg, st, steps).ss[c], d)
    decreases |st.ss[c].Get(d).unread|
  {
    if st.ss[c].Get(d).unread == [] {
      steps := [];
      assert st.ss[c].Get(d).delivered + [] == st.ss[c].Get(d).delivered;
    } else {
      var first := ByteArrives(cfg, st, c, d);
      var mid := After(cfg, st, first);
      var rest := AllArrives(cfg, mid, c, d);
      steps := first + rest;
      JoinFollows(cfg, st, first, rest);
      TakesAll(st.ss[c], mid.ss[c], After(cfg, mid, rest).ss[c], d);
    }
  }

  function Whole(s: Sess, d: Dir): seq<Byte> { if d.Up? then s.payload else s.stream }

  lemma WaitingFlow(s: Sess, d: Dir, buffer: nat)
    requires Forwarding.FlowsOk(s, buffer) && !s.isClosed && s.Get(d).op.Waiting?
    ensures s.Get(d).delivered + s.Get(d).unread == Whole(s, d)
  {
    assert s.Get(d).delivered + [] + s.Get(d).unread == s.Get(d).delivered + s.Get(d).unread;
  }

  lemma WaitingArrives(cfg: Config, st: State, c: nat, d: Dir) returns (steps: seq<Step>)
    requires Kept(cfg, st) && st.io.Running? && cfg.buffer > 0 && c < |st.ss| && !st.ss[c].isClosed
    requires Forwarding.FlowsOk(st.ss[c], cfg.buffer) && st.ss[c].Get(d).op.Waiting?
    ensures Follows(cfg, st, steps) && c < |After(cfg, st, steps).ss|
    ensures After(cfg, st, steps).ss[c].Get(d).delivered == Whole(st.ss[c], d)
  {
    WaitingFlow(st.ss[c], d, cfg.buffer);
    steps := AllArrives(cfg, st, c, d);
  }

  lemma CompletedArrives(cfg: Config, st: State, c: nat, d: Dir) returns (steps: seq<Step>)
    requires Kept(cfg, st) && st.io.Running? && cfg.buffer > 0 && c < |st.ss| && !st.ss[c].isClosed
    requires Forwarding.FlowsOk(st.ss[c], cfg.buffer)
    requires var op := st.ss[c].Get(d).op; op.Done? && op.data != []
    ensures Follows(cfg, st, steps) && c < |After(cfg, st, steps).ss|
    ensures After(cfg, st, steps).ss[c].Get(d).delivered == Whole(st.ss[c], d)
  {
    var step := Handle(c, d, Wrote, false);
    assert HoldsAt(st, c);
    HandlerClosesIff(cfg, st, c, d, Wrote, false);
    StepKept(cfg, st, step);
    var rest := AllArrives(cfg, Next(cfg, st, step), c, d);
    steps := [step] + rest;
    FollowsCons(cfg, st, step, rest);
  }

  lemma ArrivesWhenFree(cfg: Config, st: State, c: nat, d: Dir) returns (steps: seq<Step>)
    requires Kept(cfg, st) && st.io.Running? && cfg.buffer > 0 && c < |st.ss| && !st.ss[c].isClosed
    requires Forwarding.FlowsOk(st.ss[c], cfg.buffer)
    requires var op := st.ss[c].Get(d).op; op.Waiting? || (op.Done? && op.data != [])
    ensures Follows(cfg, st, steps) && c < |After(cfg, st, steps).ss|
    ensures After(cfg, st, steps).ss[c].Get(d).delivered == Whole(st.ss[c], d)
  {
    if st.ss[c].Get(d).op.Waiting? {
      steps := WaitingArrives(cfg, st, c, d);
    } else {
      steps := CompletedArrives(cfg, st, c, d);
    }
  }

  /** In every reachable state, for every session that is not closed and every direction whose read has not failed: all
      that its source sends can still be delivered, to the last byte, if and only if the guard has not stopped for good
      or all of it has been delivered already. */
  lemma EverythingCanArriveIff(cfg: Config, table: Table, before: seq<Step>, c: nat, d: Dir)
    requires IsRun(cfg, Initial(table), before) && cfg.buffer > 0 && c < |After(cfg, Initial(table), before).ss|
    requires var s := After(cfg, Initial(table), before).ss[c];
      !s.isClosed && (s.Get(d).op.Waiting? || (s.Get(d).op.Done? && s.Get(d).op.data != []))
    ensures var st := After(cfg, Initial(table), before);
      (exists steps :: (Follows(cfg, st, steps) && c < |After(cfg, st, steps).ss|
                        && After(cfg, st, steps).ss[c].Get(d).delivered == Whole(st.ss[c], d)))
      <==> !Stuck(cfg, st) || st.ss[c].Get(d).delivered == Whole(st.ss[c], d)
  {
    var st := After(cfg, Initial(table), before);
    Reached(cfg, table, before);
    Forwarding.Reached(cfg, table, before, c);
    if Stuck(cfg, st) {
      forall steps | Follows(cfg, st, steps) && c < |After(cfg, st, steps).ss|
        ensures After(cfg, st, steps).ss[c].Get(d).delivered == st.ss[c].Get(d).delivered
      {
        StuckForever(cfg, st, steps);
      }
      assert Follows(cfg, st, []);
    } else {
      var first := Frees(cfg, st, c);
      var rest := ArrivesWhenFree(cfg, After(cfg, st, first), c, d);
      JoinFollows(cfg, st, first, rest);
      assert After(cfg, st, first + rest).ss[c].Get(d).delivered == Whole(st.ss[c], d);
    }
  }

  // ---- A handshake that fails ----

  /** A task that ends before it has started a read closes its session by itself, whatever the io thread does, unless
      the accept frame still holds the session. */
  lemma FailedTaskCloses(cfg: Config, st: State, c: nat) returns (steps: seq<Step>)
    requires Kept(cfg, st) && c < |st.ss| && (st.ss[c].pool.Handshaking? || st.ss[c].pool.Ready?)
    requires st.io != Spinning(c) && st.io != Returning(c)
    ensures Follows(cfg, st, steps)
    ensures var next := After(cfg, st, steps);
      c < |next.ss| && ClosedForGood(next.ss[c]) && next.io == st.io && next.sessions == st.sessions - 1
  {
    assert HoldsAt(st, c);
    var step := PoolEnd(c);
    var mid := Next(cfg, st, step);
    var rest := PoolCloses(cfg, mid, c);
    StepKept(cfg, st, step);
    NoneFailed(rest);
    RunFailures(cfg, mid, rest);
    assert HoldsAt(After(cfg, mid, rest), c);
    steps := [step] + rest;
    FollowsCons(cfg, st, step, rest);
  }

  // ---- An admitted client is served ----

  /** The session as its task leaves it: both reads wait, nothing has been relayed. */
  predicate Relaying(s: Sess, payload: seq<Byte>, stream: seq<Byte>) {
    && s.up == Flow(payload, Waiting, [], [], false) && s.down == Flow(stream, Waiting, [], [], false)
    && !s.isClosed && !s.shut && s.payload == payload && s.stream == stream
  }

  /** The session as an accept leaves it: its task can begin, nothing is read yet. */
  ghost predicate LetIn(s: Sess, peer: Peer, stream: seq<Byte>) {
    && s.pool.Handshaking? && s.peer == peer && s.stream == stream && !s.isClosed && !s.shut
    && s.up == NO_FLOW && s.down == NO_FLOW.(unread := stream)
  }

  lemma IsLetIn(cfg: Config, st: State, peer: Peer, stream: seq<Byte>) returns (steps: seq<Step>)
    requires Kept(cfg, st) && Forwarding.AllForward(cfg, st) && st.io.Running? && !Full(cfg, st.sessions + 1)
    ensures Follows(cfg, st, steps) && Kept(cfg, After(cfg, st, steps)) && After(cfg, st, steps).io.Running?
    ensures var c, next := |st.ss| - 1, After(cfg, st, steps);
      && 0 <= c < |next.ss| && next.sessions == st.sessions + 1
      && LetIn(next.ss[c], peer, stream)
  {
    var accept := Accept(peer, stream);
    var s1 := Next(cfg, st, accept);
    var s2 := Next(cfg, s1, Proceed);
    assert HoldsAt(st, |st.ss| - 1) && Forwarding.FlowsOk(st.ss[|st.ss| - 1], cfg.buffer);
    StepKept(cfg, st, accept);
    StepKept(cfg, s1, Proceed);
    StepKept(cfg, s2, Return);
    FollowsCons(cfg, s2, Return, []);
    FollowsCons(cfg, s1, Proceed, [Return] + []);
    FollowsCons(cfg, st, accept, [Proceed] + ([Return] + []));
    steps := [accept] + ([Proceed] + ([Return] + []));
  }

  lemma ReadsBegin(cfg: Config, st: State, c: nat) returns (steps: seq<Step>)
    requires Kept(cfg, st) && st.io.Running? && c < |st.ss| && st.ss[c].pool.Ready?
    requires !st.ss[c].isClosed && !st.ss[c].shut
    ensures Follows(cfg, st, steps) && Kept(cfg, After(cfg, st, steps)) && After(cfg, st, steps).io.Running?
    ensures c < |After(cfg, st, steps).ss|
    ensures var s, t := st.ss[c], After(cfg, st, steps).ss[c];
      t == s.(up := s.up.(op := Waiting), down := s.down.(op := Waiting), pool := Finished)
  {
    var next := Next(cfg, st, ArmClient(c));
    StepKept(cfg, st, ArmClient(c));
    StepKept(cfg, next, ArmServer(c));
    FollowsCons(cfg, next, ArmServer(c), []);
    FollowsCons(cfg, st, ArmClient(c), [ArmServer(c)] + []);
    steps := [ArmClient(c)] + ([ArmServer(c)] + []);
  }

  lemma IsGreeted(cfg: Config, st: State, c: nat, a: Addresses, payload: seq<Byte>) returns (steps: seq<Step>)
    requires Kept(cfg, st) && st.io.Running? && c < |st.ss| && LetIn(st.ss[c], st.ss[c].peer, st.ss[c].stream)
    requires Handshake.Payload(cfg.sv, st.ss[c].peer) == Some(payload)
    ensures Follows(cfg, st, steps) && Kept(cfg, After(cfg, st, steps)) && After(cfg, st, steps).io.Running?
    ensures c < |After(cfg, st, steps).ss| && Relaying(After(cfg, st, steps).ss[c], payload, st.ss[c].stream)
  {
    var greet := Greeted(c, a, false);
    StepKept(cfg, st, greet);
    var rest := ReadsBegin(cfg, Next(cfg, st, greet), c);
    steps := [greet] + rest;
    FollowsCons(cfg, st, greet, rest);
  }

  lemma BothArrive(cfg: Config, st: State, c: nat, payload: seq<Byte>, stream: seq<Byte>) returns (steps: seq<Step>)
    requires Kept(cfg, st) && st.io.Running? && cfg.buffer > 0 && c < |st.ss| && Relaying(st.ss[c], payload, stream)
    ensures Follows(cfg, st, steps) && c < |After(cfg, st, steps).ss|
    ensures After(cfg, st, steps).ss[c].up.delivered == payload && After(cfg, st, steps).ss[c].down.delivered == stream
  {
    var first := AllArrives(cfg, st, c, Up);
    var mid := After(cfg, st, first);
    assert [] + payload == payload && [] + stream == stream;
    assert mid.ss[c].Get(Other(Up)) == mid.ss[c].down && st.ss[c].Get(Other(Up)) == st.ss[c].down;
    var rest := AllArrives(cfg, mid, c, Down);
    assert After(cfg, mid, rest).ss[c].Get(Other(Down)) == After(cfg, mid, rest).ss[c].up;
    steps := first + rest;
    JoinFollows(cfg, st, first, rest);
  }

  lemma GreetedIsServed(cfg: Config, st: State, c: nat, a: Addresses, payload: seq<Byte>) returns (steps: seq<Step>)
    requires Kept(cfg, st) && st.io.Running? && cfg.buffer > 0
    requires c < |st.ss| && LetIn(st.ss[c], st.ss[c].peer, st.ss[c].stream)
    requires Handshake.Payload(cfg.sv, st.ss[c].peer) == Some(payload)
    ensures Follows(cfg, st, steps) && c < |After(cfg, st, steps).ss|
    ensures After(cfg, st, steps).ss[c].up.delivered == payload
    ensures After(cfg, st, steps).ss[c].down.delivered == st.ss[c].stream
  {
    var first := IsGreeted(cfg, st, c, a, payload);
    var rest := BothArrive(cfg, After(cfg, st, first), c, payload, st.ss[c].stream);
    steps := first + rest;
    JoinFollows(cfg, st, first, rest);
  }

  lemma ClientIsServed(
    cfg: Config, st: State, peer: Peer, stream: seq<Byte>, payload: seq<Byte>, a: Addresses)
    returns (steps: seq<Step>)
    requires Kept(cfg, st) && Forwarding.AllForward(cfg, st) && cfg.buffer > 0
    requires Handshake.Payload(cfg.sv, peer) == Some(payload) && st.io.Running? && !Full(cfg, st.sessions + 1)
    ensures Follows(cfg, st, steps) && 0 < |st.ss| <= |After(cfg, st, steps).ss|
    ensures After(cfg, st, steps).ss[|st.ss| - 1].up.delivered == payload
    ensures After(cfg, st, steps).ss[|st.ss| - 1].down.delivered == stream
  {
    var first := IsLetIn(cfg, st, peer, stream);
    var rest := GreetedIsServed(cfg, After(cfg, st, first), |st.ss| - 1, a, payload);
    steps := first + rest;
    JoinFollows(cfg, st, first, rest);
  }

  /** The session accepted first: its destination has the payload, its client the stream. */
  ghost predicate Serves(cfg: Config, st: State, steps: seq<Step>, payload: seq<Byte>, stream: seq<Byte>) {
    && Follows(cfg, st, steps) && 0 < |st.ss| <= |After(cfg, st, steps).ss|
    && var s := After(cfg, st, steps).ss[|st.ss| - 1]; s.up.delivered == payload && s.down.delivered == stream
  }

  lemma CanBeServed(cfg: Config, st: State, peer: Peer, stream: seq<Byte>, payload: seq<Byte>)
    requires Kept(cfg, st) && Forwarding.AllForward(cfg, st) && cfg.buffer > 0
    requires Handshake.Payload(cfg.sv, peer) == Some(payload)
    requires st.io.Running? && (cfg.max == 0 || (st.sessions + 1) % TWO64 != cfg.max)
    ensures exists steps :: Serves(cfg, st, steps, payload, stream)
  {
    var steps := ClientIsServed(cfg, st, peer, stream, payload, Addresses("", "", "", "", ""));
    assert Serves(cfg, st, steps, payload, stream);
  }

  lemma PayloadIsServed(
    cfg: Config, table: Table, before: seq<Step>, peer: Peer, stream: seq<Byte>, payload: seq<Byte>)
    requires IsRun(cfg, Initial(table), before) && cfg.buffer > 0
    requires Handshake.Payload(cfg.sv, peer) == Some(payload)
    requires var st := After(cfg, Initial(table), before);
      st.io.Running? && (cfg.max == 0 || (st.sessions + 1) % TWO64 != cfg.max)
    ensures exists steps :: Serves(cfg, After(cfg, Initial(table), before), steps, payload, stream)
  {
    Reached(cfg, table, before);
    Forwarding.AllReached(cfg, table, before);
    CanBeServed(cfg, After(cfg, Initial(table), before), peer, stream, payload);
  }

  /** A client whose stream is an admitted greeting and a payload, at a free server that has room for one more: its
      payload can arrive at the destination to the last byte, and all that the destination sends at the client. */
  lemma AdmittedClientIsServed(
    cfg: Config, table: Table, before: seq<Step>, peer: Peer, stream: seq<Byte>, g: Handshake.Greeting,
    payload: seq<Byte>)
    requires IsRun(cfg, Initial(table), before) && cfg.buffer > 0 && Handshake.Greets(cfg.sv, peer, g, payload)
    requires var st := After(cfg, Initial(table), before);
      st.io.Running? && (cfg.max == 0 || (st.sessions + 1) % TWO64 != cfg.max)
    ensures exists steps :: Serves(cfg, After(cfg, Initial(table), before), steps, payload, stream)
  {
    Handshake.GreetingAdmitted(cfg.sv, peer, g, payload);
    PayloadIsServed(cfg, table, before, peer, stream, payload);
  }

  // ---- The guard ----

  /** In numbers: the guard lets go when there is no limit or the counter, modulo 2^64, is not the limit. */
  lemma GuardIff(cfg: Config, st: State)
    requires st.io.Spinning?
    ensures Enabled(cfg, st, Proceed) <==> cfg.max == 0 || st.sessions % 0x1_0000_0000_0000_0000 != cfg.max
  {
  }

  lemma {:induction false} MoreAreLetIn(cfg: Config, st: State, n: nat) returns (steps: seq<Step>)
    requires Kept(cfg, st) && st.io.Running? && cfg.max == 0
    ensures Follows(cfg, st, steps) && Kept(cfg, After(cfg, st, steps))
    ensures After(cfg, st, steps).io.Running? && After(cfg, st, steps).sessions == st.sessions + n
    decreases n
  {
    if n == 0 {
      steps := [];
    } else {
      var first := OneMore(cfg, st);
      RunFailures(cfg, st, first);
      var rest := MoreAreLetIn(cfg, After(cfg, st, first), n - 1);
      steps := first + rest;
      JoinFollows(cfg, st, first, rest);
    }
  }

  /** Without a limit the guard never waits, and behind every run as many sessions as one likes can be live. */
  lemma NoLimit(cfg: Config, table: Table, before: seq<Step>, n: nat)
    requires IsRun(cfg, Initial(table), before) && cfg.max == 0
    ensures var st := After(cfg, Initial(table), before);
      && (st.io.Spinning? ==> Enabled(cfg, st, Proceed))
      && exists steps :: Follows(cfg, st, steps) && Count(After(cfg, st, steps).ss, Live) >= n
  {
    var st := After(cfg, Initial(table), before);
    Reached(cfg, table, before);
    var first := Frees(cfg, st, 0);
    var free := After(cfg, st, first);
    var rest := MoreAreLetIn(cfg, free, if free.sessions < n then n - free.sessions else 0);
    JoinFollows(cfg, st, first, rest);
    LiveIsCounted(cfg, After(cfg, free, rest));
    assert Count(After(cfg, st, first + rest).ss, Live) >= n;
  }
}
