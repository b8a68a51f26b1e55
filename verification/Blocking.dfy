/** When the server can no longer move: src/server.cpp's spin on the only thread that runs handlers. */
module Blocking {
  import opened StatDb
  import IpText
  import Net
  import opened Lifecycle
  import opened Phases

  /** The pool task has not armed a read yet, or is already destroying the session: it can still lower the counter. */
  predicate CanStillEnd(s: Sess) {
    s.pool.Handshaking? || s.pool.Ready? || s.pool.Destroying?
  }

  /** The guard of start_accept is spinning, and no session but the one its caller holds can still lower the counter. */
  ghost predicate Stuck(cfg: Config, st: State) {
    && st.io.Spinning? && Full(cfg, st.sessions)
    && forall d :: 0 <= d < |st.ss| && d != st.io.c ==> !CanStillEnd(st.ss[d])
  }

  /** Everything that was relayed to a client or a destination. */
  ghost predicate SameDelivered(a: State, b: State) {
    && |a.ss| == |b.ss|
    && forall c :: 0 <= c < |a.ss| ==>
      a.ss[c].up.delivered == b.ss[c].up.delivered && a.ss[c].down.delivered == b.ss[c].down.delivered
      && a.ss[c].accepted == b.ss[c].accepted && a.ss[c].isClosed == b.ss[c].isClosed
  }

  lemma StuckStep(cfg: Config, st: State, step: Step)
    requires AllHold(st) && Stuck(cfg, st) && Enabled(cfg, st, step)
    ensures var next := Next(cfg, st, step);
      next.io == st.io && next.sessions == st.sessions && Stuck(cfg, next) && SameDelivered(st, next)
  {
    var next := Next(cfg, st, step);
    var c := Changed(st, step);
    ChangesOne(cfg, st, step);
    assert Holds(st.ss[c], RoleOf(st.io, st.pending, c));
  }

  /** From a stuck state every later state has the same spinning thread: no accept completes, no session closes, and no
      byte is relayed to any client or destination again. */
  lemma {:induction false} StuckForever(cfg: Config, st: State, steps: seq<Step>)
    requires AllHold(st) && Stuck(cfg, st) && IsRun(cfg, st, steps)
    ensures var next := After(cfg, st, steps);
      next.io == st.io && next.sessions == st.sessions && Stuck(cfg, next) && SameDelivered(st, next)
    decreases |steps|
  {
    if steps == [] {
    } else {
      StepHolds(cfg, st, steps[0]);
      StuckStep(cfg, st, steps[0]);
      StuckForever(cfg, Next(cfg, st, steps[0]), steps[1..]);
    }
  }

  predicate NoAcceptFails(steps: seq<Step>) { forall i :: 0 <= i < |steps| ==> !steps[i].AcceptError? }

  /** The sessions but `d` are as they were; there may be new ones. */
  ghost predicate OthersStay(st: State, next: State, d: nat) {
    |st.ss| <= |next.ss| && forall k :: 0 <= k < |st.ss| && k != d ==> next.ss[k] == st.ss[k]
  }

  /** The rest of a destructor running on a pool thread. */
  lemma PoolCloses(cfg: Config, st: State, d: nat) returns (steps: seq<Step>)
    requires d < |st.ss| && st.ss[d].pool.Destroying?
    ensures IsRun(cfg, st, steps) && NoAcceptFails(steps) && d < |After(cfg, st, steps).ss|
    ensures After(cfg, st, steps).ss[d].dec
    ensures After(cfg, st, steps).io == st.io && After(cfg, st, steps).sessions == st.sessions - 1
    ensures OthersStay(st, After(cfg, st, steps), d) && |After(cfg, st, steps).ss| == |st.ss|
    decreases if st.ss[d].pool.pc.ToShut? then 2 else if st.ss[d].pool.pc.ToCloseRow? then 1 else 0
  {
    var step := ClosePool(d, false);
    var next := Next(cfg, st, step);
    if st.ss[d].pool.pc.ToDecrement? {
      Cons(cfg, st, step, []);
      steps := [step] + [];
    } else {
      var rest := PoolCloses(cfg, next, d);
      Cons(cfg, st, step, rest);
      steps := [step] + rest;
    }
  }

  lemma Destroyed(cfg: Config, st: State, d: nat) returns (steps: seq<Step>)
    requires AllHold(st) && st.io.Spinning? && Full(cfg, st.sessions) && d < |st.ss| && st.ss[d].pool.Destroying?
    ensures IsRun(cfg, st, steps) && NoAcceptFails(steps)
    ensures After(cfg, st, steps).io == Returning(st.io.c) && After(cfg, st, steps).sessions == st.sessions - 1
    ensures OthersStay(st, After(cfg, st, steps), d)
  {
    var first := PoolCloses(cfg, st, d);
    Cons(cfg, After(cfg, st, first), Proceed, []);
    RunAppend(cfg, st, first, [Proceed] + []);
    steps := first + ([Proceed] + []);
  }

  /** Another session that can still end, ends, and lets the guard go. */
  lemma OneEnds(cfg: Config, st: State, d: nat) returns (steps: seq<Step>)
    requires AllHold(st) && st.io.Spinning? && Full(cfg, st.sessions)
    requires d < |st.ss| && d != st.io.c && CanStillEnd(st.ss[d])
    ensures IsRun(cfg, st, steps) && NoAcceptFails(steps)
    ensures After(cfg, st, steps).io == Returning(st.io.c) && After(cfg, st, steps).sessions == st.sessions - 1
    ensures OthersStay(st, After(cfg, st, steps), d)
  {
    if st.ss[d].pool.Destroying? {
      steps := Destroyed(cfg, st, d);
    } else {
      assert HoldsAt(st, d);
      StepHolds(cfg, st, PoolEnd(d));
      var rest := Destroyed(cfg, Next(cfg, st, PoolEnd(d)), d);
      Cons(cfg, st, PoolEnd(d), rest);
      steps := [PoolEnd(d)] + rest;
    }
  }

  /** The exact description: in a reachable state with the guard spinning, some continuation leaves the guard if and
      only if another session has not armed a read yet or is being destroyed by its pool task. */
  lemma SpinEndsIff(cfg: Config, table: Table, before: seq<Step>)
    requires IsRun(cfg, Initial(table), before)
    requires var st := After(cfg, Initial(table), before); st.io.Spinning? && Full(cfg, st.sessions)
    ensures var st := After(cfg, Initial(table), before);
      (exists steps :: IsRun(cfg, st, steps) && !After(cfg, st, steps).io.Spinning?)
      <==> (exists d :: 0 <= d < |st.ss| && d != st.io.c && CanStillEnd(st.ss[d]))
  {
    InitialHolds(cfg, table);
    RunKeeps(cfg, Initial(table), before);
    var st := After(cfg, Initial(table), before);
    if d: nat :| 0 <= d < |st.ss| && d != st.io.c && CanStillEnd(st.ss[d]) {
      var steps := OneEnds(cfg, st, d);
      assert !After(cfg, st, steps).io.Spinning?;
    } else {
      forall steps | IsRun(cfg, st, steps) ensures After(cfg, st, steps).io.Spinning? {
        StuckForever(cfg, st, steps);
      }
    }
  }

  /** With a limit of one, the first successful accept, if none failed before it, blocks the server forever. */
  lemma LimitOneBlocks(cfg: Config, table: Table, peer: Net.Peer, stream: seq<IpText.Byte>, steps: seq<Step>)
    requires cfg.max == 1
    requires IsRun(cfg, Initial(table), [Accept(peer, stream)] + steps)
    ensures var next := After(cfg, Initial(table), [Accept(peer, stream)] + steps);
      next.io == Spinning(0) && Stuck(cfg, next) && |next.ss| == 1 && next.ss[0].up.delivered == []
  {
    var st, step := Initial(table), Accept(peer, stream);
    assert ([step] + steps)[0] == step && ([step] + steps)[1..] == steps;
    InitialHolds(cfg, table);
    StepHolds(cfg, st, step);
    StuckForever(cfg, Next(cfg, st, step), steps);
  }

  /** In general: as soon as the server is full with every other session relaying or gone, it has stopped for good, the
      newly accepted session included. */
  lemma FullOfRelaysStops(cfg: Config, table: Table, before: seq<Step>, steps: seq<Step>)
    requires IsRun(cfg, Initial(table), before)
    requires var st := After(cfg, Initial(table), before);
      && st.io.Spinning? && Full(cfg, st.sessions)
      && (forall d :: 0 <= d < |st.ss| && d != st.io.c ==> !CanStillEnd(st.ss[d]))
      && IsRun(cfg, st, steps)
    ensures var st := After(cfg, Initial(table), before);
      After(cfg, st, steps).io == st.io && SameDelivered(st, After(cfg, st, steps))
  {
    InitialHolds(cfg, table);
    RunKeeps(cfg, Initial(table), before);
    StuckForever(cfg, After(cfg, Initial(table), before), steps);
  }
}
