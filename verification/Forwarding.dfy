/** What the two relay loops deliver: the bytes of the payload, in order, none twice. */
module Forwarding {
  import opened Text
  import opened IpText
  import opened StatDb
  import opened Lifecycle
  import opened Phases
  import Handshake
  import Net

  /** As long as no write has failed, what was delivered, the one chunk in the buffer and what is still to be read make
      up the whole stream; after that, what was delivered is a prefix of it and the session is closed. */
  predicate FlowOk(f: Flow, whole: seq<Byte>, isClosed: bool, buffer: nat) {
    && f.acked <= f.delivered <= whole
    && |f.op.Data()| <= buffer
    && (if f.broken then isClosed else f.acked == f.delivered && f.delivered + f.op.Data() + f.unread == whole)
  }

  predicate FlowsOk(s: Sess, buffer: nat) {
    && FlowOk(s.up, s.payload, s.isClosed, buffer) && FlowOk(s.down, s.stream, s.isClosed, buffer)
    && (s.pool.NotPosted? ==> s.down == NO_FLOW && s.stream == [])
    && (s.pool.NotPosted? || s.pool.Handshaking? ==> s.up == NO_FLOW && s.payload == [])
  }

  /** What is relayed upwards is what the handshake left unread. */
  predicate Admits(cfg: Config, s: Sess) {
    s.payload != [] ==> Handshake.Payload(cfg.sv, s.peer) == Some(s.payload)
  }

  predicate AllForward(cfg: Config, st: State) {
    forall c :: 0 <= c < |st.ss| ==> FlowsOk(st.ss[c], cfg.buffer)
  }

  predicate AllAdmit(cfg: Config, st: State) {
    forall c :: 0 <= c < |st.ss| ==> Admits(cfg, st.ss[c])
  }

  // ---- One flow ----

  lemma FlowReads(f: Flow, whole: seq<Byte>, isClosed: bool, buffer: nat, n: nat)
    requires FlowOk(f, whole, isClosed, buffer) && f.op.Waiting? && n <= |f.unread| && n <= buffer && n < TWO64
    ensures FlowOk(f.(unread := f.unread[n..], op := Done(f.unread[..n])), whole, isClosed, buffer)
  {
  }

  /** A completed write empties the buffer into what was delivered. */
  lemma FlowWrote(f: Flow, whole: seq<Byte>, isClosed: bool, buffer: nat, op: Op)
    requires FlowOk(f, whole, isClosed, buffer) && !f.broken && op.Data() == []
    ensures var data := f.op.Data();
      FlowOk(f.(op := op, delivered := f.delivered + data, acked := f.acked + data), whole, isClosed, buffer)
  {
  }

  /** A failed one delivers a part of the buffer at most, and the session closes. */
  lemma FlowBroke(f: Flow, whole: seq<Byte>, isClosed: bool, buffer: nat, n: nat)
    requires FlowOk(f, whole, isClosed, buffer) && (f.broken ==> n == 0)
    ensures var after := f.(op := Idle, delivered := f.delivered + Prefix(f.op.Data(), n), broken := true);
      FlowOk(after, whole, true, buffer)
  {
  }

  // ---- One session ----

  lemma HandledForwards(s: Sess, buffer: nat, d: Dir, w: Write, table: Table, fault: bool)
    requires FlowsOk(s, buffer) && WritePossible(s, d, w) && (s.Get(d).op.Done? || s.Get(d).op.Error?)
    requires !s.pool.NotPosted? && !s.pool.Handshaking? && (s.Get(d).broken ==> s.shut)
    ensures var (t, close) := Handled(s, d, w, table, fault);
      FlowsOk(if close then t.(isClosed := true) else t, buffer) && t.isClosed == s.isClosed
  {
    var f := s.Get(d);
    var whole := if d.Up? then s.payload else s.stream;
    if f.op.Data() != [] {
      match w
      case Wrote => FlowWrote(f, whole, s.isClosed, buffer, Idle); FlowWrote(f, whole, s.isClosed, buffer, Waiting);
      case Broke(n) => FlowBroke(f, whole, s.isClosed, buffer, n);
    }
  }

  lemma OpensForwards(cfg: Config, st: State, step: Step)
    requires AllHold(st) && AllForward(cfg, st) && Enabled(cfg, st, step) && (step.Accept? || step.Greeted?)
    ensures var c := Changed(st, step); c < |Next(cfg, st, step).ss| && FlowsOk(Next(cfg, st, step).ss[c], cfg.buffer)
  {
  }

  lemma ReadForwards(cfg: Config, st: State, step: Step)
    requires AllHold(st) && AllForward(cfg, st) && Enabled(cfg, st, step) && step.Complete?
    ensures var c := Changed(st, step); c < |Next(cfg, st, step).ss| && FlowsOk(Next(cfg, st, step).ss[c], cfg.buffer)
  {
    var s, d := st.ss[step.c], step.d;
    assert Holds(s, RoleOf(st.io, st.pending, step.c));
    FlowReads(s.Get(d), if d.Up? then s.payload else s.stream, s.isClosed, cfg.buffer, step.n);
  }

  lemma FailForwards(cfg: Config, st: State, step: Step)
    requires AllHold(st) && AllForward(cfg, st) && Enabled(cfg, st, step) && (step.Fail? || step.ArmClient?)
    ensures var c := Changed(st, step); c < |Next(cfg, st, step).ss| && FlowsOk(Next(cfg, st, step).ss[c], cfg.buffer)
  {
  }

  lemma TaskForwards(cfg: Config, st: State, step: Step)
    requires AllHold(st) && AllForward(cfg, st) && Enabled(cfg, st, step) && (step.PoolEnd? || step.ArmServer?)
    ensures var c := Changed(st, step); c < |Next(cfg, st, step).ss| && FlowsOk(Next(cfg, st, step).ss[c], cfg.buffer)
  {
  }

  lemma SameBytes(s: Sess, t: Sess, buffer: nat)
    requires FlowsOk(s, buffer) && t.payload == s.payload && t.stream == s.stream && (s.isClosed ==> t.isClosed)
    requires t.up == s.up.(op := t.up.op) && t.up.op.Data() == s.up.op.Data()
    requires t.down == s.down.(op := t.down.op) && t.down.op.Data() == s.down.op.Data()
    requires (t.pool.NotPosted? ==> s.pool.NotPosted?) && (t.pool.Handshaking? ==> s.pool.Handshaking?)
    requires t.pool.NotPosted? || t.pool.Handshaking? ==> t.up == s.up && t.down == s.down
    ensures FlowsOk(t, buffer)
  {
  }

  /** The other steps leave every byte where it is. */
  lemma CloseForwards(cfg: Config, st: State, step: Step)
    requires AllHold(st) && AllForward(cfg, st) && Enabled(cfg, st, step)
    requires step.CloseIo? || step.ClosePool?
    ensures var c := Changed(st, step); c < |Next(cfg, st, step).ss| && FlowsOk(Next(cfg, st, step).ss[c], cfg.buffer)
  {
    var c := Changed(st, step);
    assert Holds(st.ss[c], RoleOf(st.io, st.pending, c));
    SameBytes(st.ss[c], Next(cfg, st, step).ss[c], cfg.buffer);
  }

  lemma ReturnForwards(cfg: Config, st: State, step: Step)
    requires AllHold(st) && AllForward(cfg, st) && Enabled(cfg, st, step)
    requires step.Return? || step.AcceptError?
    ensures var c := Changed(st, step); c < |Next(cfg, st, step).ss| && FlowsOk(Next(cfg, st, step).ss[c], cfg.buffer)
  {
    var c := Changed(st, step);
    assert Holds(st.ss[c], RoleOf(st.io, st.pending, c));
    SameBytes(st.ss[c], Next(cfg, st, step).ss[c], cfg.buffer);
  }

  lemma HandleForwards(cfg: Config, st: State, step: Step)
    requires AllHold(st) && AllForward(cfg, st) && Enabled(cfg, st, step) && step.Handle?
    ensures var c := Changed(st, step); c < |Next(cfg, st, step).ss| && FlowsOk(Next(cfg, st, step).ss[c], cfg.buffer)
  {
    var s := st.ss[step.c];
    assert Holds(s, RoleOf(st.io, st.pending, step.c));
    HandledForwards(s, cfg.buffer, step.d, step.w, st.table, step.fault);
  }

  lemma StepForwards(cfg: Config, st: State, step: Step)
    requires AllHold(st) && AllForward(cfg, st) && Enabled(cfg, st, step)
    ensures AllForward(cfg, Next(cfg, st, step))
  {
    if step.Proceed? {
      assert FlowsOk(NEW, cfg.buffer);
    } else {
      ChangesOne(cfg, st, step);
      if step.Handle? { HandleForwards(cfg, st, step); }
      else if step.Accept? || step.Greeted? { OpensForwards(cfg, st, step); }
      else if step.Complete? { ReadForwards(cfg, st, step); }
      else if step.CloseIo? || step.ClosePool? { CloseForwards(cfg, st, step); }
      else if step.Return? || step.AcceptError? { ReturnForwards(cfg, st, step); }
      else if step.Fail? || step.ArmClient? { FailForwards(cfg, st, step); }
      else { TaskForwards(cfg, st, step); }
    }
  }

  lemma OpensAdmits(cfg: Config, st: State, step: Step)
    requires AllHold(st) && AllForward(cfg, st) && Enabled(cfg, st, step) && (step.Accept? || step.Greeted?)
    ensures var c := Changed(st, step); c < |Next(cfg, st, step).ss| && Admits(cfg, Next(cfg, st, step).ss[c])
  {
  }

  lemma KeepsPeer(cfg: Config, st: State, step: Step)
    requires AllHold(st) && Enabled(cfg, st, step) && !step.Proceed? && !step.Accept? && !step.Greeted?
    ensures var c, next := Changed(st, step), Next(cfg, st, step);
      c < |st.ss| && c < |next.ss| && next.ss[c].payload == st.ss[c].payload && next.ss[c].peer == st.ss[c].peer
  {
  }

  lemma StepAdmits(cfg: Config, st: State, step: Step)
    requires AllHold(st) && AllForward(cfg, st) && AllAdmit(cfg, st) && Enabled(cfg, st, step)
    ensures AllAdmit(cfg, Next(cfg, st, step))
  {
    if !step.Proceed? {
      var c := Changed(st, step);
      ChangesOne(cfg, st, step);
      assert Admits(cfg, st.ss[c]);
      if step.Accept? || step.Greeted? { OpensAdmits(cfg, st, step); } else { KeepsPeer(cfg, st, step); }
    }
  }

  lemma {:induction false} RunForwards(cfg: Config, st: State, steps: seq<Step>)
    requires AllHold(st) && AllForward(cfg, st) && AllAdmit(cfg, st) && IsRun(cfg, st, steps)
    ensures AllForward(cfg, After(cfg, st, steps)) && AllAdmit(cfg, After(cfg, st, steps))
    decreases |steps|
  {
    if steps == [] {
    } else {
      StepHolds(cfg, st, steps[0]);
      StepForwards(cfg, st, steps[0]);
      StepAdmits(cfg, st, steps[0]);
      RunForwards(cfg, Next(cfg, st, steps[0]), steps[1..]);
    }
  }

  lemma Reached(cfg: Config, table: Table, steps: seq<Step>, c: nat)
    requires IsRun(cfg, Initial(table), steps) && c < |After(cfg, Initial(table), steps).ss|
    ensures var s := After(cfg, Initial(table), steps).ss[c]; FlowsOk(s, cfg.buffer) && Admits(cfg, s)
  {
    InitialHolds(cfg, table);
    RunForwards(cfg, Initial(table), steps);
  }


  lemma AllReached(cfg: Config, table: Table, steps: seq<Step>)
    requires IsRun(cfg, Initial(table), steps)
    ensures AllForward(cfg, After(cfg, Initial(table), steps))
  {
    InitialHolds(cfg, table);
    RunForwards(cfg, Initial(table), steps);
  }
  /** `delivered` is what a source of `whole` has been forwarded: in order, nothing added, and, unless a write has
      failed, all that was read but one buffer at most. */
  ghost predicate Forwarded(f: Flow, whole: seq<Byte>, buffer: nat) {
    && f.delivered <= whole
    && (!f.broken ==> exists chunk :: |chunk| <= buffer && f.delivered + chunk + f.unread == whole)
  }

  lemma FlowForwarded(f: Flow, whole: seq<Byte>, isClosed: bool, buffer: nat)
    requires FlowOk(f, whole, isClosed, buffer)
    ensures Forwarded(f, whole, buffer)
  {
  }

  /** End to end, for every client stream, chunking and interleaving: if the client sends the transcript of an admitted
      greeting and then a payload, the destination has been forwarded that payload, or the relay has not begun. */
  lemma EndToEnd(cfg: Config, table: Table, steps: seq<Step>, c: nat, g: Handshake.Greeting, payload: seq<Byte>)
    requires IsRun(cfg, Initial(table), steps) && c < |After(cfg, Initial(table), steps).ss|
    requires Handshake.Greets(cfg.sv, After(cfg, Initial(table), steps).ss[c].peer, g, payload)
    ensures var s := After(cfg, Initial(table), steps).ss[c];
      s.up.delivered <= payload && (s.payload == [] || Forwarded(s.up, payload, cfg.buffer))
  {
    Reached(cfg, table, steps, c);
    var s := After(cfg, Initial(table), steps).ss[c];
    Handshake.GreetingAdmitted(cfg.sv, s.peer, g, payload);
    FlowForwarded(s.up, s.payload, s.isClosed, cfg.buffer);
  }

  /** A client that is not admitted reaches no destination: nothing of what it sends is delivered. */
  lemma NothingWithoutGreeting(cfg: Config, table: Table, steps: seq<Step>, c: nat)
    requires IsRun(cfg, Initial(table), steps) && c < |After(cfg, Initial(table), steps).ss|
    requires forall g, p :: !Handshake.Greets(cfg.sv, After(cfg, Initial(table), steps).ss[c].peer, g, p)
    ensures After(cfg, Initial(table), steps).ss[c].up.delivered == []
  {
    Reached(cfg, table, steps, c);
    var s := After(cfg, Initial(table), steps).ss[c];
    if s.payload != [] { Handshake.PayloadIff(cfg.sv, s.peer, s.payload); }
  }

  /** The other direction: the client has been forwarded what the destination sends. */
  lemma EndToEndDown(cfg: Config, table: Table, steps: seq<Step>, c: nat)
    requires IsRun(cfg, Initial(table), steps) && c < |After(cfg, Initial(table), steps).ss|
    ensures var s := After(cfg, Initial(table), steps).ss[c]; Forwarded(s.down, s.stream, cfg.buffer)
  {
    Reached(cfg, table, steps, c);
    var s := After(cfg, Initial(table), steps).ss[c];
    FlowForwarded(s.down, s.stream, s.isClosed, cfg.buffer);
  }

  // ---- From the accept on ----

  /** The session is the one an accept has filled with this client and this destination. */
  ghost predicate IsOf(s: Sess, peer: Net.Peer, stream: seq<Byte>) {
    s.accepted && s.peer == peer && s.stream == stream
  }

  lemma KeepsStream(cfg: Config, st: State, step: Step)
    requires AllHold(st) && Enabled(cfg, st, step) && !step.Proceed? && !step.Accept?
    ensures var c, next := Changed(st, step), Next(cfg, st, step);
      && c < |st.ss| && c < |next.ss| && next.ss[c].accepted == st.ss[c].accepted
      && next.ss[c].peer == st.ss[c].peer && next.ss[c].stream == st.ss[c].stream
  {
  }

  lemma StaysOf(cfg: Config, st: State, step: Step, c: nat, peer: Net.Peer, stream: seq<Byte>)
    requires AllHold(st) && Enabled(cfg, st, step) && c < |st.ss| && IsOf(st.ss[c], peer, stream)
    ensures c < |Next(cfg, st, step).ss| && IsOf(Next(cfg, st, step).ss[c], peer, stream)
  {
    if !step.Proceed? {
      ChangesOne(cfg, st, step);
      if step.Accept? { assert HoldsAt(st, c); } else { KeepsStream(cfg, st, step); }
    }
  }

  lemma {:induction false} RunStaysOf(
    cfg: Config, st: State, steps: seq<Step>, c: nat, peer: Net.Peer, stream: seq<Byte>)
    requires AllHold(st) && IsRun(cfg, st, steps) && c < |st.ss| && IsOf(st.ss[c], peer, stream)
    ensures c < |After(cfg, st, steps).ss| && IsOf(After(cfg, st, steps).ss[c], peer, stream)
    decreases |steps|
  {
    if steps == [] {
    } else {
      StepHolds(cfg, st, steps[0]);
      StaysOf(cfg, st, steps[0], c, peer, stream);
      RunStaysOf(cfg, Next(cfg, st, steps[0]), steps[1..], c, peer, stream);
    }
  }

  lemma AcceptFills(cfg: Config, st: State, peer: Net.Peer, stream: seq<Byte>, steps: seq<Step>)
    requires AllHold(st) && IsRun(cfg, st, [Accept(peer, stream)] + steps)
    ensures var next := After(cfg, st, [Accept(peer, stream)] + steps);
      0 < |st.ss| <= |next.ss| && IsOf(next.ss[|st.ss| - 1], peer, stream)
  {
    var step := Accept(peer, stream);
    assert ([step] + steps)[0] == step && ([step] + steps)[1..] == steps;
    StepHolds(cfg, st, step);
    RunStaysOf(cfg, Next(cfg, st, step), steps, |st.ss| - 1, peer, stream);
  }

  /** End to end from the accept: a client accepted behind any run, with a stream that is an admitted greeting and a
      payload, and a destination that will send `stream`. Behind any continuation, the destination has received a prefix
      of the payload and the client a prefix of the stream, each with at most one buffer outstanding. */
  lemma AcceptedEndToEnd(
    cfg: Config, table: Table, before: seq<Step>, peer: Net.Peer, stream: seq<Byte>, steps: seq<Step>,
    g: Handshake.Greeting, payload: seq<Byte>)
    requires IsRun(cfg, Initial(table), before)
    requires IsRun(cfg, After(cfg, Initial(table), before), [Accept(peer, stream)] + steps)
    requires Handshake.Greets(cfg.sv, peer, g, payload)
    ensures var st := After(cfg, Initial(table), before);
      var next := After(cfg, st, [Accept(peer, stream)] + steps);
      && 0 < |st.ss| <= |next.ss|
      && var s := next.ss[|st.ss| - 1];
         && s.up.delivered <= payload && (s.payload == [] || Forwarded(s.up, payload, cfg.buffer))
         && Forwarded(s.down, stream, cfg.buffer)
  {
    var st := After(cfg, Initial(table), before);
    var run := [Accept(peer, stream)] + steps;
    InitialHolds(cfg, table);
    RunKeeps(cfg, Initial(table), before);
    AcceptFills(cfg, st, peer, stream, steps);
    RunAppend(cfg, Initial(table), before, run);
    EndToEnd(cfg, table, before + run, |st.ss| - 1, g, payload);
    EndToEndDown(cfg, table, before + run, |st.ss| - 1);
  }
}
