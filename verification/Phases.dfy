/** What every step keeps about references, closing and the session counter. */
module Phases {
  import opened Text
  import opened StatDb
  import opened Lifecycle

  /** A session's part in what the io thread is doing. */
  datatype Role = Role(newest: bool, framed: bool, closing: Option<ClosePc>)

  function RoleOf(io: Io, pending: Option<nat>, c: nat): Role {
    Role(pending == Some(c), io == Spinning(c) || io == Returning(c),
         if io.Closing? && io.c == c then Some(io.pc) else None)
  }

  predicate Quiet(s: Sess) { s.up.op == Idle && s.down.op == Idle }

  /** A close under way has done what it has passed, and nothing else. */
  predicate ClosingAt(s: Sess, pc: ClosePc) {
    s.isClosed && !s.dec && (s.shut <==> pc != ToShut) && (pc.ToDecrement? ==> s.ledger.rowId == 0)
  }

  predicate Holds(s: Sess, role: Role) {
    && (role.newest ==> !s.accepted && !s.isClosed)
    && (s.pool.NotPosted? <==> !s.accepted)
    && (s.pool.NotPosted? ==> Quiet(s) && s.ledger.record == 0 && s.ledger.rowId == 0)
    && (s.pool.Handshaking? ==> Quiet(s) && !s.isClosed && s.ledger.record == 0 && s.ledger.rowId == 0)
    && (s.pool.Ready? ==> Quiet(s) && !s.isClosed)
    && (s.pool.HalfArmed? ==> s.down.op == Idle)
    && (s.pool.Destroying? ==> ClosingAt(s, s.pool.pc) && Quiet(s) && !role.framed && role.closing.None?)
    && (role.closing.Some? ==> ClosingAt(s, role.closing.value))
    && (s.isClosed && !s.dec ==> s.pool.Destroying? || role.closing.Some?)
    && (s.dec ==> s.isClosed && s.shut && s.ledger.rowId == 0)
    && (!s.isClosed ==>
          && !s.shut && !s.dec && s.ledger.rowId == s.ledger.record
          && (s.InPool() || !Quiet(s) || role.framed || role.newest))
    && (s.ledger.rowId == s.ledger.record || s.ledger.rowId == 0)
  }

  /** The accept in progress and the frame of handle_accept are always about the newest sessions. */
  predicate Threads(st: State) {
    && st.ss != []
    && (st.pending.None? <==> st.io.Spinning?)
    && (st.pending.Some? ==> st.pending.value == |st.ss| - 1)
    && (st.io.Spinning? ==> st.io.c == |st.ss| - 1)
    && (st.io.Returning? ==> st.io.c == |st.ss| - 2 && |st.ss| >= 2)
    && (st.io.Closing? ==> st.io.c < |st.ss|)
  }

  predicate AllHold(st: State) {
    Threads(st) && forall c :: 0 <= c < |st.ss| ==> Holds(st.ss[c], RoleOf(st.io, st.pending, c))
  }

  // ---- The counter ----

  function Weight(s: Sess): int { (if s.accepted then 1 else 0) - (if s.dec then 1 else 0) }

  /** Accepted sessions minus completed closes. */
  function Balance(ss: seq<Sess>): int {
    if ss == [] then 0 else Balance(ss[..|ss| - 1]) + Weight(ss[|ss| - 1])
  }

  lemma {:induction false} BalancePut(ss: seq<Sess>, c: nat, s: Sess)
    requires c < |ss|
    ensures Balance(ss[c := s]) == Balance(ss) - Weight(ss[c]) + Weight(s)
  {
    var n := |ss| - 1;
    var after := ss[c := s];
    if c < n {
      BalancePut(ss[..n], c, s);
      assert after[..n] == ss[..n][c := s];
    } else {
      assert after[..n] == ss[..n];
    }
  }

  lemma BalanceNew(ss: seq<Sess>)
    ensures Balance(ss + [NEW]) == Balance(ss)
  {
  }

  predicate Counts(cfg: Config, st: State) {
    && st.sessions == Balance(st.ss)
    && (cfg.max > 0 ==> st.sessions <= cfg.max && (st.pending.Some? ==> st.sessions < cfg.max))
  }

  // ---- Every step keeps the phases ----

  lemma AcceptHolds(cfg: Config, st: State, step: Step)
    requires AllHold(st) && Enabled(cfg, st, step) && (step.Accept? || step.AcceptError?)
    ensures AllHold(Next(cfg, st, step))
  {
  }

  lemma ProceedHolds(cfg: Config, st: State)
    requires AllHold(st) && Enabled(cfg, st, Proceed)
    ensures AllHold(Next(cfg, st, Proceed))
  {
  }

  /** The session a step changes, if it changes one. */
  function Changed(st: State, step: Step): nat
    requires st.pending.Some? || !step.Accept?
  {
    match step
    case Accept(_, _) => st.pending.value
    case AcceptError => 0
    case Proceed => 0
    case Return => if st.io.Running? then 0 else st.io.c
    case CloseIo(_) => if st.io.Running? then 0 else st.io.c
    case Complete(c, _, _) => c
    case Fail(c, _) => c
    case Handle(c, _, _, _) => c
    case Greeted(c, _, _) => c
    case PoolEnd(c) => c
    case ArmClient(c) => c
    case ArmServer(c) => c
    case ClosePool(c, _) => c
  }

  lemma ChangesOne(cfg: Config, st: State, step: Step)
    requires AllHold(st) && Enabled(cfg, st, step) && !step.Proceed?
    ensures var c, next := Changed(st, step), Next(cfg, st, step);
      c < |st.ss| && |next.ss| == |st.ss| && next.ss == st.ss[c := next.ss[c]]
  {
  }

  /** A step that is about one session leaves the parts of the others alone. */
  ghost predicate OthersKeepRoles(st: State, next: State, c: nat) {
    && |next.ss| == |st.ss| && Threads(next)
    && forall k: nat :: k != c ==> RoleOf(next.io, next.pending, k) == RoleOf(st.io, st.pending, k)
  }

  lemma IoKeepsRoles(cfg: Config, st: State, step: Step)
    requires AllHold(st) && Enabled(cfg, st, step) && (step.Return? || step.CloseIo? || step.Handle?)
    ensures OthersKeepRoles(st, Next(cfg, st, step), Changed(st, step))
  {
  }

  /** The steps of other threads. */
  lemma OthersKeepIo(cfg: Config, st: State, step: Step)
    requires AllHold(st) && Enabled(cfg, st, step) && !step.Accept? && !step.AcceptError? && !step.Proceed?
    requires !step.Return? && !step.CloseIo? && !step.Handle?
    ensures var next := Next(cfg, st, step);
      |next.ss| == |st.ss| && next.io == st.io && next.pending == st.pending
  {
  }

  lemma RolesKept(cfg: Config, st: State, step: Step)
    requires AllHold(st) && Enabled(cfg, st, step) && !step.Accept? && !step.AcceptError? && !step.Proceed?
    ensures OthersKeepRoles(st, Next(cfg, st, step), Changed(st, step))
  {
    if step.Return? || step.CloseIo? || step.Handle? { IoKeepsRoles(cfg, st, step); }
    else { OthersKeepIo(cfg, st, step); }
  }

  predicate HoldsAt(st: State, c: nat) { c < |st.ss| && Holds(st.ss[c], RoleOf(st.io, st.pending, c)) }

  lemma ReturnHolds(cfg: Config, st: State)
    requires AllHold(st) && Enabled(cfg, st, Return)
    ensures HoldsAt(Next(cfg, st, Return), st.io.c)
  {
    assert HoldsAt(st, st.io.c);
  }

  lemma HandledHolds(s: Sess, role: Role, d: Dir, w: Write, table: Table, fault: bool)
    requires Holds(s, role) && WritePossible(s, d, w) && role.closing.None?
    requires s.Get(d).op.Done? || s.Get(d).op.Error?
    ensures var (t, close) := Handled(s, d, w, table, fault);
      && t.isClosed == s.isClosed
      && (if close && !s.isClosed then Holds(t.(isClosed := true), role.(closing := Some(ToShut))) else Holds(t, role))
  {
  }

  lemma HandleHolds(cfg: Config, st: State, step: Step)
    requires AllHold(st) && Enabled(cfg, st, step) && step.Handle?
    ensures HoldsAt(Next(cfg, st, step), step.c)
  {
    assert HoldsAt(st, step.c);
    HandledHolds(st.ss[step.c], RoleOf(st.io, st.pending, step.c), step.d, step.w, st.table, step.fault);
  }

  lemma CloseHolds(cfg: Config, st: State, step: Step)
    requires AllHold(st) && Enabled(cfg, st, step) && (step.CloseIo? || step.ClosePool?)
    ensures HoldsAt(Next(cfg, st, step), Changed(st, step))
  {
    assert HoldsAt(st, Changed(st, step));
  }

  lemma GreetHolds(cfg: Config, st: State, step: Step)
    requires AllHold(st) && Enabled(cfg, st, step) && (step.Greeted? || step.ArmClient?)
    ensures HoldsAt(Next(cfg, st, step), step.c)
  {
    assert HoldsAt(st, step.c);
  }

  lemma TaskEndHolds(cfg: Config, st: State, step: Step)
    requires AllHold(st) && Enabled(cfg, st, step) && (step.PoolEnd? || step.ArmServer?)
    ensures HoldsAt(Next(cfg, st, step), step.c)
  {
    assert HoldsAt(st, step.c);
  }

  lemma ReadHolds(cfg: Config, st: State, step: Step)
    requires AllHold(st) && Enabled(cfg, st, step) && (step.Complete? || step.Fail?)
    ensures HoldsAt(Next(cfg, st, step), step.c)
  {
    assert HoldsAt(st, step.c);
  }

  lemma ChangedHolds(cfg: Config, st: State, step: Step)
    requires AllHold(st) && Enabled(cfg, st, step) && !step.Accept? && !step.AcceptError? && !step.Proceed?
    ensures HoldsAt(Next(cfg, st, step), Changed(st, step))
  {
    match step
    case Return => ReturnHolds(cfg, st);
    case Complete(_, _, _) => ReadHolds(cfg, st, step);
    case Fail(_, _) => ReadHolds(cfg, st, step);
    case Handle(_, _, _, _) => HandleHolds(cfg, st, step);
    case CloseIo(_) => CloseHolds(cfg, st, step);
    case ClosePool(_, _) => CloseHolds(cfg, st, step);
    case Greeted(_, _, _) => GreetHolds(cfg, st, step);
    case ArmClient(_) => GreetHolds(cfg, st, step);
    case PoolEnd(_) => TaskEndHolds(cfg, st, step);
    case ArmServer(_) => TaskEndHolds(cfg, st, step);
  }

  lemma PutHolds(st: State, next: State, c: nat)
    requires AllHold(st) && OthersKeepRoles(st, next, c) && HoldsAt(next, c)
    requires c < |st.ss| && next.ss == st.ss[c := next.ss[c]]
    ensures AllHold(next)
  {
    forall k | 0 <= k < |next.ss| ensures Holds(next.ss[k], RoleOf(next.io, next.pending, k)) {
      if k == c { assert HoldsAt(next, c); } else { assert HoldsAt(st, k); }
    }
  }

  lemma StepHolds(cfg: Config, st: State, step: Step)
    requires AllHold(st) && Enabled(cfg, st, step)
    ensures AllHold(Next(cfg, st, step))
  {
    if step.Accept? || step.AcceptError? {
      AcceptHolds(cfg, st, step);
    } else if step.Proceed? {
      ProceedHolds(cfg, st);
    } else {
      ChangesOne(cfg, st, step);
      RolesKept(cfg, st, step);
      ChangedHolds(cfg, st, step);
      PutHolds(st, Next(cfg, st, step), Changed(st, step));
    }
  }

  // ---- The counter law ----

  lemma CloseWeight(cfg: Config, st: State, step: Step)
    requires AllHold(st) && Enabled(cfg, st, step) && (step.CloseIo? || step.ClosePool?)
    ensures var c, next := Changed(st, step), Next(cfg, st, step);
      c < |st.ss| && c < |next.ss| && next.sessions - st.sessions == Weight(next.ss[c]) - Weight(st.ss[c])
  {
    assert HoldsAt(st, Changed(st, step));
  }

  lemma AcceptWeight(cfg: Config, st: State, step: Step)
    requires AllHold(st) && Enabled(cfg, st, step) && step.Accept?
    ensures var c, next := Changed(st, step), Next(cfg, st, step);
      c < |st.ss| && c < |next.ss| && next.sessions - st.sessions == Weight(next.ss[c]) - Weight(st.ss[c])
  {
    assert HoldsAt(st, Changed(st, step));
  }

  lemma KeepsWeight(cfg: Config, st: State, step: Step)
    requires AllHold(st) && Enabled(cfg, st, step) && !step.Proceed? && !step.CloseIo? && !step.ClosePool?
    requires !step.Accept?
    ensures var c, next := Changed(st, step), Next(cfg, st, step);
      c < |st.ss| && c < |next.ss| && next.sessions == st.sessions && Weight(next.ss[c]) == Weight(st.ss[c])
  {
  }

  lemma StepBalance(cfg: Config, st: State, step: Step)
    requires AllHold(st) && Enabled(cfg, st, step) && st.sessions == Balance(st.ss)
    ensures Next(cfg, st, step).sessions == Balance(Next(cfg, st, step).ss)
  {
    if step.Proceed? {
      BalanceNew(st.ss);
    } else {
      var c := Changed(st, step);
      ChangesOne(cfg, st, step);
      if step.CloseIo? || step.ClosePool? { CloseWeight(cfg, st, step); }
      else if step.Accept? { AcceptWeight(cfg, st, step); }
      else { KeepsWeight(cfg, st, step); }
      BalancePut(st.ss, c, Next(cfg, st, step).ss[c]);
    }
  }

  lemma StepCounts(cfg: Config, st: State, step: Step)
    requires AllHold(st) && Enabled(cfg, st, step) && Counts(cfg, st)
    ensures Counts(cfg, Next(cfg, st, step))
  {
    StepBalance(cfg, st, step);
  }

  lemma InitialHolds(cfg: Config, table: Table)
    ensures AllHold(Initial(table)) && Counts(cfg, Initial(table))
  {
  }

  lemma {:induction false} RunKeeps(cfg: Config, st: State, steps: seq<Step>)
    requires AllHold(st) && Counts(cfg, st) && IsRun(cfg, st, steps)
    ensures AllHold(After(cfg, st, steps)) && Counts(cfg, After(cfg, st, steps))
    decreases |steps|
  {
    if steps == [] {
    } else {
      StepHolds(cfg, st, steps[0]);
      StepCounts(cfg, st, steps[0]);
      RunKeeps(cfg, Next(cfg, st, steps[0]), steps[1..]);
    }
  }

  lemma CloseDecrements(cfg: Config, st: State, step: Step)
    requires AllHold(st) && Enabled(cfg, st, step) && (step.CloseIo? || step.ClosePool?)
    ensures var c, next := Changed(st, step), Next(cfg, st, step);
      && c < |st.ss| && c < |next.ss| && !st.ss[c].dec
      && next.sessions == st.sessions - if next.ss[c].dec then 1 else 0
  {
    assert Holds(st.ss[Changed(st, step)], RoleOf(st.io, st.pending, Changed(st, step)));
  }

  lemma KeepsCounted(cfg: Config, st: State, step: Step)
    requires AllHold(st) && Enabled(cfg, st, step) && !step.Proceed? && !step.CloseIo? && !step.ClosePool?
    ensures var c, next := Changed(st, step), Next(cfg, st, step);
      && c < |st.ss| && c < |next.ss| && next.ss[c].dec == st.ss[c].dec && next.sessions >= st.sessions
  {
  }

  /** Only a step of close() lowers the counter, by one, for one session that had not been counted out before and now
      is; and no step undoes that: a session is counted out at most once, whoever closes it. */
  lemma DecrementsOnce(cfg: Config, st: State, step: Step)
    requires AllHold(st) && Enabled(cfg, st, step)
    ensures var next := Next(cfg, st, step);
      && (forall c :: 0 <= c < |st.ss| && st.ss[c].dec ==> next.ss[c].dec)
      && (next.sessions < st.sessions <==> exists c :: 0 <= c < |st.ss| && !st.ss[c].dec && next.ss[c].dec)
      && (next.sessions < st.sessions ==> next.sessions == st.sessions - 1)
  {
    if step.Proceed? {
    } else {
      var c := Changed(st, step);
      ChangesOne(cfg, st, step);
      if step.CloseIo? || step.ClosePool? { CloseDecrements(cfg, st, step); } else { KeepsCounted(cfg, st, step); }
    }
  }

  // ---- Building runs ----

  lemma Cons(cfg: Config, st: State, step: Step, rest: seq<Step>)
    requires Enabled(cfg, st, step) && IsRun(cfg, Next(cfg, st, step), rest)
    ensures IsRun(cfg, st, [step] + rest) && After(cfg, st, [step] + rest) == After(cfg, Next(cfg, st, step), rest)
  {
  }

  lemma Regroup(a: seq<Step>, rest: seq<Step>, b: seq<Step>)
    requires a != [] && a[1..] == rest
    ensures a + b == [a[0]] + (rest + b)
  {
  }

  lemma {:induction false} RunAppend(cfg: Config, st: State, a: seq<Step>, b: seq<Step>)
    requires IsRun(cfg, st, a) && IsRun(cfg, After(cfg, st, a), b)
    ensures IsRun(cfg, st, a + b) && After(cfg, st, a + b) == After(cfg, After(cfg, st, a), b)
    decreases |a|
  {
    if a == [] {
      assert a + b == b;
    } else {
      var rest := a[1..];
      assert [a[0]] + rest == a;
      RunAppend(cfg, Next(cfg, st, a[0]), rest, b);
      Cons(cfg, st, a[0], rest + b);
      Regroup(a, rest, b);
    }
  }

  /** The three steps of a close() running on the io thread. */
  lemma IoCloses(cfg: Config, st: State) returns (steps: seq<Step>)
    requires st.io.Closing? && st.io.pc.ToShut? && st.io.c < |st.ss|
    ensures IsRun(cfg, st, steps)
    ensures var next := After(cfg, st, steps);
      && next.io == Running && next.sessions == st.sessions - 1 && next.pending == st.pending && |next.ss| == |st.ss|
      && next.ss[st.io.c].dec && next.ss[st.io.c].accepted == st.ss[st.io.c].accepted
      && next.ss[st.io.c].ledger.record == st.ss[st.io.c].ledger.record
    ensures forall i :: 0 <= i < |steps| ==> steps[i] == CloseIo(false)
  {
    var s1 := Next(cfg, st, CloseIo(false));
    var s2 := Next(cfg, s1, CloseIo(false));
    Cons(cfg, s2, CloseIo(false), []);
    Cons(cfg, s1, CloseIo(false), [CloseIo(false)] + []);
    Cons(cfg, st, CloseIo(false), [CloseIo(false)] + ([CloseIo(false)] + []));
    steps := [CloseIo(false)] + ([CloseIo(false)] + ([CloseIo(false)] + []));
  }
}
