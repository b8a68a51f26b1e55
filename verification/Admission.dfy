/** The session counter against the live sessions and the accepts that have failed. */
module Admission {
  import opened Text
  import opened StatDb
  import opened Lifecycle
  import opened Phases

  /** Accepted and not yet closed for good. */
  predicate Live(s: Sess) { s.accepted && !s.dec }

  /** Never accepted, yet closed: what a failed accept leaves. */
  predicate Rejected(s: Sess) { !s.accepted && s.dec }

  function Count(ss: seq<Sess>, p: Sess -> bool): nat {
    if ss == [] then 0 else Count(ss[..|ss| - 1], p) + if p(ss[|ss| - 1]) then 1 else 0
  }

  lemma {:induction false} BalanceIsLive(ss: seq<Sess>)
    ensures Balance(ss) == Count(ss, Live) - Count(ss, Rejected)
  {
    if ss == [] {
    } else {
      BalanceIsLive(ss[..|ss| - 1]);
    }
  }

  lemma {:induction false} CountPut(ss: seq<Sess>, c: nat, s: Sess, p: Sess -> bool)
    requires c < |ss|
    ensures Count(ss[c := s], p) == Count(ss, p) - (if p(ss[c]) then 1 else 0) + if p(s) then 1 else 0
  {
    var n := |ss| - 1;
    var after := ss[c := s];
    if c == n {
      assert after[..n] == ss[..n];
    } else {
      CountPut(ss[..n], c, s, p);
      assert after[..n] == ss[..n][c := s];
    }
  }

  // ---- Failed accepts ----

  function FailedAccepts(steps: seq<Step>): nat {
    if steps == [] then 0 else (if steps[0].AcceptError? then 1 else 0) + FailedAccepts(steps[1..])
  }

  /** The io thread is busy with the session of a failed accept, which it will close. */
  predicate Rejects(st: State) {
    !st.io.Running? && st.io.c < |st.ss| && !st.ss[st.io.c].accepted
  }

  /** The failed accepts a state remembers. */
  function Failures(st: State): nat {
    Count(st.ss, Rejected) + if Rejects(st) then 1 else 0
  }

  /** The accept frame of a failed accept holds a session not closed yet, and was entered below the limit. */
  predicate Framed(cfg: Config, st: State) {
    (st.io.Spinning? || st.io.Returning?) && Rejects(st) ==>
      !st.ss[st.io.c].isClosed && (st.io.Spinning? && cfg.max > 0 ==> st.sessions < cfg.max)
  }

  lemma AcceptFramed(cfg: Config, st: State, step: Step)
    requires AllHold(st) && Counts(cfg, st) && Enabled(cfg, st, step) && (step.Accept? || step.AcceptError?)
    ensures Framed(cfg, Next(cfg, st, step))
  {
    assert HoldsAt(st, st.pending.value);
  }

  /** Steps that end or begin nothing on the io thread. */
  lemma OtherFramed(cfg: Config, st: State, step: Step)
    requires AllHold(st) && Framed(cfg, st) && Enabled(cfg, st, step) && !step.Accept? && !step.AcceptError?
    requires !step.Proceed? && !step.Return? && !step.CloseIo? && !step.Handle?
    ensures Framed(cfg, Next(cfg, st, step))
  {
    if !st.io.Running? { assert HoldsAt(st, st.io.c); }
  }

  lemma IoFramed(cfg: Config, st: State, step: Step)
    requires AllHold(st) && Framed(cfg, st) && Enabled(cfg, st, step)
    requires step.Proceed? || step.Return? || step.CloseIo? || step.Handle?
    ensures Framed(cfg, Next(cfg, st, step))
  {
  }

  lemma StepFramed(cfg: Config, st: State, step: Step)
    requires AllHold(st) && Counts(cfg, st) && Framed(cfg, st) && Enabled(cfg, st, step)
    ensures Framed(cfg, Next(cfg, st, step))
  {
    if step.Accept? || step.AcceptError? { AcceptFramed(cfg, st, step); }
    else if step.Proceed? || step.Return? || step.CloseIo? || step.Handle? { IoFramed(cfg, st, step); }
    else { OtherFramed(cfg, st, step); }
  }

  function FailuresAt(st: State, c: nat): nat
    requires c < |st.ss|
  {
    (if Rejected(st.ss[c]) then 1 else 0) + if Rejects(st) then 1 else 0
  }

  lemma AcceptFailures(cfg: Config, st: State, step: Step)
    requires AllHold(st) && Enabled(cfg, st, step) && (step.Accept? || step.AcceptError?)
    ensures var c, next := Changed(st, step), Next(cfg, st, step);
      c < |st.ss| && c < |next.ss| && FailuresAt(next, c) == FailuresAt(st, c) + if step.AcceptError? then 1 else 0
  {
    assert HoldsAt(st, st.pending.value);
  }

  lemma CloseFailures(cfg: Config, st: State, step: Step)
    requires AllHold(st) && Framed(cfg, st) && Enabled(cfg, st, step)
    requires step.CloseIo? || step.ClosePool? || step.Return?
    ensures var c, next := Changed(st, step), Next(cfg, st, step);
      c < |st.ss| && c < |next.ss| && FailuresAt(next, c) == FailuresAt(st, c)
  {
    assert HoldsAt(st, Changed(st, step));
  }

  lemma OtherFailures(cfg: Config, st: State, step: Step)
    requires AllHold(st) && Enabled(cfg, st, step) && !step.Proceed? && !step.Accept? && !step.AcceptError?
    requires !step.CloseIo? && !step.ClosePool? && !step.Return?
    ensures var c, next := Changed(st, step), Next(cfg, st, step);
      c < |st.ss| && c < |next.ss| && FailuresAt(next, c) == FailuresAt(st, c)
  {
    assert HoldsAt(st, Changed(st, step));
  }

  /** What a step does to its session, as far as failed accepts are concerned. */
  lemma ChangesFailures(cfg: Config, st: State, step: Step)
    requires AllHold(st) && Framed(cfg, st) && Enabled(cfg, st, step) && !step.Proceed?
    ensures var c, next := Changed(st, step), Next(cfg, st, step);
      c < |st.ss| && c < |next.ss| && FailuresAt(next, c) == FailuresAt(st, c) + if step.AcceptError? then 1 else 0
  {
    if step.Accept? || step.AcceptError? { AcceptFailures(cfg, st, step); }
    else if step.CloseIo? || step.ClosePool? || step.Return? { CloseFailures(cfg, st, step); }
    else { OtherFailures(cfg, st, step); }
  }

  lemma StepFailures(cfg: Config, st: State, step: Step)
    requires AllHold(st) && Framed(cfg, st) && Enabled(cfg, st, step)
    ensures Failures(Next(cfg, st, step)) == Failures(st) + if step.AcceptError? then 1 else 0
  {
    var next := Next(cfg, st, step);
    if step.Proceed? {
      assert next.ss[..|st.ss|] == st.ss;
    } else {
      ChangesOne(cfg, st, step);
      ChangesFailures(cfg, st, step);
      CountPut(st.ss, Changed(st, step), next.ss[Changed(st, step)], Rejected);
    }
  }

  /** What every run keeps. */
  predicate Kept(cfg: Config, st: State) { AllHold(st) && Counts(cfg, st) && Framed(cfg, st) }

  lemma StepKept(cfg: Config, st: State, step: Step)
    requires Kept(cfg, st) && Enabled(cfg, st, step)
    ensures Kept(cfg, Next(cfg, st, step))
  {
    StepHolds(cfg, st, step);
    StepCounts(cfg, st, step);
    StepFramed(cfg, st, step);
  }

  lemma {:induction false} RunFailures(cfg: Config, st: State, steps: seq<Step>)
    requires Kept(cfg, st) && IsRun(cfg, st, steps)
    ensures Kept(cfg, After(cfg, st, steps)) && Failures(After(cfg, st, steps)) == Failures(st) + FailedAccepts(steps)
    decreases |steps|
  {
    if steps == [] {
    } else {
      StepKept(cfg, st, steps[0]);
      StepFailures(cfg, st, steps[0]);
      RunFailures(cfg, Next(cfg, st, steps[0]), steps[1..]);
    }
  }

  lemma Reached(cfg: Config, table: Table, steps: seq<Step>)
    requires IsRun(cfg, Initial(table), steps)
    ensures var st := After(cfg, Initial(table), steps); Kept(cfg, st) && Failures(st) == FailedAccepts(steps)
  {
    InitialHolds(cfg, table);
    assert [NEW][..0] == [] && Count([NEW], Rejected) == Count([], Rejected);
    RunFailures(cfg, Initial(table), steps);
  }

  /** In every reachable state: the counter is the live sessions minus the sessions that failed accepts have had closed,
      which are the failed accepts but for the one the io thread is busy with; the counter never exceeds the limit and
      is below it while an accept is pending; so the live sessions exceed it by the failed accepts at most. */
  lemma CounterLaw(cfg: Config, table: Table, steps: seq<Step>)
    requires IsRun(cfg, Initial(table), steps)
    ensures var st := After(cfg, Initial(table), steps);
      && st.sessions == Count(st.ss, Live) - Count(st.ss, Rejected)
      && Count(st.ss, Rejected) == FailedAccepts(steps) - (if Rejects(st) then 1 else 0)
      && (cfg.max > 0 ==>
            && st.sessions <= cfg.max && (st.pending.Some? ==> st.sessions < cfg.max)
            && Count(st.ss, Live) <= cfg.max + FailedAccepts(steps))
  {
    Reached(cfg, table, steps);
    BalanceIsLive(After(cfg, Initial(table), steps).ss);
  }

  // ---- Failing ----

  lemma {:induction false} FailedAppend(a: seq<Step>, b: seq<Step>)
    ensures FailedAccepts(a + b) == FailedAccepts(a) + FailedAccepts(b)
  {
    if a == [] {
      assert a + b == b;
    } else {
      assert (a + b)[1..] == a[1..] + b;
      FailedAppend(a[1..], b);
    }
  }

  lemma {:induction false} NoneFailed(steps: seq<Step>)
    requires forall i :: 0 <= i < |steps| ==> !steps[i].AcceptError?
    ensures FailedAccepts(steps) == 0
  {
    if steps == [] {
    } else {
      NoneFailed(steps[1..]);
    }
  }

  lemma FailsBelow(cfg: Config, st: State) returns (steps: seq<Step>)
    requires AllHold(st) && st.io.Running? && !Full(cfg, st.sessions)
    ensures IsRun(cfg, st, steps) && FailedAccepts(steps) == 1
    ensures var next := After(cfg, st, steps);
      && next.io == Running && next.pending.Some? && next.sessions == st.sessions - 1
      && |next.ss| == |st.ss| + 1 && Rejected(next.ss[|st.ss| - 1])
  {
    assert Holds(st.ss[|st.ss| - 1], RoleOf(st.io, st.pending, |st.ss| - 1));
    var s1 := Next(cfg, st, AcceptError);
    var s2 := Next(cfg, s1, Proceed);
    var s3 := Next(cfg, s2, Return);
    var closing := IoCloses(cfg, s3);
    Cons(cfg, s2, Return, closing);
    Cons(cfg, s1, Proceed, [Return] + closing);
    Cons(cfg, st, AcceptError, [Proceed] + ([Return] + closing));
    steps := [AcceptError] + ([Proceed] + ([Return] + closing));
    NoneFailed([Proceed] + ([Return] + closing));
    assert steps[1..] == [Proceed] + ([Return] + closing);
  }

  /** Wherever an accept is pending, its failure lowers the counter by one, although the session was never counted; but
      if the counter is taken for the limit, the guard spins first, with that session in its hands. */
  lemma FailedAcceptLowers(cfg: Config, st: State) returns (steps: seq<Step>)
    requires AllHold(st) && st.io.Running?
    ensures IsRun(cfg, st, steps) && FailedAccepts(steps) == 1
    ensures var next := After(cfg, st, steps);
      if Full(cfg, st.sessions) then next == st.(pending := None, io := Spinning(|st.ss| - 1))
      else
        && next.io == Running && next.pending.Some? && next.sessions == st.sessions - 1
        && |next.ss| == |st.ss| + 1 && Rejected(next.ss[|st.ss| - 1])
  {
    if Full(cfg, st.sessions) {
      Cons(cfg, st, AcceptError, []);
      steps := [AcceptError] + [];
      assert steps[1..] == [];
    } else {
      steps := FailsBelow(cfg, st);
    }
  }

  /** So the counter can become negative: one failed accept does it. */
  lemma CounterCanBeNegative(cfg: Config, table: Table)
    ensures exists steps :: IsRun(cfg, Initial(table), steps) && After(cfg, Initial(table), steps).sessions == -1
  {
    InitialHolds(cfg, table);
    var steps := FailedAcceptLowers(cfg, Initial(table));
    assert After(cfg, Initial(table), steps).sessions == -1;
  }

  lemma {:induction false} RunHolds(cfg: Config, st: State, steps: seq<Step>)
    requires AllHold(st) && IsRun(cfg, st, steps)
    ensures AllHold(After(cfg, st, steps))
    decreases |steps|
  {
    if steps == [] {
    } else {
      StepHolds(cfg, st, steps[0]);
      RunHolds(cfg, Next(cfg, st, steps[0]), steps[1..]);
    }
  }

  lemma {:induction false} FailTimes(cfg: Config, st: State, n: nat) returns (steps: seq<Step>)
    requires AllHold(st) && st.io.Running? && cfg.max - TWO64 <= st.sessions - n && st.sessions < cfg.max
    ensures IsRun(cfg, st, steps) && FailedAccepts(steps) == n
    ensures After(cfg, st, steps).sessions == st.sessions - n && After(cfg, st, steps).io.Running?
    decreases n
  {
    if n == 0 {
      steps := [];
    } else {
      var first := FailsBelow(cfg, st);
      RunHolds(cfg, st, first);
      var rest := FailTimes(cfg, After(cfg, st, first), n - 1);
      RunAppend(cfg, st, first, rest);
      FailedAppend(first, rest);
      steps := first + rest;
    }
  }
}
