/** How many sessions can be live: up to the value at which the guard of start_accept stops, and one more for each
    accept that has failed. */
module Limit {
  import opened StatDb
  import opened Lifecycle
  import opened Phases
  import opened Admission
  import opened Blocking

  // ---- Where the guard stops ----

  /** The least value from `n` on that the guard takes for the limit: it compares modulo 2^64. */
  function NextFull(cfg: Config, n: int): (l: int)
    requires cfg.max > 0
    ensures n <= l && Full(cfg, l)
    ensures cfg.max - TWO64 < n <= cfg.max ==> l == cfg.max
  {
    n + (cfg.max - n) % TWO64
  }

  lemma NextFullLeast(cfg: Config, n: int, m: int)
    requires cfg.max > 0 && Full(cfg, m) && n <= m
    ensures NextFull(cfg, n) <= m
  {
    var r, q, k := (cfg.max - n) % TWO64, m / TWO64, (cfg.max - n) / TWO64;
    assert m == q * TWO64 + cfg.max && cfg.max - n == k * TWO64 + r;
    assert m - n == (q + k) * TWO64 + r;
  }

  lemma NextFullMonotone(cfg: Config, n: int, m: int)
    requires cfg.max > 0 && n <= m
    ensures NextFull(cfg, n) <= NextFull(cfg, m)
  {
    NextFullLeast(cfg, n, NextFull(cfg, m));
  }

  lemma NextFullSkips(cfg: Config, n: int)
    requires cfg.max > 0 && !Full(cfg, n)
    ensures NextFull(cfg, n) == NextFull(cfg, n + 1)
  {
    NextFullLeast(cfg, n, NextFull(cfg, n + 1));
    NextFullLeast(cfg, n + 1, NextFull(cfg, n));
  }

  /** The accept frame holds the last reference to its session, and will close it. */
  predicate WillClose(st: State) {
    && (st.io.Spinning? || st.io.Returning?) && st.io.c < |st.ss|
    && !st.ss[st.io.c].isClosed && !st.ss[st.io.c].InPool() && Quiet(st.ss[st.io.c])
  }

  /** The counter as the io thread leaves it when it is done with what it is doing. */
  function Settling(st: State): int {
    st.sessions - if st.io.Closing? || WillClose(st) then 1 else 0
  }

  /** What the counter can still rise to: the value the guard stops at, or has stopped at. */
  function Ceiling(cfg: Config, st: State): int
    requires cfg.max > 0
  {
    if st.io.Spinning? && Full(cfg, st.sessions) then st.sessions else NextFull(cfg, Settling(st) + 1)
  }

  lemma IoSettles(cfg: Config, st: State, step: Step)
    requires AllHold(st) && Enabled(cfg, st, step) && (step.Proceed? || step.Return? || step.CloseIo?)
    ensures Settling(Next(cfg, st, step)) == Settling(st) && !Next(cfg, st, step).io.Spinning?
  {
    assert HoldsAt(st, st.io.c);
  }

  lemma HandleSettles(cfg: Config, st: State, step: Step)
    requires AllHold(st) && Enabled(cfg, st, step) && step.Handle?
    ensures Settling(Next(cfg, st, step)) <= Settling(st) && !Next(cfg, st, step).io.Spinning?
  {
  }

  /** The steps of other threads. */
  lemma OthersSettle(cfg: Config, st: State, step: Step)
    requires AllHold(st) && Enabled(cfg, st, step) && !step.Accept? && !step.AcceptError?
    requires !step.Proceed? && !step.Return? && !step.CloseIo? && !step.Handle?
    ensures var next := Next(cfg, st, step);
      && next.io == st.io && Settling(next) <= Settling(st)
      && (next.sessions == st.sessions || next.sessions == st.sessions - 1)
  {
    assert HoldsAt(st, Changed(st, step));
  }

  lemma AcceptCeiling(cfg: Config, st: State, step: Step)
    requires AllHold(st) && cfg.max > 0 && Enabled(cfg, st, step) && step.Accept?
    ensures Ceiling(cfg, Next(cfg, st, step)) <= Ceiling(cfg, st)
  {
    var next := Next(cfg, st, step);
    assert Settling(st) == st.sessions && Settling(next) == next.sessions == st.sessions + 1;
    if Full(cfg, next.sessions) { NextFullLeast(cfg, st.sessions + 1, next.sessions); }
    else { NextFullSkips(cfg, next.sessions); }
  }

  lemma FullFalls(cfg: Config, st: State, next: State)
    requires cfg.max > 0 && st.io.Spinning? && next.io == st.io && Full(cfg, st.sessions)
    requires next.sessions == st.sessions || next.sessions == st.sessions - 1
    ensures Ceiling(cfg, next) <= Ceiling(cfg, st)
  {
    if next.sessions == st.sessions - 1 { NextFullLeast(cfg, Settling(next) + 1, st.sessions); }
  }

  lemma CeilingFalls(cfg: Config, st: State, next: State)
    requires cfg.max > 0 && !(st.io.Spinning? && Full(cfg, st.sessions)) && Settling(next) <= Settling(st)
    requires next.io.Spinning? ==> st.io.Spinning? && next.sessions <= st.sessions
    ensures Ceiling(cfg, next) <= Ceiling(cfg, st)
  {
    NextFullMonotone(cfg, Settling(next) + 1, Settling(st) + 1);
    if next.io.Spinning? && Full(cfg, next.sessions) {
      assert next.sessions < st.sessions;
    }
  }

  /** No step but a failed accept raises the ceiling; and that does not either, but it counts for itself. */
  lemma StepCeiling(cfg: Config, st: State, step: Step)
    requires AllHold(st) && cfg.max > 0 && Enabled(cfg, st, step) && !step.AcceptError?
    ensures Ceiling(cfg, Next(cfg, st, step)) <= Ceiling(cfg, st)
  {
    var next := Next(cfg, st, step);
    if step.Accept? {
      AcceptCeiling(cfg, st, step);
    } else {
      if step.Proceed? || step.Return? || step.CloseIo? { IoSettles(cfg, st, step); }
      else if step.Handle? { HandleSettles(cfg, st, step); }
      else { OthersSettle(cfg, st, step); }
      if st.io.Spinning? && Full(cfg, st.sessions) { FullFalls(cfg, st, next); }
      else { CeilingFalls(cfg, st, next); }
    }
  }

  /** Everything that can follow without a further failed accept. */
  ghost predicate Follows(cfg: Config, st: State, steps: seq<Step>) {
    IsRun(cfg, st, steps) && FailedAccepts(steps) == 0
  }

  lemma {:induction false} RunCeiling(cfg: Config, st: State, steps: seq<Step>)
    requires Kept(cfg, st) && cfg.max > 0 && Follows(cfg, st, steps)
    ensures Ceiling(cfg, After(cfg, st, steps)) <= Ceiling(cfg, st)
    decreases |steps|
  {
    if steps == [] {
    } else {
      StepKept(cfg, st, steps[0]);
      StepCeiling(cfg, st, steps[0]);
      RunCeiling(cfg, Next(cfg, st, steps[0]), steps[1..]);
    }
  }

  lemma JoinFollows(cfg: Config, st: State, a: seq<Step>, b: seq<Step>)
    requires Follows(cfg, st, a) && Follows(cfg, After(cfg, st, a), b)
    ensures Follows(cfg, st, a + b) && After(cfg, st, a + b) == After(cfg, After(cfg, st, a), b)
  {
    RunAppend(cfg, st, a, b);
    FailedAppend(a, b);
  }

  // ---- Up to there and not beyond ----

  /** The session of a failed accept that no step will ever close. */
  ghost predicate Stranded(cfg: Config, st: State) { Stuck(cfg, st) && Rejects(st) }

  /** What is live at most, from here on. */
  ghost function Peak(cfg: Config, st: State): int
    requires cfg.max > 0
  {
    Ceiling(cfg, st) + Failures(st) - if Stranded(cfg, st) then 1 else 0
  }

  lemma LiveIsCounted(cfg: Config, st: State)
    requires Kept(cfg, st)
    ensures Count(st.ss, Live) == st.sessions + Failures(st) - if Rejects(st) then 1 else 0
  {
    BalanceIsLive(st.ss);
  }

  lemma BelowPeak(cfg: Config, st: State, steps: seq<Step>)
    requires Kept(cfg, st) && cfg.max > 0 && Follows(cfg, st, steps)
    ensures Count(After(cfg, st, steps).ss, Live) <= Peak(cfg, st)
  {
    var next := After(cfg, st, steps);
    RunFailures(cfg, st, steps);
    RunCeiling(cfg, st, steps);
    LiveIsCounted(cfg, next);
    if Stuck(cfg, st) { StuckForever(cfg, st, steps); }
  }

  function Left(io: Io): nat {
    match io
    case Running => 0
    case Closing(_, pc) => if pc.ToShut? then 3 else if pc.ToCloseRow? then 2 else 1
    case Returning(_) => 4
    case Spinning(_) => 5
  }

  /** An accept that goes well, with the server not full behind it: the io thread is ready for the next one. */
  lemma OneMore(cfg: Config, st: State) returns (steps: seq<Step>)
    requires AllHold(st) && st.io.Running? && !Full(cfg, st.sessions + 1)
    ensures IsRun(cfg, st, steps) && FailedAccepts(steps) == 0
    ensures var next := After(cfg, st, steps); next.io.Running? && next.sessions == st.sessions + 1
  {
    var accept := Accept(NO_PEER, []);
    var s1 := Next(cfg, st, accept);
    var s2 := Next(cfg, s1, Proceed);
    Cons(cfg, s2, Return, []);
    Cons(cfg, s1, Proceed, [Return] + []);
    Cons(cfg, st, accept, [Proceed] + ([Return] + []));
    steps := [accept] + ([Proceed] + ([Return] + []));
    assert steps[1..] == [Proceed, Return] && [Proceed, Return][1..] == [Return];
  }

  /** Accepts go on until the guard stops. */
  lemma {:induction false} FillUp(cfg: Config, st: State) returns (steps: seq<Step>)
    requires Kept(cfg, st) && st.io.Running? && cfg.max > 0
    ensures Follows(cfg, st, steps)
    ensures After(cfg, st, steps).sessions == NextFull(cfg, st.sessions + 1) && !Rejects(After(cfg, st, steps))
    decreases NextFull(cfg, st.sessions + 1) - st.sessions
  {
    if Full(cfg, st.sessions + 1) {
      NextFullLeast(cfg, st.sessions + 1, st.sessions + 1);
      var accept := Accept(NO_PEER, []);
      Cons(cfg, st, accept, []);
      steps := [accept] + [];
      assert steps[1..] == [];
    } else {
      NextFullSkips(cfg, st.sessions + 1);
      var first := OneMore(cfg, st);
      RunFailures(cfg, st, first);
      var rest := FillUp(cfg, After(cfg, st, first));
      steps := first + rest;
      JoinFollows(cfg, st, first, rest);
    }
  }

  /** What the io thread does next. */
  function IoStep(io: Io): Step {
    match io
    case Spinning(_) => Proceed
    case Returning(_) => Return
    case _ => CloseIo(false)
  }

  lemma IoGoesOn(cfg: Config, st: State)
    requires Kept(cfg, st) && cfg.max > 0 && !st.io.Running? && !(st.io.Spinning? && Full(cfg, st.sessions))
    ensures Enabled(cfg, st, IoStep(st.io)) && !IoStep(st.io).AcceptError?
    ensures var next := Next(cfg, st, IoStep(st.io));
      && Kept(cfg, next) && Left(next.io) < Left(st.io)
      && Ceiling(cfg, next) == Ceiling(cfg, st) && !next.io.Spinning?
  {
    StepKept(cfg, st, IoStep(st.io));
    IoSettles(cfg, st, IoStep(st.io));
  }

  lemma FollowsCons(cfg: Config, st: State, step: Step, rest: seq<Step>)
    requires Enabled(cfg, st, step) && !step.AcceptError? && Follows(cfg, Next(cfg, st, step), rest)
    ensures Follows(cfg, st, [step] + rest)
    ensures After(cfg, st, [step] + rest) == After(cfg, Next(cfg, st, step), rest)
  {
    Cons(cfg, st, step, rest);
    assert ([step] + rest)[1..] == rest;
  }

  /** Unless the guard has stopped, the io thread can finish what it is doing and the counter rise to the ceiling. */
  lemma {:induction false} Rises(cfg: Config, st: State) returns (steps: seq<Step>)
    requires Kept(cfg, st) && cfg.max > 0 && !(st.io.Spinning? && Full(cfg, st.sessions))
    ensures Follows(cfg, st, steps)
    ensures After(cfg, st, steps).sessions == Ceiling(cfg, st) && !Rejects(After(cfg, st, steps))
    decreases Left(st.io)
  {
    if st.io.Running? {
      steps := FillUp(cfg, st);
    } else {
      IoGoesOn(cfg, st);
      var rest := Rises(cfg, Next(cfg, st, IoStep(st.io)));
      steps := [IoStep(st.io)] + rest;
      FollowsCons(cfg, st, IoStep(st.io), rest);
    }
  }
  lemma CeilingStays(cfg: Config, full: int, next: State)
    requires cfg.max > 0 && Full(cfg, full) && next.io.Returning? && next.sessions == full - 1
    ensures Ceiling(cfg, next) == full
  {
    NextFullLeast(cfg, Settling(next) + 1, full);
    assert !Full(cfg, full - 1);
  }

  /** If it has, with the session of a failed accept, another session can end, let it go, and be replaced. */
  lemma RisesAgain(cfg: Config, st: State) returns (steps: seq<Step>)
    requires Kept(cfg, st) && cfg.max > 0 && st.io.Spinning? && Full(cfg, st.sessions) && !Stuck(cfg, st)
    ensures Follows(cfg, st, steps)
    ensures After(cfg, st, steps).sessions == Ceiling(cfg, st) && !Rejects(After(cfg, st, steps))
  {
    var d: nat :| d < |st.ss| && d != st.io.c && CanStillEnd(st.ss[d]);
    var first := OneEnds(cfg, st, d);
    NoneFailed(first);
    RunFailures(cfg, st, first);
    CeilingStays(cfg, st.sessions, After(cfg, st, first));
    var rest := Rises(cfg, After(cfg, st, first));
    steps := first + rest;
    JoinFollows(cfg, st, first, rest);
  }

  lemma ReachesPeak(cfg: Config, st: State) returns (steps: seq<Step>)
    requires Kept(cfg, st) && cfg.max > 0
    ensures Follows(cfg, st, steps) && Count(After(cfg, st, steps).ss, Live) == Peak(cfg, st)
  {
    if !(st.io.Spinning? && Full(cfg, st.sessions)) {
      steps := Rises(cfg, st);
    } else if Rejects(st) && !Stuck(cfg, st) {
      steps := RisesAgain(cfg, st);
    } else {
      steps := [];
    }
    RunFailures(cfg, st, steps);
    LiveIsCounted(cfg, After(cfg, st, steps));
  }

  /** The exact limit, behind any run: as long as no further accept fails, the live sessions are at most what the
      counter can still rise to and the accepts that have failed, but for one whose session is stranded; and as many can
      be. */
  lemma LimitIsSharp(cfg: Config, table: Table, before: seq<Step>)
    requires IsRun(cfg, Initial(table), before) && cfg.max > 0
    ensures var st := After(cfg, Initial(table), before);
      var peak := Ceiling(cfg, st) + FailedAccepts(before) - if Stranded(cfg, st) then 1 else 0;
      && (forall steps :: Follows(cfg, st, steps) ==> Count(After(cfg, st, steps).ss, Live) <= peak)
      && (exists steps :: Follows(cfg, st, steps) && Count(After(cfg, st, steps).ss, Live) == peak)
  {
    var st := After(cfg, Initial(table), before);
    Reached(cfg, table, before);
    forall steps | Follows(cfg, st, steps) ensures Count(After(cfg, st, steps).ss, Live) <= Peak(cfg, st) {
      BelowPeak(cfg, st, steps);
    }
    var steps := ReachesPeak(cfg, st);
    assert Count(After(cfg, st, steps).ss, Live) == Peak(cfg, st);
  }

  /** The ceiling is the limit, unless the counter has fallen to a value the guard takes for it, 2^64 below. */
  lemma CeilingIsLimit(cfg: Config, st: State)
    requires Kept(cfg, st) && cfg.max > 0 && st.sessions > cfg.max - TWO64
    ensures Ceiling(cfg, st) == cfg.max && !Stranded(cfg, st)
  {
  }

  /** So the limit holds from some moment on, whatever happens short of a failed accept, if and only if the failed
      accepts are no more than the ceiling has fallen below it; that is, with a counter that has not fallen so far, if
      and only if no accept has failed until then. */
  lemma LimitHoldsIff(cfg: Config, table: Table, before: seq<Step>)
    requires IsRun(cfg, Initial(table), before) && cfg.max > 0
    ensures var st := After(cfg, Initial(table), before);
      (forall steps :: Follows(cfg, st, steps) ==> Count(After(cfg, st, steps).ss, Live) <= cfg.max)
      <==> if st.sessions > cfg.max - TWO64 then FailedAccepts(before) == 0
           else FailedAccepts(before) - (if Stranded(cfg, st) then 1 else 0) <= cfg.max - Ceiling(cfg, st)
  {
    var st := After(cfg, Initial(table), before);
    LimitIsSharp(cfg, table, before);
    Reached(cfg, table, before);
    if st.sessions > cfg.max - TWO64 { CeilingIsLimit(cfg, st); }
  }

  // ---- Both ways out ----

  /** And the limit can be exceeded by any number: n failed accepts do it. */
  lemma LimitCanBeExceeded(cfg: Config, table: Table, n: nat)
    requires 0 < cfg.max < TWO64 - n
    ensures exists steps :: (IsRun(cfg, Initial(table), steps) && FailedAccepts(steps) == n
                             && Count(After(cfg, Initial(table), steps).ss, Live) == cfg.max + n)
  {
    InitialHolds(cfg, table);
    var first := FailTimes(cfg, Initial(table), n);
    Reached(cfg, table, first);
    var rest := ReachesPeak(cfg, After(cfg, Initial(table), first));
    CeilingIsLimit(cfg, After(cfg, Initial(table), first));
    RunAppend(cfg, Initial(table), first, rest);
    FailedAppend(first, rest);
    assert Count(After(cfg, Initial(table), first + rest).ss, Live) == cfg.max + n;
  }

  lemma {:induction false} NoneLive(ss: seq<Sess>)
    requires Count(ss, Live) == 0
    ensures forall c :: 0 <= c < |ss| ==> !Live(ss[c])
  {
    if ss == [] {
    } else {
      NoneLive(ss[..|ss| - 1]);
      assert forall c :: 0 <= c < |ss| - 1 ==> ss[c] == ss[..|ss| - 1][c];
    }
  }

  lemma NobodyCanEnd(st: State)
    requires AllHold(st) && Count(st.ss, Live) == 0
    ensures forall c :: 0 <= c < |st.ss| ==> !CanStillEnd(st.ss[c])
  {
    NoneLive(st.ss);
    forall c | 0 <= c < |st.ss| ensures !CanStillEnd(st.ss[c]) {
      assert HoldsAt(st, c);
    }
  }

  /** A free server with no session live, whose counter is taken for the limit, stops at the next failed accept. */
  lemma EmptyStops(cfg: Config, st: State) returns (steps: seq<Step>)
    requires AllHold(st) && st.io.Running? && Count(st.ss, Live) == 0 && Full(cfg, st.sessions)
    ensures IsRun(cfg, st, steps) && FailedAccepts(steps) == 1
    ensures Stuck(cfg, After(cfg, st, steps)) && Count(After(cfg, st, steps).ss, Live) == 0
  {
    steps := FailedAcceptLowers(cfg, st);
    NobodyCanEnd(st);
  }

  ghost predicate EndsEmpty(cfg: Config, table: Table, steps: seq<Step>) {
    && IsRun(cfg, Initial(table), steps) && Stuck(cfg, After(cfg, Initial(table), steps))
    && Count(After(cfg, Initial(table), steps).ss, Live) == 0
  }

  lemma EmptyRun(cfg: Config, table: Table, first: seq<Step>)
    requires IsRun(cfg, Initial(table), first) && Kept(cfg, After(cfg, Initial(table), first))
    requires var st := After(cfg, Initial(table), first);
      st.io.Running? && Full(cfg, st.sessions) && Count(st.ss, Live) == 0
    ensures exists steps :: EndsEmpty(cfg, table, steps) && FailedAccepts(steps) == FailedAccepts(first) + 1
  {
    var last := EmptyStops(cfg, After(cfg, Initial(table), first));
    RunAppend(cfg, Initial(table), first, last);
    FailedAppend(first, last);
    assert EndsEmpty(cfg, table, first + last);
  }

  /** Or the server stops while it is empty: after so many failed accepts that the counter is taken for the limit, one
      more leaves the guard spinning forever, with no session live. For a configured limit of -1, which is 2^64 - 1 as a
      size_t, two failed accepts are enough. */
  lemma EmptyServerStops(cfg: Config, table: Table)
    requires cfg.max > 0
    ensures exists steps :: EndsEmpty(cfg, table, steps) && FailedAccepts(steps) == TWO64 - cfg.max + 1
  {
    InitialHolds(cfg, table);
    var first := FailTimes(cfg, Initial(table), TWO64 - cfg.max);
    Reached(cfg, table, first);
    LiveIsCounted(cfg, After(cfg, Initial(table), first));
    EmptyRun(cfg, table, first);
  }
}
