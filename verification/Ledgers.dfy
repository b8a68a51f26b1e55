/** The statistics table against the live sessions, over every run. */
module Ledgers {
  import opened StatDb
  import opened Lifecycle
  import opened Phases
  import opened Net
  import Handshake

  // ---- What every step keeps ----

  /** The session has let go of its row, and no error was reported when it did. */
  predicate Settled(l: Ledger) { l.record != 0 && l.rowId == 0 && !l.closeFault }

  /** The row this settled session marked: the one with its own id, cut to 32 bits. */
  predicate Marks(l: Ledger, id: int) { Settled(l) && ToInt32(l.record) == id }

  ghost predicate Marked(ss: seq<Sess>, id: int) {
    exists c :: 0 <= c < |ss| && Marks(ss[c].ledger, id)
  }

  ghost predicate Owned(ss: seq<Sess>, id: int) {
    exists c :: 0 <= c < |ss| && ss[c].ledger.record == id
  }

  /** A stored counter is what was reported, mod 2^32; and without reduction exactly while the total before the last
      report was below 2^31 and the total is below 2^63. */
  predicate Counted(stored: int, total: nat, earlier: nat) {
    Congruent(stored, total) && earlier <= total && (stored == total <==> earlier < TWO31 && total < TWO63)
  }

  /** A session's row: above the ids of earlier runs, its counters what was reported as far as the table can count. */
  predicate LedgerOk(l: Ledger, table: Table, base: int) {
    && (l.record == 0 ==>
          l.rowId == 0 && !l.closeFault && l.sent == 0 && l.recv == 0 && l.sentEarlier == 0 && l.recvEarlier == 0)
    && (l.rowId != 0 ==> !l.closeFault)
    && (l.record != 0 ==>
          && base < l.record <= table.lastId && l.record in table.rows
          && (ToInt32(l.record) == 0 ==> l.sent == 0 && l.recv == 0)
          && Counted(table.rows[l.record].sent, l.sent, l.sentEarlier)
          && Counted(table.rows[l.record].recv, l.recv, l.recvEarlier))
  }

  ghost predicate IdsOk(base: int, st: State) {
    && 0 <= base <= st.table.lastId
    && (forall id :: id in st.table.rows ==> 0 < id <= st.table.lastId)
    && (forall id :: id in st.table.rows && id > base ==> Owned(st.ss, id))
    && (forall c, d :: 0 <= c < d < |st.ss| && st.ss[c].ledger.record == st.ss[d].ledger.record ==>
          st.ss[c].ledger.record == 0)
  }

  /** The rows of earlier runs are inactive, the others active until a session that closes marks them. */
  ghost predicate ActiveOk(base: int, st: State) {
    forall id :: id in st.table.rows ==> (st.table.rows[id].active <==> base < id && !Marked(st.ss, id))
  }

  predicate LedgersOk(base: int, st: State) {
    forall c :: 0 <= c < |st.ss| ==> LedgerOk(st.ss[c].ledger, st.table, base)
  }

  ghost predicate TableOk(base: int, st: State) {
    IdsOk(base, st) && ActiveOk(base, st) && LedgersOk(base, st)
  }

  /** One session differs at most, and it is about the same row. */
  ghost predicate OneSession(st: State, next: State, c: nat) {
    && c < |st.ss| && |next.ss| == |st.ss| && next.ss == st.ss[c := next.ss[c]]
    && next.ss[c].ledger.record == st.ss[c].ledger.record
  }

  predicate SameRows(a: Table, b: Table) { a.lastId == b.lastId && a.rows.Keys == b.rows.Keys }

  lemma SameIds(base: int, st: State, next: State, c: nat)
    requires IdsOk(base, st) && OneSession(st, next, c) && SameRows(st.table, next.table)
    ensures IdsOk(base, next)
  {
    forall id | id in next.table.rows && id > base ensures Owned(next.ss, id) {
      var k :| 0 <= k < |st.ss| && st.ss[k].ledger.record == id;
      assert next.ss[k].ledger.record == id;
    }
  }

  lemma SameMarks(st: State, next: State, c: nat, id: int)
    requires OneSession(st, next, c)
    requires Marks(next.ss[c].ledger, id) <==> Marks(st.ss[c].ledger, id)
    ensures Marked(next.ss, id) <==> Marked(st.ss, id)
  {
    if k :| 0 <= k < |st.ss| && Marks(st.ss[k].ledger, id) { assert Marks(next.ss[k].ledger, id); }
    if k :| 0 <= k < |next.ss| && Marks(next.ss[k].ledger, id) { assert Marks(st.ss[k].ledger, id); }
  }

  /** A step that changes no row's activity and settles no session. */
  lemma SameActive(base: int, st: State, next: State, c: nat)
    requires ActiveOk(base, st) && OneSession(st, next, c) && SameRows(st.table, next.table)
    requires Settled(next.ss[c].ledger) <==> Settled(st.ss[c].ledger)
    requires forall id :: id in st.table.rows ==> next.table.rows[id].active == st.table.rows[id].active
    ensures ActiveOk(base, next)
  {
    forall id | id in next.table.rows ensures next.table.rows[id].active <==> base < id && !Marked(next.ss, id) {
      SameMarks(st, next, c, id);
    }
  }

  /** A step that settles the session marks the row with its truncated id, and no other. */
  lemma SettlesActive(base: int, st: State, next: State, c: nat)
    requires ActiveOk(base, st) && OneSession(st, next, c)
    requires !Settled(st.ss[c].ledger) && Settled(next.ss[c].ledger)
    requires next.table == Inactive(st.table, ToInt32(st.ss[c].ledger.record))
    ensures ActiveOk(base, next)
  {
    var mark := ToInt32(st.ss[c].ledger.record);
    assert Marks(next.ss[c].ledger, mark) && Marked(next.ss, mark);
    forall id | id in next.table.rows ensures next.table.rows[id].active <==> base < id && !Marked(next.ss, id) {
      if id != mark { SameMarks(st, next, c, id); }
    }
  }

  predicate SameCounters(a: Table, b: Table, id: int) {
    id in a.rows && id in b.rows && b.rows[id].sent == a.rows[id].sent && b.rows[id].recv == a.rows[id].recv
  }

  /** A step that touches the counters of this session's row at most. */
  lemma SameLedgers(base: int, st: State, next: State, c: nat)
    requires IdsOk(base, st) && LedgersOk(base, st) && OneSession(st, next, c) && SameRows(st.table, next.table)
    requires LedgerOk(next.ss[c].ledger, next.table, base)
    requires forall id :: id in st.table.rows && id != st.ss[c].ledger.record ==> SameCounters(st.table, next.table, id)
    ensures LedgersOk(base, next)
  {
    forall k | 0 <= k < |next.ss| ensures LedgerOk(next.ss[k].ledger, next.table, base) {
      if k != c {
        assert LedgerOk(st.ss[k].ledger, st.table, base);
        assert st.ss[k].ledger.record == st.ss[c].ledger.record ==> st.ss[k].ledger.record == 0;
      }
    }
  }

  // ---- A new row ----

  lemma NewIds(base: int, st: State, next: State, c: nat)
    requires IdsOk(base, st) && LedgersOk(base, st) && c < |st.ss| && |next.ss| == |st.ss|
    requires next.ss == st.ss[c := next.ss[c]]
    requires st.ss[c].ledger.record == 0 && next.ss[c].ledger.record == next.table.lastId
    requires next.table.lastId == st.table.lastId + 1
    requires next.table.rows.Keys == st.table.rows.Keys + {next.table.lastId}
    ensures IdsOk(base, next)
  {
    forall id | id in next.table.rows && id > base ensures Owned(next.ss, id) {
      if id == next.table.lastId {
        assert next.ss[c].ledger.record == id;
      } else {
        var k :| 0 <= k < |st.ss| && st.ss[k].ledger.record == id;
        assert next.ss[k].ledger.record == id;
      }
    }
    assert forall k :: 0 <= k < |st.ss| ==> LedgerOk(st.ss[k].ledger, st.table, base);
  }

  /** No session has marked a row before it was there. */
  lemma NewIsUnmarked(base: int, st: State, id: int)
    requires LedgersOk(base, st) && base >= 0 && id > st.table.lastId
    ensures !Marked(st.ss, id)
  {
    forall k | 0 <= k < |st.ss| ensures !Marks(st.ss[k].ledger, id) {
      assert LedgerOk(st.ss[k].ledger, st.table, base);
      if st.ss[k].ledger.record != 0 { IdInt32(st.ss[k].ledger.record); }
    }
  }

  lemma NewMarks(st: State, next: State, c: nat, id: int)
    requires c < |st.ss| && |next.ss| == |st.ss| && next.ss == st.ss[c := next.ss[c]]
    requires st.ss[c].ledger.record == 0 && next.ss[c].ledger.rowId != 0
    ensures Marked(next.ss, id) <==> Marked(st.ss, id)
  {
    if k :| 0 <= k < |st.ss| && Marks(st.ss[k].ledger, id) { assert Marks(next.ss[k].ledger, id); }
    if k :| 0 <= k < |next.ss| && Marks(next.ss[k].ledger, id) { assert Marks(st.ss[k].ledger, id); }
  }

  /** A new row is its session's, nobody else's, and active. */
  lemma NewRow(base: int, st: State, next: State, c: nat, a: Addresses)
    requires TableOk(base, st) && c < |st.ss| && |next.ss| == |st.ss| && next.ss == st.ss[c := next.ss[c]]
    requires st.ss[c].ledger.record == 0 && next.table == Inserted(st.table, a)
    requires next.ss[c].ledger == st.ss[c].ledger.(record := next.table.lastId, rowId := next.table.lastId)
    ensures TableOk(base, next)
  {
    NewIds(base, st, next, c);
    NewIsUnmarked(base, st, next.table.lastId);
    forall id | id in next.table.rows ensures next.table.rows[id].active <==> base < id && !Marked(next.ss, id) {
      NewMarks(st, next, c, id);
    }
    forall k | 0 <= k < |next.ss| ensures LedgerOk(next.ss[k].ledger, next.table, base) {
      assert LedgerOk(st.ss[k].ledger, st.table, base);
    }
  }

  // ---- Reporting and closing, for one row ----

  lemma CountedStep(stored: int, total: nat, earlier: nat, bytes: SizeT)
    requires Counted(stored, total, earlier)
    ensures Counted(ToInt64(ToInt32(stored) + bytes), total + bytes, total)
  {
    StoredStep(stored, total, bytes);
    ExactStep(total, bytes);
  }

  lemma ReportOk(l: Ledger, table: Table, base: int, d: Dir, n: SizeT, fault: bool)
    requires LedgerOk(l, table, base) && base >= 0 && l.rowId == l.record && l.rowId != 0
    ensures var after := if fault then table else ApplyOne(table, Report(l.rowId, n, DestOf(d)));
      && LedgerOk(Reported(l, table, d, n, fault), after, base) && SameRows(table, after)
      && (forall id :: id in table.rows && id != l.rowId ==> after.rows[id] == table.rows[id])
      && (forall id :: id in table.rows ==> after.rows[id].active == table.rows[id].active)
  {
    if !fault && ToInt32(l.rowId) != 0 {
      var row := table.rows[l.rowId];
      if d.Up? { CountedStep(row.sent, l.sent, l.sentEarlier, n); }
      else { CountedStep(row.recv, l.recv, l.recvEarlier, n); }
    }
  }

  /** A handler reports what it has written, and nothing else. */
  lemma HandledReports(s: Sess, d: Dir, w: Write, table: Table, fault: bool)
    requires WritePossible(s, d, w)
    ensures var n, l := |s.Get(d).op.Data()|, Handled(s, d, w, table, fault).0.ledger;
      if n > 0 && w.Wrote? then l == Reported(s.ledger, table, d, n, fault) else l == s.ledger
    ensures var n, after := |s.Get(d).op.Data()|, HandledTable(s, d, w, table, fault);
      if n > 0 && n < TWO64 && w.Wrote? && s.ledger.rowId != 0 && !fault
      then after == ApplyOne(table, Report(s.ledger.rowId, n, DestOf(d))) else after == table
    ensures |s.Get(d).op.Data()| < TWO64
  {
  }

  /** A handler's effect on the books: those of one report, or none. */
  lemma HandledBooks(s: Sess, d: Dir, w: Write, table: Table, fault: bool, base: int)
    requires WritePossible(s, d, w) && LedgerOk(s.ledger, table, base) && base >= 0
    requires s.ledger.rowId == s.ledger.record || s.ledger.rowId == 0
    ensures var (l, after) := (Handled(s, d, w, table, fault).0.ledger, HandledTable(s, d, w, table, fault));
      && LedgerOk(l, after, base) && SameRows(table, after)
      && l.record == s.ledger.record && l.rowId == s.ledger.rowId && l.closeFault == s.ledger.closeFault
      && (forall id :: id in table.rows && id != s.ledger.rowId ==> after.rows[id] == table.rows[id])
      && (forall id :: id in table.rows ==> after.rows[id].active == table.rows[id].active)
  {
    HandledReports(s, d, w, table, fault);
    if s.Get(d).op.Data() != [] && w.Wrote? && s.ledger.rowId != 0 {
      ReportOk(s.ledger, table, base, d, |s.Get(d).op.Data()|, fault);
    }
  }

  /** The effect of a part of close(): none, but for the row, which is let go of; either that is a reported error, and
      the table stays, or the row with the truncated id is marked. */
  lemma CloseBooks(s: Sess, pc: ClosePc, table: Table, base: int, fault: bool)
    requires LedgerOk(s.ledger, table, base) && (s.ledger.rowId == s.ledger.record || s.ledger.rowId == 0)
    ensures var (l, after) := (ClosedSess(s, pc, table, fault).ledger, ClosedTable(s, pc, table, fault));
      && LedgerOk(l, after, base) && SameRows(table, after) && l.record == s.ledger.record
      && (forall id :: id in table.rows ==> SameCounters(table, after, id))
      && (if Settled(l) && !Settled(s.ledger) then after == Inactive(table, ToInt32(l.record))
          else after == table && (Settled(s.ledger) ==> Settled(l)))
  {
  }

  // ---- Steps ----

  /** A step that at most counts bytes in the row of the session it is about. */
  ghost predicate Counting(base: int, st: State, next: State, c: nat) {
    && OneSession(st, next, c) && SameRows(st.table, next.table)
    && LedgerOk(next.ss[c].ledger, next.table, base)
    && next.ss[c].ledger.rowId == st.ss[c].ledger.rowId && next.ss[c].ledger.closeFault == st.ss[c].ledger.closeFault
    && (forall id :: id in st.table.rows && id != st.ss[c].ledger.record ==> next.table.rows[id] == st.table.rows[id])
    && (forall id :: id in st.table.rows ==> next.table.rows[id].active == st.table.rows[id].active)
  }

  lemma CountingKeeps(base: int, st: State, next: State, c: nat)
    requires TableOk(base, st) && Counting(base, st, next, c)
    ensures TableOk(base, next)
  {
    SameIds(base, st, next, c);
    SameActive(base, st, next, c);
    SameLedgers(base, st, next, c);
  }

  /** What a handler's step does to the books is what the handler does. */
  lemma HandleEffect(cfg: Config, st: State, step: Step)
    requires Enabled(cfg, st, step) && step.Handle?
    ensures var c, next, s := step.c, Next(cfg, st, step), st.ss[step.c];
      && c < |st.ss| && |next.ss| == |st.ss| && next.ss == st.ss[c := next.ss[c]]
      && next.ss[c].ledger == Handled(s, step.d, step.w, st.table, step.fault).0.ledger
      && next.table == HandledTable(s, step.d, step.w, st.table, step.fault)
  {
  }

  lemma HandlerCounts(base: int, st: State, next: State, c: nat, d: Dir, w: Write, fault: bool)
    requires TableOk(base, st) && HoldsAt(st, c) && WritePossible(st.ss[c], d, w)
    requires |next.ss| == |st.ss| && next.ss == st.ss[c := next.ss[c]]
    requires next.ss[c].ledger == Handled(st.ss[c], d, w, st.table, fault).0.ledger
    requires next.table == HandledTable(st.ss[c], d, w, st.table, fault)
    ensures Counting(base, st, next, c)
  {
    assert LedgerOk(st.ss[c].ledger, st.table, base);
    HandledBooks(st.ss[c], d, w, st.table, fault, base);
  }

  /** The steps that leave the books alone. */
  lemma PlainEffect(cfg: Config, st: State, step: Step)
    requires AllHold(st) && Enabled(cfg, st, step)
    requires !step.Proceed? && !step.Handle? && !step.CloseIo? && !step.ClosePool? && !(step.Greeted? && !step.fault)
    ensures var c, next := Changed(st, step), Next(cfg, st, step);
      && c < |st.ss| && |next.ss| == |st.ss| && next.ss == st.ss[c := next.ss[c]] && next.table == st.table
      && next.ss[c].ledger == st.ss[c].ledger
  {
    assert HoldsAt(st, Changed(st, step));
  }

  lemma PlainCounts(base: int, st: State, next: State, c: nat)
    requires TableOk(base, st) && c < |st.ss| && |next.ss| == |st.ss| && next.ss == st.ss[c := next.ss[c]]
    requires next.table == st.table && next.ss[c].ledger == st.ss[c].ledger
    ensures Counting(base, st, next, c)
  {
    assert LedgerOk(st.ss[c].ledger, st.table, base);
  }

  lemma CountsTable(cfg: Config, base: int, st: State, step: Step)
    requires AllHold(st) && TableOk(base, st) && Enabled(cfg, st, step)
    requires !step.Proceed? && !step.CloseIo? && !step.ClosePool? && !(step.Greeted? && !step.fault)
    ensures TableOk(base, Next(cfg, st, step))
  {
    var c, next := Changed(st, step), Next(cfg, st, step);
    if step.Handle? {
      HandleEffect(cfg, st, step);
      assert HoldsAt(st, c);
      HandlerCounts(base, st, next, c, step.d, step.w, step.fault);
    } else {
      PlainEffect(cfg, st, step);
      PlainCounts(base, st, next, c);
    }
    CountingKeeps(base, st, next, c);
  }

  lemma CloseTable(cfg: Config, base: int, st: State, step: Step)
    requires AllHold(st) && TableOk(base, st) && Enabled(cfg, st, step) && (step.CloseIo? || step.ClosePool?)
    ensures TableOk(base, Next(cfg, st, step))
  {
    var c, next := Changed(st, step), Next(cfg, st, step);
    var s := st.ss[c];
    ChangesOne(cfg, st, step);
    assert HoldsAt(st, c) && LedgerOk(s.ledger, st.table, base);
    CloseBooks(s, if step.CloseIo? then st.io.pc else s.pool.pc, st.table, base, step.fault);
    SameIds(base, st, next, c);
    SameLedgers(base, st, next, c);
    if Settled(next.ss[c].ledger) && !Settled(s.ledger) { SettlesActive(base, st, next, c); }
    else { SameActive(base, st, next, c); }
  }

  lemma ProceedIds(base: int, st: State, next: State)
    requires IdsOk(base, st) && next.ss == st.ss + [NEW] && next.table == st.table
    ensures IdsOk(base, next)
  {
    forall id | id in next.table.rows && id > base ensures Owned(next.ss, id) {
      var k :| 0 <= k < |st.ss| && st.ss[k].ledger.record == id;
      assert next.ss[k].ledger.record == id;
    }
  }

  /** A new session has no row and marks none. */
  lemma ProceedMarks(st: State, next: State, id: int)
    requires next.ss == st.ss + [NEW]
    ensures Marked(next.ss, id) <==> Marked(st.ss, id)
  {
    if k :| 0 <= k < |st.ss| && Marks(st.ss[k].ledger, id) { assert Marks(next.ss[k].ledger, id); }
    if k :| 0 <= k < |next.ss| && Marks(next.ss[k].ledger, id) { assert k < |st.ss| && Marks(st.ss[k].ledger, id); }
  }

  lemma ProceedTable(base: int, st: State, next: State)
    requires TableOk(base, st) && next.ss == st.ss + [NEW] && next.table == st.table
    ensures TableOk(base, next)
  {
    ProceedIds(base, st, next);
    forall id | id in next.table.rows ensures Marked(next.ss, id) <==> Marked(st.ss, id) { ProceedMarks(st, next, id); }
    forall k | 0 <= k < |next.ss| ensures LedgerOk(next.ss[k].ledger, next.table, base) {
      if k < |st.ss| { assert LedgerOk(st.ss[k].ledger, st.table, base); }
    }
  }

  lemma GreetTable(cfg: Config, base: int, st: State, step: Step)
    requires AllHold(st) && TableOk(base, st) && Enabled(cfg, st, step) && step.Greeted? && !step.fault
    ensures TableOk(base, Next(cfg, st, step))
  {
    assert HoldsAt(st, step.c);
    NewRow(base, st, Next(cfg, st, step), step.c, step.a);
  }

  lemma StepTable(cfg: Config, base: int, st: State, step: Step)
    requires AllHold(st) && TableOk(base, st) && Enabled(cfg, st, step)
    ensures TableOk(base, Next(cfg, st, step))
  {
    if step.Proceed? {
      ProceedTable(base, st, Next(cfg, st, step));
    } else if step.CloseIo? || step.ClosePool? {
      CloseTable(cfg, base, st, step);
    } else if step.Greeted? && !step.fault {
      GreetTable(cfg, base, st, step);
    } else {
      CountsTable(cfg, base, st, step);
    }
  }

  lemma {:induction false} RunTable(cfg: Config, base: int, st: State, steps: seq<Step>)
    requires AllHold(st) && TableOk(base, st) && IsRun(cfg, st, steps)
    ensures AllHold(After(cfg, st, steps)) && TableOk(base, After(cfg, st, steps))
    decreases |steps|
  {
    if steps == [] {
    } else {
      StepHolds(cfg, st, steps[0]);
      StepTable(cfg, base, st, steps[0]);
      RunTable(cfg, base, Next(cfg, st, steps[0]), steps[1..]);
    }
  }

  lemma Reached(cfg: Config, table: Table, steps: seq<Step>)
    requires FreshTable(table) && IsRun(cfg, Initial(table), steps)
    ensures AllHold(After(cfg, Initial(table), steps)) && TableOk(table.lastId, After(cfg, Initial(table), steps))
  {
    InitialHolds(cfg, table);
    RunTable(cfg, table.lastId, Initial(table), steps);
  }

  // ---- The table refines the sessions ----

  /** In every reachable state, with database errors anywhere and ids of any size: a row is active exactly when it is of
      this run and no session that has closed without a database error has its id, cut to 32 bits. */
  lemma ActivityLaw(cfg: Config, table: Table, steps: seq<Step>, id: int)
    requires FreshTable(table) && IsRun(cfg, Initial(table), steps)
    requires id in After(cfg, Initial(table), steps).table.rows
    ensures var st := After(cfg, Initial(table), steps);
      st.table.rows[id].active <==>
        table.lastId < id
        && forall c :: 0 <= c < |st.ss| && Settled(st.ss[c].ledger) ==> ToInt32(st.ss[c].ledger.record) != id
  {
    Reached(cfg, table, steps);
    var st := After(cfg, Initial(table), steps);
    assert Marked(st.ss, id) <==> exists c :: 0 <= c < |st.ss| && Marks(st.ss[c].ledger, id);
  }

  /** Each row of this run is, and stays, the row of exactly one session; one that holds it has not been counted out. */
  lemma OneOwner(cfg: Config, table: Table, steps: seq<Step>, id: int)
    requires FreshTable(table) && IsRun(cfg, Initial(table), steps)
    requires id in After(cfg, Initial(table), steps).table.rows && id > table.lastId
    ensures var st := After(cfg, Initial(table), steps);
      exists c :: 0 <= c < |st.ss| && st.ss[c].ledger.record == id
        && (forall d :: 0 <= d < |st.ss| && d != c ==> st.ss[d].ledger.record != id && st.ss[d].ledger.rowId != id)
        && (if st.ss[c].ledger.rowId == 0 then st.ss[c].isClosed else st.ss[c].ledger.rowId == id && !st.ss[c].dec)
  {
    Reached(cfg, table, steps);
    var st := After(cfg, Initial(table), steps);
    var c :| 0 <= c < |st.ss| && st.ss[c].ledger.record == id;
    forall d | 0 <= d < |st.ss| && d != c ensures st.ss[d].ledger.record != id && st.ss[d].ledger.rowId != id {
      assert Holds(st.ss[d], RoleOf(st.io, st.pending, d));
      assert c < d ==> st.ss[c].ledger.record != st.ss[d].ledger.record;
      assert d < c ==> st.ss[d].ledger.record != st.ss[c].ledger.record;
    }
    assert Holds(st.ss[c], RoleOf(st.io, st.pending, c));
  }

  /** The session still holds row `id`, or the table has refused to close it. */
  predicate Keeps(l: Ledger, id: int) { id != 0 && l.record == id && (l.rowId == id || l.closeFault) }

  ghost predicate Kept(ss: seq<Sess>, id: int) { exists c :: 0 <= c < |ss| && Keeps(ss[c].ledger, id) }

  /** The rows that are active are those kept. */
  ghost predicate Refines(st: State) {
    forall id :: id in st.table.rows ==> (st.table.rows[id].active <==> Kept(st.ss, id))
  }

  /** Without such a session the truncation changes nothing. */
  ghost predicate NoLongIdClosed(ss: seq<Sess>) {
    forall c :: 0 <= c < |ss| && Settled(ss[c].ledger) ==> ss[c].ledger.record < TWO31
  }

  /** A row whose session has closed stays active if its id does not fit 32 bits: no session marks such a row. */
  lemma LongIdStaysActive(base: int, st: State, c: nat)
    requires TableOk(base, st) && c < |st.ss| && st.ss[c].ledger.record >= TWO31
    ensures var id := st.ss[c].ledger.record; id in st.table.rows && st.table.rows[id].active
  {
    var id := st.ss[c].ledger.record;
    assert LedgerOk(st.ss[c].ledger, st.table, base);
    assert !Marked(st.ss, id);
  }

  /** Where no long id was closed, a row can be marked and kept only by the session whose row it is. */
  lemma OnlyMarker(base: int, st: State, id: int, c: nat)
    requires TableOk(base, st) && NoLongIdClosed(st.ss) && id > 0 && c < |st.ss| && st.ss[c].ledger.record == id
    ensures Marked(st.ss, id) <==> Settled(st.ss[c].ledger)
    ensures Kept(st.ss, id) <==> Keeps(st.ss[c].ledger, id)
  {
    forall d | 0 <= d < |st.ss| && st.ss[d].ledger.record == id ensures d == c {}
    forall d | 0 <= d < |st.ss| && Settled(st.ss[d].ledger)
      ensures ToInt32(st.ss[d].ledger.record) == st.ss[d].ledger.record
    {
      assert LedgerOk(st.ss[d].ledger, st.table, base);
      IdInt32(st.ss[d].ledger.record);
    }
    if Settled(st.ss[c].ledger) { assert Marks(st.ss[c].ledger, id); }
  }

  lemma ShortIdsRefine(base: int, st: State, id: int)
    requires AllHold(st) && TableOk(base, st) && NoLongIdClosed(st.ss) && id in st.table.rows
    ensures st.table.rows[id].active <==> Kept(st.ss, id)
  {
    if id > base {
      var c :| 0 <= c < |st.ss| && st.ss[c].ledger.record == id;
      assert Holds(st.ss[c], RoleOf(st.io, st.pending, c)) && LedgerOk(st.ss[c].ledger, st.table, base);
      assert Keeps(st.ss[c].ledger, id) <==> !Settled(st.ss[c].ledger);
      OnlyMarker(base, st, id, c);
    } else {
      assert forall c :: 0 <= c < |st.ss| ==> LedgerOk(st.ss[c].ledger, st.table, base);
    }
  }

  lemma NotKept(base: int, st: State, c: nat)
    requires TableOk(base, st) && c < |st.ss| && Settled(st.ss[c].ledger)
    ensures !Kept(st.ss, st.ss[c].ledger.record)
  {
    forall d | 0 <= d < |st.ss| && st.ss[d].ledger.record == st.ss[c].ledger.record ensures d == c {}
  }

  /** In every reachable state, with database errors anywhere: the active rows are exactly the rows that sessions hold
      or could not close, if and only if no session with an id of 2^31 or more has closed its row. */
  lemma TableRefinesSessionsIff(cfg: Config, table: Table, steps: seq<Step>)
    requires FreshTable(table) && IsRun(cfg, Initial(table), steps)
    ensures var st := After(cfg, Initial(table), steps); Refines(st) <==> NoLongIdClosed(st.ss)
  {
    Reached(cfg, table, steps);
    var st := After(cfg, Initial(table), steps);
    if NoLongIdClosed(st.ss) {
      forall id | id in st.table.rows ensures st.table.rows[id].active <==> Kept(st.ss, id) {
        ShortIdsRefine(table.lastId, st, id);
      }
    } else {
      var c :| 0 <= c < |st.ss| && Settled(st.ss[c].ledger) && st.ss[c].ledger.record >= TWO31;
      LongIdStaysActive(table.lastId, st, c);
      NotKept(table.lastId, st, c);
    }
  }

  // ---- What is reported ----

  /** Every byte of a completed write was reported, in its direction, or is counted as lost. */
  predicate Accounted(s: Sess) {
    && s.ledger.sent <= |s.up.acked| && s.ledger.recv <= |s.down.acked|
    && |s.up.acked| + |s.down.acked| == s.ledger.sent + s.ledger.recv + s.ledger.lost
  }

  predicate AllAccounted(st: State) {
    forall c :: 0 <= c < |st.ss| ==> Accounted(st.ss[c])
  }

  lemma ReportedTotals(l: Ledger, table: Table, d: Dir, n: nat, fault: bool)
    ensures var r := Reported(l, table, d, n, fault);
      && r.sent + r.recv + r.lost == l.sent + l.recv + l.lost + n
      && l.sent <= r.sent <= l.sent + (if d.Up? then n else 0)
      && l.recv <= r.recv <= l.recv + (if d.Up? then 0 else n)
  {
  }

  lemma HandledAcks(s: Sess, d: Dir, w: Write, table: Table, fault: bool)
    requires WritePossible(s, d, w)
    ensures var n, t := |s.Get(d).op.Data()|, Handled(s, d, w, table, fault).0;
      && |t.up.acked| == |s.up.acked| + (if d.Up? && w.Wrote? then n else 0)
      && |t.down.acked| == |s.down.acked| + (if d.Down? && w.Wrote? then n else 0)
  {
  }

  lemma HandledAccounted(s: Sess, d: Dir, w: Write, table: Table, fault: bool)
    requires Accounted(s) && WritePossible(s, d, w)
    ensures Accounted(Handled(s, d, w, table, fault).0)
  {
    HandledAcks(s, d, w, table, fault);
    HandledReports(s, d, w, table, fault);
    ReportedTotals(s.ledger, table, d, |s.Get(d).op.Data()|, fault);
  }

  lemma HandleAccounted(cfg: Config, st: State, step: Step)
    requires AllAccounted(st) && Enabled(cfg, st, step) && step.Handle?
    ensures step.c < |Next(cfg, st, step).ss| && Accounted(Next(cfg, st, step).ss[step.c])
  {
    HandledAccounted(st.ss[step.c], step.d, step.w, st.table, step.fault);
  }

  lemma KeepsAccount(cfg: Config, st: State, step: Step)
    requires AllHold(st) && Enabled(cfg, st, step) && !step.Proceed? && !step.Handle?
    ensures var c, next := Changed(st, step), Next(cfg, st, step);
      && c < |st.ss| && c < |next.ss|
      && next.ss[c].up.acked == st.ss[c].up.acked && next.ss[c].down.acked == st.ss[c].down.acked
      && next.ss[c].ledger.sent == st.ss[c].ledger.sent && next.ss[c].ledger.recv == st.ss[c].ledger.recv
      && next.ss[c].ledger.lost == st.ss[c].ledger.lost
  {
  }

  lemma StepAccounted(cfg: Config, st: State, step: Step)
    requires AllHold(st) && AllAccounted(st) && Enabled(cfg, st, step)
    ensures AllAccounted(Next(cfg, st, step))
  {
    if !step.Proceed? {
      ChangesOne(cfg, st, step);
      if step.Handle? { HandleAccounted(cfg, st, step); } else { KeepsAccount(cfg, st, step); }
    }
  }

  lemma {:induction false} RunAccounted(cfg: Config, st: State, steps: seq<Step>)
    requires AllHold(st) && AllAccounted(st) && IsRun(cfg, st, steps)
    ensures AllAccounted(After(cfg, st, steps))
    decreases |steps|
  {
    if steps == [] {
    } else {
      StepHolds(cfg, st, steps[0]);
      StepAccounted(cfg, st, steps[0]);
      RunAccounted(cfg, Next(cfg, st, steps[0]), steps[1..]);
    }
  }

  // ---- Without database errors ----

  predicate FaultFree(step: Step) {
    match step
    case Handle(_, _, _, fault) => !fault
    case CloseIo(fault) => !fault
    case ClosePool(_, fault) => !fault
    case Greeted(_, _, fault) => !fault
    case _ => true
  }

  predicate AllFaultFree(steps: seq<Step>) { forall i :: 0 <= i < |steps| ==> FaultFree(steps[i]) }

  /** The one id for which the table refuses to update and to close: its lower 32 bits are zero. */
  predicate Refused(l: Ledger) { l.record != 0 && ToInt32(l.record) == 0 }

  /** Whoever relays has a record; no report is lost and no close of a row fails, unless the id is refused. */
  predicate Sound(s: Sess) {
    && (s.pool.Ready? || s.pool.HalfArmed? ==> s.ledger.record != 0)
    && (s.ledger.record == 0 ==> Quiet(s))
    && (Refused(s.ledger) || (s.ledger.lost == 0 && !s.ledger.closeFault))
    && (Refused(s.ledger) && s.ledger.rowId == 0 ==> s.ledger.closeFault)
  }

  predicate AllSound(st: State) {
    forall c :: 0 <= c < |st.ss| ==> Sound(st.ss[c])
  }

  /** A session that holds its row reaches it, unless the id is refused; one that writes without a row does not exist.
      */
  lemma HandledSound(s: Sess, d: Dir, w: Write, table: Table, role: Role)
    requires Sound(s) && Holds(s, role) && role.closing.None? && WritePossible(s, d, w)
    requires s.Get(d).op.Done? || s.Get(d).op.Error?
    requires s.ledger.rowId != 0 && !Refused(s.ledger) ==> Reaches(s.ledger, table, false)
    ensures Sound(Handled(s, d, w, table, false).0)
  {
  }

  lemma CloseSound(s: Sess, pc: ClosePc, table: Table)
    requires Sound(s) && (s.ledger.rowId == s.ledger.record || s.ledger.rowId == 0)
    requires s.ledger.rowId != 0 ==> s.ledger.rowId in table.rows
    ensures Sound(ClosedSess(s, pc, table, false))
  {
  }

  lemma HandleSound(cfg: Config, base: int, st: State, step: Step)
    requires AllHold(st) && TableOk(base, st) && AllSound(st) && Enabled(cfg, st, step)
    requires step.Handle? && !step.fault
    ensures step.c < |Next(cfg, st, step).ss| && Sound(Next(cfg, st, step).ss[step.c])
  {
    var s := st.ss[step.c];
    assert HoldsAt(st, step.c) && LedgerOk(s.ledger, st.table, base) && Sound(s);
    HandledSound(s, step.d, step.w, st.table, RoleOf(st.io, st.pending, step.c));
  }

  lemma CloseStepSound(cfg: Config, base: int, st: State, step: Step)
    requires AllHold(st) && TableOk(base, st) && AllSound(st) && Enabled(cfg, st, step)
    requires (step.CloseIo? || step.ClosePool?) && !step.fault
    ensures var c := Changed(st, step); c < |Next(cfg, st, step).ss| && Sound(Next(cfg, st, step).ss[c])
  {
    var c := Changed(st, step);
    var s := st.ss[c];
    assert HoldsAt(st, c) && LedgerOk(s.ledger, st.table, base) && Sound(s);
    CloseSound(s, if step.CloseIo? then st.io.pc else s.pool.pc, st.table);
  }

  lemma GreetSound(cfg: Config, base: int, st: State, step: Step)
    requires AllHold(st) && TableOk(base, st) && AllSound(st) && Enabled(cfg, st, step) && step.Greeted? && !step.fault
    ensures step.c < |Next(cfg, st, step).ss| && Sound(Next(cfg, st, step).ss[step.c])
  {
    assert HoldsAt(st, step.c) && Sound(st.ss[step.c]) && LedgerOk(st.ss[step.c].ledger, st.table, base);
  }

  /** The other steps of a task, and the accept it comes from. */
  lemma TaskSound(cfg: Config, st: State, step: Step)
    requires AllHold(st) && AllSound(st) && Enabled(cfg, st, step)
    requires step.PoolEnd? || step.ArmClient? || step.ArmServer? || step.Accept?
    ensures var c := Changed(st, step); c < |Next(cfg, st, step).ss| && Sound(Next(cfg, st, step).ss[c])
  {
    assert HoldsAt(st, Changed(st, step)) && Sound(st.ss[Changed(st, step)]);
  }

  lemma ReadSound(cfg: Config, st: State, step: Step)
    requires AllHold(st) && AllSound(st) && Enabled(cfg, st, step)
    requires step.Complete? || step.Fail? || step.Return? || step.AcceptError?
    ensures var c := Changed(st, step); c < |Next(cfg, st, step).ss| && Sound(Next(cfg, st, step).ss[c])
  {
    assert HoldsAt(st, Changed(st, step)) && Sound(st.ss[Changed(st, step)]);
  }

  lemma StepSound(cfg: Config, base: int, st: State, step: Step)
    requires AllHold(st) && TableOk(base, st) && AllSound(st) && Enabled(cfg, st, step) && FaultFree(step)
    ensures AllSound(Next(cfg, st, step))
  {
    if !step.Proceed? {
      ChangesOne(cfg, st, step);
      if step.Handle? { HandleSound(cfg, base, st, step); }
      else if step.CloseIo? || step.ClosePool? { CloseStepSound(cfg, base, st, step); }
      else if step.Complete? || step.Fail? || step.Return? || step.AcceptError? { ReadSound(cfg, st, step); }
      else if step.Greeted? { GreetSound(cfg, base, st, step); }
      else { TaskSound(cfg, st, step); }
    }
  }

  lemma {:induction false} RunSound(cfg: Config, base: int, st: State, steps: seq<Step>)
    requires AllHold(st) && TableOk(base, st) && AllSound(st) && IsRun(cfg, st, steps) && AllFaultFree(steps)
    ensures AllSound(After(cfg, st, steps))
    decreases |steps|
  {
    if steps == [] {
    } else {
      StepHolds(cfg, st, steps[0]);
      StepTable(cfg, base, st, steps[0]);
      StepSound(cfg, base, st, steps[0]);
      RunSound(cfg, base, Next(cfg, st, steps[0]), steps[1..]);
    }
  }

  lemma ReachedSound(cfg: Config, table: Table, steps: seq<Step>)
    requires FreshTable(table) && IsRun(cfg, Initial(table), steps) && AllFaultFree(steps)
    ensures AllSound(After(cfg, Initial(table), steps)) && AllAccounted(After(cfg, Initial(table), steps))
  {
    InitialHolds(cfg, table);
    RunSound(cfg, table.lastId, Initial(table), steps);
    RunAccounted(cfg, Initial(table), steps);
  }

  ghost predicate Held(ss: seq<Sess>, id: int) { exists c :: 0 <= c < |ss| && id != 0 && ss[c].ledger.rowId == id }

  lemma NotHeld(base: int, st: State, c: nat)
    requires AllHold(st) && TableOk(base, st) && c < |st.ss| && st.ss[c].ledger.rowId == 0
    requires st.ss[c].ledger.record != 0
    ensures !Held(st.ss, st.ss[c].ledger.record)
  {
    forall d | 0 <= d < |st.ss| ensures st.ss[d].ledger.rowId != st.ss[c].ledger.record {
      assert Holds(st.ss[d], RoleOf(st.io, st.pending, d));
      assert st.ss[d].ledger.record == st.ss[c].ledger.record ==> d == c;
    }
  }

  lemma KeptIsHeld(base: int, st: State, id: int)
    requires AllHold(st) && TableOk(base, st) && AllSound(st)
    requires forall c :: 0 <= c < |st.ss| && st.ss[c].ledger.rowId == 0 ==> st.ss[c].ledger.record < TWO31
    ensures Kept(st.ss, id) <==> Held(st.ss, id)
  {
    forall c | 0 <= c < |st.ss| ensures Keeps(st.ss[c].ledger, id) <==> id != 0 && st.ss[c].ledger.rowId == id {
      var l := st.ss[c].ledger;
      assert Holds(st.ss[c], RoleOf(st.io, st.pending, c)) && Sound(st.ss[c]) && LedgerOk(l, st.table, base);
      if l.record != 0 { IdInt32(l.record); }
    }
  }

  /** Without database errors the active rows are exactly the rows held by sessions that have not closed them, if and
      only if no session with an id of 2^31 or more has let go of its row. */
  lemma ActiveRowsAreExactIff(cfg: Config, table: Table, steps: seq<Step>)
    requires FreshTable(table) && IsRun(cfg, Initial(table), steps) && AllFaultFree(steps)
    ensures var st := After(cfg, Initial(table), steps);
      (forall id :: id in st.table.rows ==> (st.table.rows[id].active <==> Held(st.ss, id)))
      <==> (forall c :: 0 <= c < |st.ss| && st.ss[c].ledger.rowId == 0 ==> st.ss[c].ledger.record < TWO31)
  {
    Reached(cfg, table, steps);
    ReachedSound(cfg, table, steps);
    var st := After(cfg, Initial(table), steps);
    if c :| 0 <= c < |st.ss| && st.ss[c].ledger.rowId == 0 && st.ss[c].ledger.record >= TWO31 {
      LongIdStaysActive(table.lastId, st, c);
      NotHeld(table.lastId, st, c);
    } else {
      forall id | id in st.table.rows ensures st.table.rows[id].active <==> Held(st.ss, id) {
        ShortIdsRefine(table.lastId, st, id);
        KeptIsHeld(table.lastId, st, id);
      }
    }
  }

  /** What a row's counter is worth when `written` bytes of completed writes went in its direction. */
  predicate Shows(stored: int, record: int, written: nat, earlier: nat) {
    if record % TWO32 == 0 then stored == 0
    else Counted(stored, written, earlier) && (written < TWO31 ==> stored == written)
  }

  lemma LedgerIsExact(base: int, st: State, c: nat)
    requires TableOk(base, st) && AllSound(st) && AllAccounted(st) && c < |st.ss| && st.ss[c].ledger.record != 0
    ensures var s := st.ss[c];
      && s.ledger.record in st.table.rows
      && Shows(st.table.rows[s.ledger.record].sent, s.ledger.record, |s.up.acked|, s.ledger.sentEarlier)
      && Shows(st.table.rows[s.ledger.record].recv, s.ledger.record, |s.down.acked|, s.ledger.recvEarlier)
  {
    var s := st.ss[c];
    assert Sound(s) && Accounted(s) && LedgerOk(s.ledger, st.table, base);
    IdInt32(s.ledger.record);
  }

  /** And every row's counters are the bytes of its session's completed writes, mod 2^32 always, and themselves exactly
      while those before the last report are below 2^31 and all below 2^63, in particular while all are below 2^31; but
      zero in the one row in 2^32 whose id has no lower 32 bits. */
  lemma CountersAreExact(cfg: Config, table: Table, steps: seq<Step>, c: nat)
    requires FreshTable(table) && IsRun(cfg, Initial(table), steps) && AllFaultFree(steps)
    requires c < |After(cfg, Initial(table), steps).ss| && After(cfg, Initial(table), steps).ss[c].ledger.record != 0
    ensures var st := After(cfg, Initial(table), steps);
      var s := st.ss[c];
      && s.ledger.record in st.table.rows
      && Shows(st.table.rows[s.ledger.record].sent, s.ledger.record, |s.up.acked|, s.ledger.sentEarlier)
      && Shows(st.table.rows[s.ledger.record].recv, s.ledger.record, |s.down.acked|, s.ledger.recvEarlier)
  {
    Reached(cfg, table, steps);
    ReachedSound(cfg, table, steps);
    LedgerIsExact(table.lastId, After(cfg, Initial(table), steps), c);
  }

  // ---- Closed rows are final ----

  /** A row as a step about another row leaves it: as it was, or marked inactive. */
  predicate MarkedAtMost(id: int, row: Row, after: Row) {
    after == row || (id < TWO31 && after == row.(active := false))
  }

  lemma CloseEffect(cfg: Config, st: State, step: Step)
    requires AllHold(st) && Enabled(cfg, st, step) && (step.CloseIo? || step.ClosePool?)
    ensures var c := Changed(st, step);
      && c < |st.ss| && (step.CloseIo? || st.ss[c].pool.Destroying?) && (step.ClosePool? || st.io.Closing?)
      && var pc := if step.CloseIo? then st.io.pc else st.ss[c].pool.pc;
         Next(cfg, st, step).table == ClosedTable(st.ss[c], pc, st.table, step.fault)
  {
  }

  lemma CloseWrites(s: Sess, pc: ClosePc, table: Table, fault: bool, id: int)
    requires id in table.rows
    ensures var after := ClosedTable(s, pc, table, fault);
      id in after.rows && MarkedAtMost(id, table.rows[id], after.rows[id])
  {
  }

  /** The rows a step may change are the one held by the session it is about and, when that session settles, the one
      with its truncated id, which can only become inactive. */
  lemma WritesOwnRow(cfg: Config, base: int, st: State, step: Step, id: int)
    requires AllHold(st) && TableOk(base, st) && Enabled(cfg, st, step) && !step.Proceed?
    requires id in st.table.rows && Changed(st, step) < |st.ss| && st.ss[Changed(st, step)].ledger.rowId != id
    ensures id in Next(cfg, st, step).table.rows
    ensures MarkedAtMost(id, st.table.rows[id], Next(cfg, st, step).table.rows[id])
  {
    var k := Changed(st, step);
    var s := st.ss[k];
    if step.Handle? {
      assert HoldsAt(st, k) && LedgerOk(s.ledger, st.table, base);
      HandleEffect(cfg, st, step);
      HandledBooks(s, step.d, step.w, st.table, step.fault, base);
    } else if step.CloseIo? || step.ClosePool? {
      CloseEffect(cfg, st, step);
      CloseWrites(s, if step.CloseIo? then st.io.pc else s.pool.pc, st.table, step.fault, id);
    } else if step.Greeted? && !step.fault {
      assert Next(cfg, st, step).table == Inserted(st.table, step.a);
    } else {
      PlainEffect(cfg, st, step);
    }
  }

  /** The session has let go of its row. */
  predicate LetGo(s: Sess) { s.ledger.record != 0 && s.ledger.rowId == 0 }

  lemma KeepsLetGo(cfg: Config, st: State, step: Step)
    requires AllHold(st) && Enabled(cfg, st, step) && !step.Proceed?
    requires Changed(st, step) < |st.ss| && LetGo(st.ss[Changed(st, step)])
    ensures var c, next := Changed(st, step), Next(cfg, st, step);
      && c < |next.ss| && LetGo(next.ss[c]) && next.ss[c].ledger.record == st.ss[c].ledger.record
      && next.ss[c].ledger.closeFault == st.ss[c].ledger.closeFault
  {
    assert Holds(st.ss[Changed(st, step)], RoleOf(st.io, st.pending, Changed(st, step)));
  }

  lemma StaysLetGo(cfg: Config, st: State, step: Step, c: nat)
    requires AllHold(st) && Enabled(cfg, st, step) && c < |st.ss| && LetGo(st.ss[c])
    ensures var next := Next(cfg, st, step);
      && c < |next.ss| && LetGo(next.ss[c]) && next.ss[c].ledger.record == st.ss[c].ledger.record
      && next.ss[c].ledger.closeFault == st.ss[c].ledger.closeFault
  {
    assert Holds(st.ss[c], RoleOf(st.io, st.pending, c));
    if !step.Proceed? {
      ChangesOne(cfg, st, step);
      if Changed(st, step) == c { KeepsLetGo(cfg, st, step); }
    }
  }

  /** The row of a session that has let go of it is final, but for one thing: a row whose close the table refused can
      still be marked inactive, by a session whose longer id is cut to this one. */
  predicate Final(l: Ledger, row: Row, after: Row) {
    after == row || (l.closeFault && l.record < TWO31 && after == row.(active := false))
  }

  lemma SettledIsInactive(base: int, st: State, c: nat)
    requires TableOk(base, st) && c < |st.ss| && Settled(st.ss[c].ledger)
    ensures var id := st.ss[c].ledger.record; id in st.table.rows && (id < TWO31 ==> !st.table.rows[id].active)
  {
    assert LedgerOk(st.ss[c].ledger, st.table, base);
    IdInt32(st.ss[c].ledger.record);
    assert st.ss[c].ledger.record < TWO31 ==> Marks(st.ss[c].ledger, st.ss[c].ledger.record);
  }

  lemma FrozenStep(cfg: Config, base: int, st: State, step: Step, c: nat)
    requires AllHold(st) && TableOk(base, st) && Enabled(cfg, st, step) && c < |st.ss| && LetGo(st.ss[c])
    ensures var next, l := Next(cfg, st, step), st.ss[c].ledger;
      l.record in st.table.rows && l.record in next.table.rows
      && Final(l, st.table.rows[l.record], next.table.rows[l.record])
  {
    var l := st.ss[c].ledger;
    assert LedgerOk(l, st.table, base);
    if !step.Proceed? {
      var k := Changed(st, step);
      ChangesOne(cfg, st, step);
      assert Holds(st.ss[k], RoleOf(st.io, st.pending, k));
      assert k != c && st.ss[k].ledger.record == l.record ==> l.record == 0;
      WritesOwnRow(cfg, base, st, step, l.record);
      if Settled(l) { SettledIsInactive(base, st, c); }
    }
  }

  /** Once a session has let go of its row, closed or given up on, no continuation touches that row beyond that. */
  lemma {:induction false} ClosedRowsAreFinal(cfg: Config, base: int, st: State, steps: seq<Step>, c: nat)
    requires AllHold(st) && TableOk(base, st) && IsRun(cfg, st, steps) && c < |st.ss| && LetGo(st.ss[c])
    ensures var next, l := After(cfg, st, steps), st.ss[c].ledger;
      l.record in st.table.rows && l.record in next.table.rows
      && Final(l, st.table.rows[l.record], next.table.rows[l.record])
    decreases |steps|
  {
    if steps == [] {
      assert LedgerOk(st.ss[c].ledger, st.table, base);
    } else {
      StepHolds(cfg, st, steps[0]);
      StepTable(cfg, base, st, steps[0]);
      FrozenStep(cfg, base, st, steps[0], c);
      StaysLetGo(cfg, st, steps[0], c);
      ClosedRowsAreFinal(cfg, base, Next(cfg, st, steps[0]), steps[1..], c);
    }
  }

  /** The same from the start: before and after any two parts of a run. */
  lemma FinalOnceClosed(cfg: Config, table: Table, before: seq<Step>, steps: seq<Step>, c: nat)
    requires FreshTable(table) && IsRun(cfg, Initial(table), before)
    requires var st := After(cfg, Initial(table), before); IsRun(cfg, st, steps) && c < |st.ss| && LetGo(st.ss[c])
    ensures var st := After(cfg, Initial(table), before);
      var next, l := After(cfg, st, steps), st.ss[c].ledger;
      l.record in st.table.rows && l.record in next.table.rows
      && Final(l, st.table.rows[l.record], next.table.rows[l.record])
  {
    Reached(cfg, table, before);
    ClosedRowsAreFinal(cfg, table.lastId, After(cfg, Initial(table), before), steps, c);
  }

  // ---- A run on which the table and the sessions part ----

  predicate ClosedYetActive(st: State) {
    && st.ss != [] && st.ss[0].dec && st.ss[0].ledger.record in st.table.rows
    && st.table.rows[st.ss[0].ledger.record].active
  }

  /** A session whose task has ended before its first read, with the accept frame as its only holder. */
  predicate Idles(st: State, record: int) {
    && |st.ss| == 1 && st.io == Spinning(0) && st.sessions == 1
    && st.ss[0].pool.Finished? && !st.ss[0].isClosed && Quiet(st.ss[0]) && st.ss[0].ledger.record == record
  }

  lemma Begins(cfg: Config, table: Table, peer: Peer, a: Addresses) returns (steps: seq<Step>)
    requires Handshake.Payload(cfg.sv, peer).Some?
    ensures IsRun(cfg, Initial(table), steps) && AllFaultFree(steps)
    ensures Idles(After(cfg, Initial(table), steps), table.lastId + 1)
  {
    var s0 := Initial(table);
    var s1 := Next(cfg, s0, Accept(peer, []));
    var s2 := Next(cfg, s1, Greeted(0, a, false));
    Cons(cfg, s2, PoolEnd(0), []);
    Cons(cfg, s1, Greeted(0, a, false), [PoolEnd(0)] + []);
    Cons(cfg, s0, Accept(peer, []), [Greeted(0, a, false)] + ([PoolEnd(0)] + []));
    steps := [Accept(peer, [])] + ([Greeted(0, a, false)] + ([PoolEnd(0)] + []));
  }

  lemma Ends(cfg: Config, st: State, record: int) returns (steps: seq<Step>)
    requires Idles(st, record) && cfg.max != 1
    ensures IsRun(cfg, st, steps) && AllFaultFree(steps)
    ensures var next := After(cfg, st, steps); next.ss != [] && next.ss[0].dec && next.ss[0].ledger.record == record
  {
    var s1 := Next(cfg, st, Proceed);
    var closing := IoCloses(cfg, Next(cfg, s1, Return));
    Cons(cfg, s1, Return, closing);
    Cons(cfg, st, Proceed, [Return] + closing);
    steps := [Proceed] + ([Return] + closing);
  }

  lemma ShortSession(cfg: Config, table: Table, peer: Peer, a: Addresses) returns (steps: seq<Step>)
    requires cfg.max != 1 && Handshake.Payload(cfg.sv, peer).Some?
    ensures IsRun(cfg, Initial(table), steps) && AllFaultFree(steps)
    ensures var st := After(cfg, Initial(table), steps);
      st.ss != [] && st.ss[0].dec && st.ss[0].ledger.record == table.lastId + 1
  {
    var first := Begins(cfg, table, peer, a);
    var second := Ends(cfg, After(cfg, Initial(table), first), table.lastId + 1);
    RunAppend(cfg, Initial(table), first, second);
    steps := first + second;
  }

  /** A server that has used up the short ids: its first client is admitted, relays nothing and is closed, without any
      error; its row stays active in the table. */
  lemma RowStaysActive(cfg: Config, table: Table, peer: Peer, a: Addresses)
    requires FreshTable(table) && table.lastId >= TWO31 - 1 && cfg.max != 1
    requires Handshake.Payload(cfg.sv, peer).Some?
    ensures exists steps :: (IsRun(cfg, Initial(table), steps) && AllFaultFree(steps)
                             && ClosedYetActive(After(cfg, Initial(table), steps)))
  {
    var steps := ShortSession(cfg, table, peer, a);
    Reached(cfg, table, steps);
    LongIdStaysActive(table.lastId, After(cfg, Initial(table), steps), 0);
  }
}
