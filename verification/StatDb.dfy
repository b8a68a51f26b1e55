/** src/stat_db_service.cpp: the statistics table, with its SQL taken as updates of a map from id to row. */
module StatDb {
  const TWO31: int := 0x8000_0000
  const TWO32: int := 0x1_0000_0000
  const TWO63: int := 0x8000_0000_0000_0000
  const TWO64: int := 0x1_0000_0000_0000_0000

  type SizeT = n: int | 0 <= n < TWO64

  /** sqlite3_column_int: the low 32 bits, as a signed number. */
  function ToInt32(x: int): (r: int)
    ensures -TWO31 <= r < TWO31
  {
    (x + TWO31) % TWO32 - TWO31
  }

  /** Conversion to long long. */
  function ToInt64(x: int): (r: int)
    ensures -TWO63 <= r < TWO63
  {
    (x + TWO63) % TWO64 - TWO63
  }

  /** `r` has the low 32 bits of `x`. */
  predicate Is32(r: int, x: int) { -0x8000_0000 <= r < 0x8000_0000 && (r - x) % 0x1_0000_0000 == 0 }

  predicate Is64(r: int, x: int) {
    -0x8000_0000_0000_0000 <= r < 0x8000_0000_0000_0000 && (r - x) % 0x1_0000_0000_0000_0000 == 0
  }

  lemma Int32Iff(x: int, r: int)
    ensures ToInt32(x) == r <==> Is32(r, x)
  {
    var i := (x + TWO31) / TWO32;
    assert ToInt32(x) == x - i * TWO32;
    if Is32(r, x) {
      var j := (r - x) / TWO32;
      assert r == x + j * TWO32;
    }
  }

  lemma Int64Iff(x: int, r: int)
    ensures ToInt64(x) == r <==> Is64(r, x)
  {
    var i := (x + TWO63) / TWO64;
    assert ToInt64(x) == x - i * TWO64;
    if Is64(r, x) {
      var j := (r - x) / TWO64;
      assert r == x + j * TWO64;
    }
  }

  datatype Dest = ToServer | ToClient

  datatype Addresses = Addresses(user: string, srcAddr: string, srcPort: string, dstAddr: string, dstPort: string)

  datatype Row = Row(addresses: Addresses, active: bool, sent: int, recv: int) {
    function Counter(dest: Dest): int { if dest.ToServer? then sent else recv }

    function WithCounter(dest: Dest, n: int): (r: Row)
      ensures r.Counter(dest) == n && r.active == active && r.addresses == addresses
      ensures forall d :: d != dest ==> r.Counter(d) == Counter(d)
    {
      if dest.ToServer? then this.(sent := n) else this.(recv := n)
    }
  }

  /** `lastId` is what AUTOINCREMENT remembers: no id at or below it is given out again. */
  datatype Table = Table(rows: map<int, Row>, lastId: int)

  /** The struct a row is read into; its numbers are 32 bits wide. */
  datatype Session = Session(id: int, addresses: Addresses, active: bool, sent: int, recv: int) {
    function Counter(dest: Dest): int { if dest.ToServer? then sent else recv }
  }

  datatype Result<+T> = Ok(value: T) | Failed

  /** A text bound with length -1 ends at its first NUL. */
  function Bound(s: string): (r: string)
    ensures r <= s && '\0' !in r && (r == s || s[|r|] == '\0')
  {
    if s == "" || s[0] == '\0' then "" else [s[0]] + Bound(s[1..])
  }

  function BoundAddresses(a: Addresses): Addresses {
    Addresses(Bound(a.user), Bound(a.srcAddr), Bound(a.srcPort), Bound(a.dstAddr), Bound(a.dstPort))
  }

  function Inserted(t: Table, a: Addresses): Table {
    Table(t.rows[t.lastId + 1 := Row(BoundAddresses(a), true, 0, 0)], t.lastId + 1)
  }

  predicate UpToNul(r: string, s: string) { r <= s && '\0' !in r && (r == s || s[|r|] == '\0') }

  /** Each text in its column, up to its first NUL; active, nothing counted yet. */
  predicate IsNewRow(row: Row, a: Addresses) {
    && UpToNul(row.addresses.user, a.user)
    && UpToNul(row.addresses.srcAddr, a.srcAddr) && UpToNul(row.addresses.srcPort, a.srcPort)
    && UpToNul(row.addresses.dstAddr, a.dstAddr) && UpToNul(row.addresses.dstPort, a.dstPort)
    && row.active && row.sent == 0 && row.recv == 0
  }

  function ReadRow(id: int, row: Row): Session {
    Session(ToInt32(id), row.addresses, row.active, ToInt32(row.sent), ToInt32(row.recv))
  }

  /** UPDATE ... SET bytes_sent or bytes_recv WHERE id: the sum is computed in size_t and stored as long long. */
  function Updated(t: Table, id: int, bytes: SizeT, dest: Dest): Result<Table> {
    if id !in t.rows then Failed
    else
      var s := ReadRow(id, t.rows[id]);
      if s.id == 0 then Failed
      else Ok(t.(rows := t.rows[id := t.rows[id].WithCounter(dest, ToInt64(s.Counter(dest) + bytes))]))
  }

  function Inactive(t: Table, id: int): Table {
    if id in t.rows then t.(rows := t.rows[id := t.rows[id].(active := false)]) else t
  }

  /** close binds the id read back from the row, 32 bits wide, not the one it was given. */
  function Closed(t: Table, id: int): Result<Table> {
    if id !in t.rows then Failed
    else
      var s := ReadRow(id, t.rows[id]);
      if s.id == 0 then Failed else Ok(Inactive(t, s.id))
  }

  /** The service object; `fault` says that SQLite reports an error in the call, which is then thrown. */
  class DatabaseService {
    var table: Table

    constructor (stored: Table)
      ensures table.lastId == stored.lastId && table.rows.Keys == stored.rows.Keys
      ensures forall id :: id in stored.rows ==> table.rows[id] == stored.rows[id].(active := false)
    {
      table := Table(map id | id in stored.rows :: stored.rows[id].(active := false), stored.lastId);
    }

    method Create(a: Addresses, fault: bool) returns (r: Result<int>)
      modifies this
      ensures fault ==> r.Failed? && table == old(table)
      ensures !fault ==> r == Ok(table.lastId) && table == Inserted(old(table), a)
      ensures !fault ==>
        && table.lastId == old(table).lastId + 1 && table.lastId in table.rows && IsNewRow(table.rows[table.lastId], a)
        && forall id :: id in old(table).rows && id != table.lastId ==>
             id in table.rows && table.rows[id] == old(table).rows[id]
    {
      if fault { return Failed; }
      table := Inserted(table, a);
      r := Ok(table.lastId);
    }

    method SelectSession(id: int, fault: bool) returns (r: Result<Session>)
      ensures r == if fault || id !in table.rows then Failed else Ok(ReadRow(id, table.rows[id]))
      ensures r.Ok? ==>
        && r.value.active == table.rows[id].active && r.value.addresses == table.rows[id].addresses
        && Is32(r.value.id, id) && Is32(r.value.sent, table.rows[id].sent) && Is32(r.value.recv, table.rows[id].recv)
    {
      if fault || id !in table.rows { return Failed; }
      var row := table.rows[id];
      var s := Session(0, row.addresses, false, 0, 0);
      s := s.(id := ToInt32(id));
      s := s.(active := row.active);
      s := s.(sent := ToInt32(row.sent));
      s := s.(recv := ToInt32(row.recv));
      Int32Iff(id, s.id);
      Int32Iff(row.sent, s.sent);
      Int32Iff(row.recv, s.recv);
      r := Ok(s);
    }

    method Update(id: int, bytes: SizeT, dest: Dest, fault: bool) returns (r: Result<()>)
      modifies this
      ensures var next := if fault then Failed else Updated(old(table), id, bytes, dest);
        match next case Ok(t) => r == Ok(()) && table == t case Failed => r.Failed? && table == old(table)
    {
      var read := SelectSession(id, fault);
      if read.Failed? || read.value.id == 0 { return Failed; }
      var s, row := read.value, table.rows[id];
      var newBytes;
      if dest.ToClient? {
        newBytes := ToInt64(s.recv + bytes);
        row := row.(recv := newBytes);
      } else {
        newBytes := ToInt64(s.sent + bytes);
        row := row.(sent := newBytes);
      }
      table := table.(rows := table.rows[id := row]);
      r := Ok(());
    }

    method Close(id: int, fault: bool) returns (r: Result<()>)
      modifies this
      ensures var next := if fault then Failed else Closed(old(table), id);
        match next case Ok(t) => r == Ok(()) && table == t case Failed => r.Failed? && table == old(table)
    {
      var read := SelectSession(id, fault);
      if read.Failed? || read.value.id == 0 { return Failed; }
      var bound := read.value.id;
      if bound in table.rows {
        table := table.(rows := table.rows[bound := table.rows[bound].(active := false)]);
      }
      r := Ok(());
    }
  }

  // ---- The accumulation law ----

  datatype Report = Report(id: int, bytes: SizeT, dest: Dest)

  function ApplyOne(t: Table, r: Report): Table {
    match Updated(t, r.id, r.bytes, r.dest) case Ok(next) => next case Failed => t
  }

  /** The table after the reports, one after the other; a failed update leaves it as it was. */
  function Applied(t: Table, reports: seq<Report>): Table {
    if reports == [] then t
    else
      ApplyOne(Applied(t, reports[..|reports| - 1]), reports[|reports| - 1])
  }

  predicate Concerns(r: Report, id: int, dest: Dest) { r.id == id && r.dest == dest }

  function Total(reports: seq<Report>, id: int, dest: Dest): nat {
    if reports == [] then 0
    else
      var last := reports[|reports| - 1];
      Total(reports[..|reports| - 1], id, dest) + if Concerns(last, id, dest) then last.bytes else 0
  }

  /** The total before the last report for this row and direction; -1 when there is none. */
  function TotalBeforeLast(reports: seq<Report>, id: int, dest: Dest): int {
    if reports == [] then -1
    else if Concerns(reports[|reports| - 1], id, dest) then Total(reports[..|reports| - 1], id, dest)
    else TotalBeforeLast(reports[..|reports| - 1], id, dest)
  }

  predicate Congruent(a: int, b: int) { (a - b) % TWO32 == 0 }

  /** A report moves a stored counter by its bytes, up to multiples of 2^32, and two congruent counters alike. */
  lemma StoredStep(stored: int, total: int, bytes: SizeT)
    requires Congruent(stored, total)
    ensures ToInt32(stored) == ToInt32(total)
    ensures Congruent(ToInt64(ToInt32(stored) + bytes), total + bytes)
  {
    var k := (stored - total) / TWO32;
    assert stored == total + k * TWO32;
    var sum := ToInt32(stored) + bytes;
    var j := (sum + TWO63) / TWO64;
    assert ToInt64(sum) == sum - j * TWO64;
    var i := (stored + TWO31) / TWO32;
    assert ToInt32(stored) == stored - i * TWO32;
    assert ToInt64(sum) - (total + bytes) == (k - i - j * TWO32) * TWO32;
  }

  lemma ExactStep(total: nat, bytes: SizeT)
    ensures ToInt64(ToInt32(total) + bytes) == total + bytes <==> total < TWO31 && total + bytes < TWO63
  {
    var i := (total + TWO31) / TWO32;
    assert ToInt32(total) == total - i * TWO32;
    var j := (ToInt32(total) + bytes + TWO63) / TWO64;
    assert ToInt64(ToInt32(total) + bytes) == total + bytes - i * TWO32 - j * TWO64;
  }

  /** A row whose id is cut to zero refuses every report. */
  lemma {:induction false} RefusedRowStays(t: Table, reports: seq<Report>, id: int)
    requires id in t.rows && ToInt32(id) == 0
    ensures id in Applied(t, reports).rows && Applied(t, reports).rows[id] == t.rows[id]
  {
    if reports == [] {
    } else {
      RefusedRowStays(t, reports[..|reports| - 1], id);
    }
  }

  lemma {:induction false} Accumulates(t: Table, reports: seq<Report>, id: int, dest: Dest)
    requires id in t.rows && ToInt32(id) != 0
    ensures var after := Applied(t, reports);
      && after.rows.Keys == t.rows.Keys && after.lastId == t.lastId
      && after.rows[id].addresses == t.rows[id].addresses && after.rows[id].active == t.rows[id].active
      && Congruent(after.rows[id].Counter(dest), t.rows[id].Counter(dest) + Total(reports, id, dest))
      && (TotalBeforeLast(reports, id, dest) == -1 ==> after.rows[id].Counter(dest) == t.rows[id].Counter(dest))
  {
    if reports == [] {
    } else {
      var front, last := reports[..|reports| - 1], reports[|reports| - 1];
      Accumulates(t, front, id, dest);
      if Concerns(last, id, dest) {
        var before := Applied(t, front);
        StoredStep(before.rows[id].Counter(dest), t.rows[id].Counter(dest) + Total(front, id, dest), last.bytes);
      }
    }
  }

  /** After any reports, interleaved over rows and directions: the row stays, apart from its two counters; each counter
      is congruent mod 2^32 to what was reported for it, and unchanged if nothing was. A row whose id is cut to zero
      stays altogether. */
  lemma AccumulationLaw(t: Table, reports: seq<Report>, id: int, dest: Dest)
    requires id in t.rows
    ensures id in Applied(t, reports).rows
    ensures var row, after := t.rows[id], Applied(t, reports).rows[id];
      && after.addresses == row.addresses && after.active == row.active
      && (if ToInt32(id) == 0 then after == row
          else Congruent(after.Counter(dest), row.Counter(dest) + Total(reports, id, dest)))
      && (TotalBeforeLast(reports, id, dest) == -1 ==> after.Counter(dest) == row.Counter(dest))
  {
    if ToInt32(id) == 0 { RefusedRowStays(t, reports, id); } else { Accumulates(t, reports, id, dest); }
  }

  lemma ExactAtLast(t: Table, reports: seq<Report>, id: int, dest: Dest)
    requires id in t.rows && ToInt32(id) != 0 && t.rows[id].Counter(dest) == 0
    requires reports != [] && Concerns(reports[|reports| - 1], id, dest)
    ensures id in Applied(t, reports).rows
    ensures Applied(t, reports).rows[id].Counter(dest) == Total(reports, id, dest)
      <==> TotalBeforeLast(reports, id, dest) < TWO31 && Total(reports, id, dest) < TWO63
  {
    var front, bytes := reports[..|reports| - 1], reports[|reports| - 1].bytes;
    Accumulates(t, front, id, dest);
    var stored, total := Applied(t, front).rows[id].Counter(dest), Total(front, id, dest);
    StoredStep(stored, total, bytes);
    ExactStep(total, bytes);
    assert Applied(t, reports).rows[id].Counter(dest) == ToInt64(ToInt32(stored) + bytes);
  }

  lemma {:induction false} ExactIfAccepted(t: Table, reports: seq<Report>, id: int, dest: Dest)
    requires id in t.rows && ToInt32(id) != 0 && t.rows[id].Counter(dest) == 0
    ensures id in Applied(t, reports).rows
    ensures var before := TotalBeforeLast(reports, id, dest);
      Applied(t, reports).rows[id].Counter(dest) == Total(reports, id, dest)
      <==> before == -1 || (before < TWO31 && Total(reports, id, dest) < TWO63)
  {
    Accumulates(t, reports, id, dest);
    if reports == [] {
    } else if Concerns(reports[|reports| - 1], id, dest) {
      ExactAtLast(t, reports, id, dest);
    } else {
      ExactIfAccepted(t, reports[..|reports| - 1], id, dest);
    }
  }

  /** The counter of a row created with zero bytes is the true total exactly when nothing was reported, or the total
      before the last report was below 2^31 and the total now is below 2^63; for an id that is cut to zero, exactly when
      the total is zero. */
  lemma ExactIff(t: Table, reports: seq<Report>, id: int, dest: Dest)
    requires id in t.rows && t.rows[id].Counter(dest) == 0
    ensures id in Applied(t, reports).rows
    ensures var before, total := TotalBeforeLast(reports, id, dest), Total(reports, id, dest);
      Applied(t, reports).rows[id].Counter(dest) == total
      <==> if ToInt32(id) == 0 then total == 0 else before == -1 || (before < TWO31 && total < TWO63)
  {
    if ToInt32(id) == 0 { RefusedRowStays(t, reports, id); } else { ExactIfAccepted(t, reports, id, dest); }
  }

  /** Where it is not: 2^31 bytes and one more, reported for any row whose id is not cut to zero. */
  lemma TotalIsLost(t: Table, id: int, dest: Dest)
    requires id in t.rows && ToInt32(id) != 0 && t.rows[id].Counter(dest) == 0
    ensures var reports := [Report(id, TWO31, dest), Report(id, 1, dest)];
      id in Applied(t, reports).rows && Applied(t, reports).rows[id].Counter(dest) != Total(reports, id, dest)
  {
    var first, second := Report(id, TWO31, dest), Report(id, 1, dest);
    assert [first, second][..1] == [first] && [first][..0] == [];
    assert Total([first], id, dest) == Total([], id, dest) + TWO31;
    ExactIff(t, [first, second], id, dest);
  }

  /** Reports for different rows, or for the two directions of one row, can be exchanged. */
  lemma ReportsCommute(t: Table, a: Report, b: Report)
    requires a.id != b.id || a.dest != b.dest
    ensures Applied(t, [a, b]) == Applied(t, [b, a])
  {
  }

  // ---- Closing ----

  /** What becomes of a positive id on its way through 32 bits. */
  lemma IdInt32(id: int)
    requires id > 0
    ensures ToInt32(id) <= id
    ensures ToInt32(id) == id <==> id < TWO31
    ensures ToInt32(id) == 0 <==> id % TWO32 == 0
  {
    var i := (id + TWO31) / TWO32;
    assert ToInt32(id) == id - i * TWO32;
  }

  /** close fails exactly when there is no such row or the id is cut to zero. Otherwise it marks the row it was given
      exactly when the id fits 32 bits; if not, that row is left as it was and the row with the truncated id, if there
      is one, is marked. */
  lemma CloseHitsOwnRowIff(t: Table, id: int)
    ensures Closed(t, id).Ok? <==> id in t.rows && ToInt32(id) != 0
    ensures Closed(t, id).Ok? ==>
      var after := Closed(t, id).value.rows;
      && after.Keys == t.rows.Keys && Closed(t, id).value.lastId == t.lastId
      && (!after[id].active <==> !t.rows[id].active || -TWO31 <= id < TWO31)
      && (ToInt32(id) in t.rows ==> after[ToInt32(id)] == t.rows[ToInt32(id)].(active := false))
      && forall other :: other in t.rows && other != ToInt32(id) ==> after[other] == t.rows[other]
  {
  }

  /** The failing family, on an input: with 2^32 + 1 rows created, closing the last one marks row 1. */
  lemma CloseHitsAnotherRow(a: Addresses)
    ensures var row := Row(a, true, 0, 0);
      var t := Table(map[1 := row, TWO32 + 1 := row], TWO32 + 1);
      var after := Closed(t, TWO32 + 1);
      after.Ok? && after.value.rows[TWO32 + 1].active && !after.value.rows[1].active
  {
    assert ToInt32(TWO32 + 1) == 1;
  }
}
