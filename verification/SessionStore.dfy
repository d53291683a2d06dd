/**
 The session table twice: the SQL statements of `lib/auth/d1-session-store.ts`
 run on the D1 database, and the in-memory stand-in of
 `lib/auth/route-session-store.ts` that recognises the same statements by
 their text. Cookies enter only through their SHA-256 digest in hexadecimal,
 64 characters long.
 */
module SessionStore {
  import opened Wrappers
  import opened Numerals

  datatype Row = Row(
    privyUserId: string,
    walletAddress: string,
    createdAt: int,
    expiresAt: int,
    lastUsedAt: int,
    revokedAt: Option<int>,
    userAgentHash: string)

  type Table = map<string, Row>

  datatype Op =
    | Persist(id: string, row: Row)
    | Lookup(id: string, now: nat)
    | Revoke(id: string, now: nat)
    | Touch(id: string, now: nat)
    | Cleanup(now: nat)

  datatype Answer = Done | Refused | Found(session: Option<Row>)

  // ----- the SQL store -----

  function Select(rows: Table, id: string, now: nat): Option<Row> {
    if id in rows && rows[id].revokedAt.None? && rows[id].expiresAt > now then Some(rows[id]) else None
  }

  function Unexpired(rows: Table, now: nat): Table {
    map k | k in rows && rows[k].expiresAt > now :: rows[k]
  }

  function SqlTable(rows: Table, op: Op): Table {
    match op
    case Persist(id, row) => if id in rows then rows else rows[id := row]
    case Lookup(_, _) => rows
    case Revoke(id, now) =>
      if id in rows then rows[id := rows[id].(revokedAt := Some(now), lastUsedAt := now)] else rows
    case Touch(id, now) =>
      if id in rows && rows[id].revokedAt.None? then rows[id := rows[id].(lastUsedAt := now)] else rows
    case Cleanup(now) => Unexpired(rows, now)
  }

  /** A second INSERT of a primary key is an error. */
  function SqlAnswer(rows: Table, op: Op): Answer {
    match op
    case Persist(id, _) => if id in rows then Refused else Done
    case Lookup(id, now) => Found(Select(rows, id, now))
    case _ => Done
  }

  class SqlStore {
    var rows: Table

    constructor ()
      ensures rows == map[]
    {
      rows := map[];
    }

    method Execute(op: Op) returns (answer: Answer)
      modifies this
      ensures rows == SqlTable(old(rows), op) && answer == SqlAnswer(old(rows), op)
    {
      answer := Done;
      match op
      case Persist(id, row) =>
        if id in rows { answer := Refused; } else { rows := rows[id := row]; }
      case Lookup(id, now) =>
        answer := Found(Select(rows, id, now));
      case Revoke(id, now) =>
        if id in rows { rows := rows[id := rows[id].(revokedAt := Some(now), lastUsedAt := now)]; }
      case Touch(id, now) =>
        if id in rows && rows[id].revokedAt.None? { rows := rows[id := rows[id].(lastUsedAt := now)]; }
      case Cleanup(now) =>
        rows := Unexpired(rows, now);
    }

    /** Serves the statements one after another. */
    method ExecuteAll(ops: seq<Op>) returns (answers: seq<Answer>)
      modifies this
      ensures answers == SqlRun(old(rows), ops) && rows == SqlAfter(old(rows), ops)
    {
      answers := [];
      for i := 0 to |ops|
        invariant answers + SqlRun(rows, ops[i..]) == SqlRun(old(rows), ops)
        invariant SqlAfter(rows, ops[i..]) == SqlAfter(old(rows), ops)
      {
        ghost var rest := ops[i..];
        assert rest[0] == ops[i] && rest[1..] == ops[i + 1..];
        var answer := Execute(ops[i]);
        answers := answers + [answer];
      }
    }
  }

  // ----- the in-memory store -----

  function TouchKey(rows: Table, key: string, now: nat): Table {
    if key in rows then rows[key := rows[key].(lastUsedAt := now)] else rows
  }

  /** The revoke statement's text also matches the touch branch, which then runs
      with the bound values one place off: its key is the timestamp's text. */
  function MemTable(rows: Table, op: Op): Table {
    match op
    case Persist(id, row) => rows[id := row]
    case Lookup(_, _) => rows
    case Revoke(id, now) =>
      var first := if id in rows then rows[id := rows[id].(revokedAt := Some(now), lastUsedAt := now)] else rows;
      TouchKey(first, Decimal(now), now)
    case Touch(id, now) => TouchKey(rows, id, now)
    case Cleanup(now) => Unexpired(rows, now)
  }

  function MemAnswer(rows: Table, op: Op): Answer {
    match op
    case Lookup(id, now) => Found(Select(rows, id, now))
    case _ => Done
  }

  class MemoryStore {
    var rows: Table

    constructor ()
      ensures rows == map[]
    {
      rows := map[];
    }

    method Execute(op: Op) returns (answer: Answer)
      modifies this
      ensures rows == MemTable(old(rows), op) && answer == MemAnswer(old(rows), op)
    {
      answer := Done;
      match op
      case Persist(id, row) =>
        rows := rows[id := row];
      case Lookup(id, now) =>
        answer := Found(Select(rows, id, now));
      case Revoke(id, now) =>
        if id in rows { rows := rows[id := rows[id].(revokedAt := Some(now), lastUsedAt := now)]; }
        if Decimal(now) in rows { rows := rows[Decimal(now) := rows[Decimal(now)].(lastUsedAt := now)]; }
      case Touch(id, now) =>
        if id in rows { rows := rows[id := rows[id].(lastUsedAt := now)]; }
      case Cleanup(now) =>
        DeleteExpired(now);
    }

    /** Walks the entries and deletes from the map it walks. */
    method DeleteExpired(now: nat)
      modifies this
      ensures rows == Unexpired(old(rows), now)
      ensures forall k :: k in rows <==> k in old(rows) && old(rows)[k].expiresAt > now
      ensures forall k :: k in rows ==> rows[k] == old(rows)[k]
    {
      var left := rows.Keys;
      while left != {}
        invariant left <= rows.Keys <= old(rows).Keys
        invariant forall k :: k in rows ==> rows[k] == old(rows)[k]
        invariant forall k :: k in old(rows) && k !in left ==> (k in rows <==> old(rows)[k].expiresAt > now)
        decreases left
      {
        var key :| key in left;
        left := left - {key};
        if rows[key].expiresAt <= now {
          rows := rows - {key};
        }
      }
    }

    /** Serves the statements one after another. */
    method ExecuteAll(ops: seq<Op>) returns (answers: seq<Answer>)
      modifies this
      ensures answers == MemRun(old(rows), ops) && rows == MemAfter(old(rows), ops)
    {
      answers := [];
      for i := 0 to |ops|
        invariant answers + MemRun(rows, ops[i..]) == MemRun(old(rows), ops)
        invariant MemAfter(rows, ops[i..]) == MemAfter(old(rows), ops)
      {
        ghost var rest := ops[i..];
        assert rest[0] == ops[i] && rest[1..] == ops[i + 1..];
        var answer := Execute(ops[i]);
        answers := answers + [answer];
      }
    }
  }

  // ----- the two stores agree -----

  /** Equal, except that a touched revoked row may show another last use. */
  predicate SameRow(a: Row, b: Row) {
    a == b || (a.revokedAt.Some? && b == a.(lastUsedAt := b.lastUsedAt))
  }

  predicate Related(sql: Table, mem: Table) {
    && sql.Keys == mem.Keys
    && (forall k :: k in sql ==> SameRow(sql[k], mem[k]))
    && (forall k :: k in sql ==> |k| == 64)
  }

  predicate WellFormed(op: Op) {
    && (!op.Cleanup? ==> |op.id| == 64)
    && (op.Revoke? ==> op.now < 9_007_199_254_740_992)
  }

  predicate ReusesId(sql: Table, op: Op) {
    op.Persist? && op.id in sql
  }

  /** From related tables, one statement gets the same answer from both stores
      exactly when it does not insert a present id, and then they stay related. */
  lemma StatementAgrees(sql: Table, mem: Table, op: Op)
    requires Related(sql, mem) && WellFormed(op)
    ensures SqlAnswer(sql, op) == MemAnswer(mem, op) <==> !ReusesId(sql, op)
    ensures !ReusesId(sql, op) ==> Related(SqlTable(sql, op), MemTable(mem, op))
  {
    if op.Revoke? {
      DecimalOfSafeInteger(op.now);
      assert Decimal(op.now) !in mem;
      assert Decimal(op.now) != op.id;
    }
  }

  function SqlRun(rows: Table, ops: seq<Op>): (answers: seq<Answer>)
    ensures |answers| == |ops|
    decreases ops
  {
    if ops == [] then [] else [SqlAnswer(rows, ops[0])] + SqlRun(SqlTable(rows, ops[0]), ops[1..])
  }

  function MemRun(rows: Table, ops: seq<Op>): (answers: seq<Answer>)
    ensures |answers| == |ops|
    decreases ops
  {
    if ops == [] then [] else [MemAnswer(rows, ops[0])] + MemRun(MemTable(rows, ops[0]), ops[1..])
  }

  function SqlAfter(rows: Table, ops: seq<Op>): Table
    decreases ops
  {
    if ops == [] then rows else SqlAfter(SqlTable(rows, ops[0]), ops[1..])
  }

  function MemAfter(rows: Table, ops: seq<Op>): Table
    decreases ops
  {
    if ops == [] then rows else MemAfter(MemTable(rows, ops[0]), ops[1..])
  }

  predicate NeverReuses(sql: Table, ops: seq<Op>)
    decreases ops
  {
    ops == [] || (WellFormed(ops[0]) && !ReusesId(sql, ops[0]) && NeverReuses(SqlTable(sql, ops[0]), ops[1..]))
  }

  /** One id inserted twice: the database refuses, the stand-in overwrites. */
  lemma SecondInsertSplits(id: string, a: Row, b: Row, now: nat)
    requires |id| == 64 && a != b && a.revokedAt.None? && b.revokedAt.None? && now < a.expiresAt && now < b.expiresAt
    ensures var ops := [Persist(id, a), Persist(id, b), Lookup(id, now)];
            && SqlRun(map[], ops) == [Done, Refused, Found(Some(a))]
            && MemRun(map[], ops) == [Done, Done, Found(Some(b))]
  {
    var one, two, ask := Persist(id, a), Persist(id, b), Lookup(id, now);
    assert [one, two, ask][1..] == [two, ask] && [two, ask][1..] == [ask] && [ask][1..] == [];
    var first, second := map[id := a], map[id := b];
    assert SqlRun(first, [ask]) == [Found(Some(a))] && MemRun(second, [ask]) == [Found(Some(b))];
    assert SqlRun(first, [two, ask]) == [Refused, Found(Some(a))];
    assert MemRun(first, [two, ask]) == [Done, Found(Some(b))] by { assert first[id := b] == second; }
  }

  /** Over every run that never inserts a present id, both stores give the same answers and stay related. */
  lemma {:induction false} StoresAgree(sql: Table, mem: Table, ops: seq<Op>)
    requires Related(sql, mem) && NeverReuses(sql, ops)
    ensures SqlRun(sql, ops) == MemRun(mem, ops)
    ensures Related(SqlAfter(sql, ops), MemAfter(mem, ops))
    decreases ops
  {
    if ops != [] {
      StatementAgrees(sql, mem, ops[0]);
      StoresAgree(SqlTable(sql, ops[0]), MemTable(mem, ops[0]), ops[1..]);
    }
  }

  // ----- revocation is final -----

  predicate Dead(rows: Table, id: string) {
    id in rows ==> rows[id].revokedAt.Some?
  }

  predicate Inserts(op: Op, id: string) {
    op.Persist? && op.id == id
  }

  lemma {:induction false} DeadInSql(rows: Table, id: string, ops: seq<Op>, j: nat)
    requires Dead(rows, id) && j < |ops| && ops[j].Lookup? && ops[j].id == id
    requires forall k :: 0 <= k < j ==> !Inserts(ops[k], id)
    ensures SqlRun(rows, ops)[j] == Found(None)
    decreases ops
  {
    if j > 0 {
      assert !Inserts(ops[0], id);
      DeadInSql(SqlTable(rows, ops[0]), id, ops[1..], j - 1);
    }
  }

  lemma {:induction false} DeadInMemory(rows: Table, id: string, ops: seq<Op>, j: nat)
    requires Dead(rows, id) && j < |ops| && ops[j].Lookup? && ops[j].id == id
    requires forall k :: 0 <= k < j ==> !Inserts(ops[k], id)
    ensures MemRun(rows, ops)[j] == Found(None)
    decreases ops
  {
    if j > 0 {
      assert !Inserts(ops[0], id);
      DeadInMemory(MemTable(rows, ops[0]), id, ops[1..], j - 1);
    }
  }

  /** `ops[j]` looks up the id that `ops[i]` revoked and nothing inserted since. */
  predicate LooksUpRevoked(ops: seq<Op>, i: nat, j: nat) {
    && i < j < |ops|
    && ops[i].Revoke? && ops[j].Lookup? && ops[j].id == ops[i].id
    && forall k :: i < k < j ==> !Inserts(ops[k], ops[i].id)
  }

  lemma LooksUpTail(ops: seq<Op>, i: nat, j: nat)
    requires LooksUpRevoked(ops, i, j)
    ensures i > 0 ==> LooksUpRevoked(ops[1..], i - 1, j - 1)
    ensures forall k :: i <= k < j - 1 ==> !Inserts(ops[1..][k], ops[i].id)
  {
    var rest := ops[1..];
    assert forall k :: 0 <= k < |rest| ==> rest[k] == ops[k + 1];
  }

  /** Once revoked, a session is not found again until its id is inserted anew, in either store. */
  lemma {:induction false} RevocationIsFinal(sql: Table, mem: Table, ops: seq<Op>, i: nat, j: nat)
    requires LooksUpRevoked(ops, i, j)
    ensures SqlRun(sql, ops)[j] == Found(None) && MemRun(mem, ops)[j] == Found(None)
    decreases ops
  {
    var sql', mem', rest := SqlTable(sql, ops[0]), MemTable(mem, ops[0]), ops[1..];
    LooksUpTail(ops, i, j);
    if i == 0 {
      DeadInSql(sql', ops[0].id, rest, j - 1);
      DeadInMemory(mem', ops[0].id, rest, j - 1);
    } else {
      RevocationIsFinal(sql', mem', rest, i - 1, j - 1);
    }
  }

  // ----- a live session is found -----

  /** When an id was last used, if not after `start`. */
  function LastUse(ops: seq<Op>, id: string, start: int): int {
    if ops == [] then start
    else
      var last := ops[|ops| - 1];
      if last.Touch? && last.id == id then last.now else LastUse(ops[..|ops| - 1], id, start)
  }

  /** No statement revokes the id or cleans it up in time. */
  predicate LeavesAlive(op: Op, id: string, expiresAt: int) {
    !(op.Revoke? && op.id == id) && (op.Cleanup? ==> op.now < expiresAt)
  }

  lemma {:induction false} LastUseCons(ops: seq<Op>, id: string, start: int)
    requires ops != []
    ensures LastUse(ops, id, start)
         == LastUse(ops[1..], id, if ops[0].Touch? && ops[0].id == id then ops[0].now else start)
  {
    if |ops| == 1 {
      assert ops[..0] == [] && ops[1..] == [];
    } else {
      assert ops[..|ops| - 1][1..] == ops[1..][..|ops| - 2];
      LastUseCons(ops[..|ops| - 1], id, start);
    }
  }

  lemma {:induction false} AliveIsFound(rows: Table, id: string, ops: seq<Op>, j: nat)
    requires id in rows && rows[id].revokedAt.None? && j < |ops| && ops[j].Lookup? && ops[j].id == id
    requires forall k :: 0 <= k < j ==> LeavesAlive(ops[k], id, rows[id].expiresAt)
    ensures SqlRun(rows, ops)[j]
         == Found(if ops[j].now < rows[id].expiresAt
                  then Some(rows[id].(lastUsedAt := LastUse(ops[..j], id, rows[id].lastUsedAt))) else None)
    decreases ops
  {
    if j == 0 {
      assert ops[..0] == [];
    } else {
      assert LeavesAlive(ops[0], id, rows[id].expiresAt);
      var rows' := SqlTable(rows, ops[0]);
      LastUseCons(ops[..j], id, rows[id].lastUsedAt);
      assert ops[..j][1..] == ops[1..][..j - 1];
      AliveIsFound(rows', id, ops[1..], j - 1);
    }
  }

  lemma {:induction false} AbsentIsMissed(rows: Table, id: string, ops: seq<Op>, j: nat)
    requires id !in rows && j < |ops| && ops[j].Lookup? && ops[j].id == id
    requires forall k :: 0 <= k < j ==> !Inserts(ops[k], id)
    ensures SqlRun(rows, ops)[j] == Found(None)
    decreases ops
  {
    if j > 0 {
      assert !Inserts(ops[0], id);
      AbsentIsMissed(SqlTable(rows, ops[0]), id, ops[1..], j - 1);
    }
  }

  /** `ops[j]` looks up the id that `ops[i]` inserted first, and that was not revoked or cleaned up in time since. */
  predicate LooksUpLive(ops: seq<Op>, i: nat, j: nat) {
    && i < j < |ops|
    && ops[i].Persist? && ops[i].row.revokedAt.None? && ops[j].Lookup? && ops[j].id == ops[i].id
    && (forall k :: 0 <= k < i ==> !Inserts(ops[k], ops[i].id))
    && (forall k :: i < k < j ==> LeavesAlive(ops[k], ops[i].id, ops[i].row.expiresAt))
  }

  /** What it finds: the row that was inserted, with its last use, before it expires. */
  function FoundAt(ops: seq<Op>, i: nat, j: nat): Answer
    requires LooksUpLive(ops, i, j)
  {
    var row := ops[i].row;
    Found(if ops[j].now < row.expiresAt
          then Some(row.(lastUsedAt := LastUse(ops[i + 1..j], ops[i].id, row.lastUsedAt))) else None)
  }

  lemma LooksUpLiveTail(ops: seq<Op>, i: nat, j: nat)
    requires LooksUpLive(ops, i, j) && i > 0
    ensures LooksUpLive(ops[1..], i - 1, j - 1) && FoundAt(ops[1..], i - 1, j - 1) == FoundAt(ops, i, j)
  {
    var rest := ops[1..];
    assert forall k :: 0 <= k < |rest| ==> rest[k] == ops[k + 1];
    assert rest[i..j - 1] == ops[i + 1..j];
  }

  lemma {:induction false} LiveIsFound(rows: Table, ops: seq<Op>, i: nat, j: nat)
    requires LooksUpLive(ops, i, j) && ops[i].id !in rows
    ensures SqlRun(rows, ops)[j] == FoundAt(ops, i, j)
    decreases ops
  {
    var rows', rest := SqlTable(rows, ops[0]), ops[1..];
    if i == 0 {
      assert forall k :: 0 <= k < |rest| ==> rest[k] == ops[k + 1];
      assert rest[..j - 1] == ops[1..j];
      AliveIsFound(rows', ops[0].id, rest, j - 1);
    } else {
      assert !Inserts(ops[0], ops[i].id);
      LooksUpLiveTail(ops, i, j);
      LiveIsFound(rows', rest, i - 1, j - 1);
    }
  }

  /** A new database and a new stand-in serve the same statements: alike if no
      id is inserted twice, and neither ever finds a revoked session. The database finds a live session as it was
      inserted and last used, until it expires, and nothing that was not inserted. */
  method ServeBoth(ops: seq<Op>) returns (answers: seq<Answer>, standIn: seq<Answer>)
    ensures |answers| == |standIn| == |ops|
    ensures NeverReuses(map[], ops) ==> answers == standIn
    ensures forall i: nat, j: nat :: LooksUpRevoked(ops, i, j) ==> answers[j] == standIn[j] == Found(None)
    ensures forall i: nat, j: nat :: LooksUpLive(ops, i, j) ==> answers[j] == FoundAt(ops, i, j)
    ensures forall j: nat :: NeverInserted(ops, j) ==> answers[j] == Found(None)
  {
    var database := new SqlStore();
    var memory := new MemoryStore();
    answers := database.ExecuteAll(ops);
    standIn := memory.ExecuteAll(ops);
    if NeverReuses(map[], ops) { StoresAgree(map[], map[], ops); }
    forall i: nat, j: nat | LooksUpRevoked(ops, i, j)
      ensures answers[j] == standIn[j] == Found(None)
    {
      RevocationIsFinal(map[], map[], ops, i, j);
    }
    forall i: nat, j: nat | LooksUpLive(ops, i, j)
      ensures answers[j] == FoundAt(ops, i, j)
    {
      LiveIsFound(map[], ops, i, j);
    }
    forall j: nat | NeverInserted(ops, j)
      ensures answers[j] == Found(None)
    {
      AbsentIsMissed(map[], ops[j].id, ops, j);
    }
  }

  /** `ops[j]` looks up an id that nothing has inserted. */
  predicate NeverInserted(ops: seq<Op>, j: nat) {
    j < |ops| && ops[j].Lookup? && forall k :: 0 <= k < j ==> !Inserts(ops[k], ops[j].id)
  }

  // ----- cleanup does not show -----

  function TimeOr(op: Op, last: int): int {
    if op.Persist? then last else op.now
  }

  predicate ClockRuns(last: int, ops: seq<Op>)
    decreases ops
  {
    ops == [] || (last <= TimeOr(ops[0], last) && ClockRuns(TimeOr(ops[0], last), ops[1..]))
  }

  /** No id is inserted twice, expired or not. */
  predicate IdsUsedOnce(used: set<string>, ops: seq<Op>)
    decreases ops
  {
    ops == []
    || if ops[0].Persist? then ops[0].id !in used && IdsUsedOnce(used + {ops[0].id}, ops[1..])
       else IdsUsedOnce(used, ops[1..])
  }

  function WithoutCleanup(ops: seq<Op>): seq<Op> {
    if ops == [] then []
    else if ops[0].Cleanup? then WithoutCleanup(ops[1..])
    else [ops[0]] + WithoutCleanup(ops[1..])
  }

  /** The answers of the statements other than cleanup. */
  function Heard(rows: Table, ops: seq<Op>): seq<Answer>
    decreases ops
  {
    if ops == [] then []
    else
      var rest := Heard(SqlTable(rows, ops[0]), ops[1..]);
      if ops[0].Cleanup? then rest else [SqlAnswer(rows, ops[0])] + rest
  }

  /** `kept` never forgot a row; what `rows` lacks of it has expired. */
  predicate OnlyExpiredMissing(rows: Table, kept: Table, now: int) {
    && rows.Keys <= kept.Keys
    && (forall k :: k in rows ==> rows[k] == kept[k])
    && (forall k :: k in kept && k !in rows ==> kept[k].expiresAt <= now)
  }

  /** With the clock not going back and ids used once, every other statement is
      answered as if cleanup had never run. */
  lemma {:induction false} CleanupIsInvisible(rows: Table, kept: Table, last: int, ops: seq<Op>)
    requires OnlyExpiredMissing(rows, kept, last) && ClockRuns(last, ops) && IdsUsedOnce(kept.Keys, ops)
    ensures Heard(rows, ops) == SqlRun(kept, WithoutCleanup(ops))
    decreases ops
  {
    if ops != [] {
      var op := ops[0];
      var now := TimeOr(op, last);
      var rows' := SqlTable(rows, op);
      if op.Cleanup? {
        CleanupIsInvisible(rows', kept, now, ops[1..]);
      } else {
        var kept' := SqlTable(kept, op);
        assert kept'.Keys == if op.Persist? then kept.Keys + {op.id} else kept.Keys;
        CleanupIsInvisible(rows', kept', now, ops[1..]);
        var w := WithoutCleanup(ops);
        assert w[0] == op && w[1..] == WithoutCleanup(ops[1..]);
      }
    }
  }
}
