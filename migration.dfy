/** `migrate_database`: bring an existing SQLite file up to the schema with
    roll numbers, e-mail, photo path and camera id, and give every student
    without a roll number the default `STU` + zero-padded id.

    The database is the part of its state the script reads or writes: the
    column names of both tables and, per student row, id, name and roll
    number. Statements are executed in order; which one raises, if any, is
    given as `failAt` (its position among the statements of the run).
    Transactions follow the `sqlite3` module's default handling, which opens
    a transaction only before a data-changing statement: each `ALTER TABLE`
    is committed as it runs, and `rollback()` undoes the roll-number updates
    only. */
module Migration {
  import opened Common

  datatype Table = StudentsTable | AttendanceTable

  /** A student row; `rollNumber` is `None` for SQL `NULL`, and also while the
      column does not exist. */
  datatype StudentRow = StudentRow(id: int, name: string, rollNumber: Option<string>)

  datatype Tables = Tables(studentColumns: seq<string>, attendanceColumns: seq<string>, students: seq<StudentRow>)

  /** The statements the script issues, `commit()` included.
      `SetDefaultRoll(id)` is the `UPDATE` whose parameters are the default
      roll number for `id` and `id` itself. */
  datatype Statement =
    | TableInfo(table: Table)
    | AddColumn(table: Table, column: string)
    | SelectMissingRoll
    | SetDefaultRoll(id: int)
    | Commit

  /** How a run ends: a new database was created; the changes were
      committed; an exception inside the `try` was rolled back and the
      connection closed; or a `PRAGMA` read before the `try` raised, which
      leaves the connection open. */
  datatype Outcome = Created | Committed | RolledBack | Raised

  // ---------------------------------------------------------------------
  // Statement effects.

  function ClearRolls(rows: seq<StudentRow>): (r: seq<StudentRow>)
    ensures |r| == |rows|
  {
    if rows == [] then [] else [rows[0].(rollNumber := None)] + ClearRolls(rows[1..])
  }

  /** `UPDATE students SET roll_number = ? WHERE id = ?`. */
  function SetRollWhere(rows: seq<StudentRow>, id: int, roll: string): (r: seq<StudentRow>)
    ensures |r| == |rows|
  {
    if rows == [] then []
    else [if rows[0].id == id then rows[0].(rollNumber := Some(roll)) else rows[0]] + SetRollWhere(rows[1..], id, roll)
  }

  /** The effect of one statement. A new column is appended and holds `NULL`
      in every existing row. */
  function Apply(t: Tables, s: Statement): Tables
  {
    match s
    case AddColumn(StudentsTable, c) =>
      t.(studentColumns := t.studentColumns + [c],
         students := if c == "roll_number" then ClearRolls(t.students) else t.students)
    case AddColumn(AttendanceTable, c) => t.(attendanceColumns := t.attendanceColumns + [c])
    case SetDefaultRoll(id) => t.(students := SetRollWhere(t.students, id, DefaultRoll(id)))
    case _ => t
  }

  function ApplyAll(t: Tables, ss: seq<Statement>): Tables
    decreases |ss|
  {
    if ss == [] then t else ApplyAll(Apply(t, ss[0]), ss[1..])
  }

  lemma {:induction false} ApplyAllAppend(t: Tables, a: seq<Statement>, b: seq<Statement>)
    ensures ApplyAll(t, a + b) == ApplyAll(ApplyAll(t, a), b)
    decreases |a|
  {
    if a == [] {
      assert a + b == b;
    } else {
      assert (a + b)[0] == a[0] && (a + b)[1..] == a[1..] + b;
      ApplyAllAppend(Apply(t, a[0]), a[1..], b);
    }
  }

  // ---------------------------------------------------------------------
  // The default roll number: `f"STU{student_id:04d}"`.

  function Zeros(k: nat): (z: string)
    ensures |z| == k && forall i :: 0 <= i < k ==> z[i] == '0'
  {
    if k == 0 then [] else "0" + Zeros(k - 1)
  }

  /** Zero-pad `s` on the left to at least `width` characters. */
  function PadZeros(s: string, width: nat): string
  {
    if |s| >= width then s else Zeros(width - |s|) + s
  }

  /** Python's `format(n, '04d')`: the sign counts towards the width. */
  function Format04d(n: int): string
  {
    if n < 0 then "-" + PadZeros(NatToString(-n), 3) else PadZeros(NatToString(n), 4)
  }

  function DefaultRoll(id: int): string
  {
    "STU" + Format04d(id)
  }

  /** Leading zeros do not change a decimal value. */
  lemma {:induction false} LeadingZeros(k: nat, s: string)
    requires forall i :: 0 <= i < |s| ==> IsDigit(s[i])
    ensures forall i :: 0 <= i < |Zeros(k) + s| ==> IsDigit((Zeros(k) + s)[i])
    ensures DigitsValue(Zeros(k) + s) == DigitsValue(s)
    decreases |s| + k
  {
    var z := Zeros(k);
    if s == [] {
      assert z + s == z;
      if k > 0 {
        assert z[..k - 1] == Zeros(k - 1);
        LeadingZeros(k - 1, []);
        assert Zeros(k - 1) + [] == Zeros(k - 1);
      }
    } else {
      var s' := s[..|s| - 1];
      LeadingZeros(k, s');
      assert (z + s)[..|z + s| - 1] == z + s';
    }
  }

  /** A default roll number is `STU` followed by the id's digits, padded to
      four with zeros but never cut: the id can be read back from it. */
  lemma DefaultRollReadsBack(id: nat)
    ensures var r := DefaultRoll(id);
      && r[..3] == "STU"
      && |r| == 3 + (if |NatToString(id)| < 4 then 4 else |NatToString(id)|)
      && IsDigits(r[3..]) && DigitsValue(r[3..]) == id
  {
    var d := NatToString(id);
    NatToStringRoundTrip(id);
    var r := DefaultRoll(id);
    assert r[3..] == PadZeros(d, 4);
    if |d| < 4 {
      LeadingZeros(4 - |d|, d);
    }
  }

  /** Different ids get different default roll numbers. */
  lemma DefaultRollsDistinct(a: nat, b: nat)
    requires a != b
    ensures DefaultRoll(a) != DefaultRoll(b)
  {
    DefaultRollReadsBack(a);
    DefaultRollReadsBack(b);
  }

  // ---------------------------------------------------------------------
  // The statements a run issues.

  function AddIfMissing(columns: seq<string>, table: Table, column: string): seq<Statement>
  {
    if column in columns then [] else [AddColumn(table, column)]
  }

  /** The `ALTER TABLE` statements, decided from the column lists read first. */
  function Alters(t: Tables): seq<Statement>
  {
    AddIfMissing(t.studentColumns, StudentsTable, "roll_number")
    + AddIfMissing(t.studentColumns, StudentsTable, "email")
    + AddIfMissing(t.studentColumns, StudentsTable, "photo_path")
    + AddIfMissing(t.attendanceColumns, AttendanceTable, "camera_id")
  }

  /** The `UPDATE` that gives a row its default roll number. */
  function DefaultUpdate(row: StudentRow): Statement
  {
    SetDefaultRoll(row.id)
  }

  /** One `UPDATE` per row, in order. */
  function Updates(rows: seq<StudentRow>): (r: seq<Statement>)
    ensures |r| == |rows|
  {
    if rows == [] then [] else [DefaultUpdate(rows[0])] + Updates(rows[1..])
  }

  lemma {:induction false} UpdatesAt(rows: seq<StudentRow>, i: nat)
    requires i < |rows|
    ensures Updates(rows)[i] == DefaultUpdate(rows[i])
  {
    if i > 0 {
      UpdatesAt(rows[1..], i - 1);
    }
  }

  /** One `UPDATE` per row whose roll number is `NULL`, in table order. */
  function Backfill(rows: seq<StudentRow>): seq<Statement>
  {
    Updates(MissingRolls(rows))
  }

  const Reads := [TableInfo(StudentsTable), TableInfo(AttendanceTable)]

  /** Every statement of a run that raises nothing, in order. */
  function Script(t: Tables): seq<Statement>
  {
    Reads + Alters(t) + Tail(ApplyAll(t, Alters(t)))
  }

  /** The statements after the `ALTER`s, given the tables they left. */
  function Tail(u: Tables): seq<Statement>
  {
    [SelectMissingRoll] + Backfill(u.students) + [Commit]
  }

  /** The database after a run that raises nothing. */
  function Migrated(t: Tables): Tables
  {
    ApplyAll(t, Script(t))
  }

  /** The database after the statement at position `k` raised: only the
      `ALTER TABLE` statements before it remain. */
  function Durable(t: Tables, k: nat): Tables
  {
    var a := Alters(t);
    if k <= |Reads| then t
    else if k - |Reads| <= |a| then ApplyAll(t, a[..k - |Reads|])
    else ApplyAll(t, a)
  }

  /** `create_db_and_tables`: the tables as declared by the models, which
      have none of the columns this script adds. */
  const Fresh := Tables(["id", "name", "embedding"], ["id", "student_id", "timestamp"], [])

  // ---------------------------------------------------------------------
  // The run itself.

  /** Some statement at a position in `lo .. hi - 1` raises. */
  predicate FailsIn(failAt: Option<nat>, lo: nat, hi: nat)
  {
    failAt.Some? && lo <= failAt.value < hi
  }

  /** `migrate_database`. `db` is the existing file's content, `None` when
      there is no file. */
  method Migrate(db: Option<Tables>, failAt: Option<nat>)
    returns (after: Tables, executed: seq<Statement>, outcome: Outcome)
    ensures db.None? ==> after == Fresh && executed == [] && outcome == Created
    ensures db.Some? && !FailsIn(failAt, 0, |Script(db.value)|) ==>
      && outcome == Committed && executed == Script(db.value) && after == Migrated(db.value)
    ensures db.Some? && FailsIn(failAt, 0, |Script(db.value)|) ==>
      && outcome == (if failAt.value < |Reads| then Raised else RolledBack)
      && executed == Script(db.value)[..failAt.value]
      && after == Durable(db.value, failAt.value)
  {
    if db.None? {
      return Fresh, [], Created;
    }
    var t := db.value;
    // The two `PRAGMA table_info` reads, outside the `try`.
    if failAt == Some(0) || failAt == Some(1) {
      executed := if failAt == Some(0) then [] else [TableInfo(StudentsTable)];
      ReadFailure(t, failAt.value);
      return t, executed, Raised;
    }
    after, executed, outcome := RunTry(t, failAt);
  }

  /** The `try` block: the `ALTER`s, the back-fill and the commit. */
  method RunTry(t: Tables, failAt: Option<nat>) returns (after: Tables, executed: seq<Statement>, outcome: Outcome)
    requires !FailsIn(failAt, 0, |Reads|)
    ensures outcome == Committed || outcome == RolledBack
    ensures outcome == Committed ==>
      && executed == Script(t) && after == Migrated(t) && !FailsIn(failAt, |Reads|, |executed|)
    ensures outcome == RolledBack ==>
      && failAt == Some(|executed|) && |executed| < |Script(t)|
      && executed == Script(t)[..|executed|] && after == Durable(t, |executed|)
  {
    var studentColumns, attendanceColumns := t.studentColumns, t.attendanceColumns;
    var failed;
    after, executed, failed := AlterPhase(t, studentColumns, attendanceColumns, failAt);
    if failed {
      AlterFailure(t, |executed| - |Reads|);
      return after, executed, RolledBack;
    }
    var altered, altersRun := after, executed;
    var tail;
    after, tail, failed := Finish(altered, failAt, |altersRun|);
    TailCase(t, failAt, altersRun, altered, tail, after, failed);
    executed := altersRun + tail;
    outcome := if failed then RolledBack else Committed;
  }

  /** The run after the last `ALTER`, in terms of the whole script: a
      failure rolls back to the altered tables, success commits `Migrated`. */
  lemma TailCase(t: Tables, failAt: Option<nat>, altersRun: seq<Statement>, altered: Tables,
                 tail: seq<Statement>, after: Tables, failed: bool)
    requires |altersRun| == |Reads| + |Alters(t)| && altersRun == Reads + Alters(t)[..|altersRun| - |Reads|]
    requires altered == ApplyAll(t, Alters(t)[..|altersRun| - |Reads|])
    requires !FailsIn(failAt, 0, |altersRun|)
    requires |tail| <= |Tail(altered)| && tail == Tail(altered)[..|tail|]
    requires failed ==> failAt == Some(|altersRun| + |tail|) && |tail| < |Tail(altered)| && after == altered
    requires !failed ==> tail == Tail(altered) && after == ApplyAll(altered, Tail(altered))
    requires !failed ==> !FailsIn(failAt, |altersRun|, |altersRun| + |tail|)
    ensures var executed := altersRun + tail;
      && (failed ==> failAt == Some(|executed|) && |executed| < |Script(t)|
                     && executed == Script(t)[..|executed|] && after == Durable(t, |executed|))
      && (!failed ==> executed == Script(t) && after == Migrated(t) && !FailsIn(failAt, |Reads|, |executed|))
  {
    var a := Alters(t);
    assert a[..|a|] == a;
    assert altersRun == Reads + a;
    TailOutcome(t, altered, tail);
    var k := |altersRun + tail|;
    assert k == |Reads| + |a| + |tail|;
  }

  /** A `PRAGMA` read raised: nothing ran, nothing changed. */
  lemma ReadFailure(t: Tables, k: nat)
    requires k < |Reads|
    ensures k < |Script(t)|
    ensures Script(t)[..k] == if k == 0 then [] else [TableInfo(StudentsTable)]
    ensures Durable(t, k) == t
  {
  }

  /** The `ALTER` at position `j` raised: the earlier ones stay. */
  lemma AlterFailure(t: Tables, j: nat)
    requires j < |Alters(t)|
    ensures |Reads| + j < |Script(t)|
    ensures Script(t)[..|Reads| + j] == Reads + Alters(t)[..j]
    ensures Durable(t, |Reads| + j) == ApplyAll(t, Alters(t)[..j])
  {
    PrefixOfAppend(Reads, Alters(t), Tail(ApplyAll(t, Alters(t))), j);
  }

  /** After all `ALTER`s: a failure later keeps exactly their effect, and
      a run without failure ends in `Migrated`. */
  lemma TailOutcome(t: Tables, altered: Tables, tail: seq<Statement>)
    requires altered == ApplyAll(t, Alters(t)[..|Alters(t)|])
    requires |tail| <= |Tail(altered)| && tail == Tail(altered)[..|tail|]
    ensures var k := |Reads| + |Alters(t)| + |tail|;
      && |Script(t)| == |Reads| + |Alters(t)| + |Tail(altered)|
      && Script(t)[..k] == Reads + Alters(t) + tail
      && (k < |Script(t)| ==> Durable(t, k) == altered)
      && (tail == Tail(altered) ==> Reads + Alters(t) + tail == Script(t) && ApplyAll(altered, tail) == Migrated(t))
  {
    var a := Alters(t);
    assert a[..|a|] == a;
    PrefixOfAppend(Reads + a, Tail(altered), [], |tail|);
    assert Reads + a + Tail(altered) + [] == Script(t);
    ScriptEffect(t);
  }

  /** `for student_id, name in students_without_roll: UPDATE ...`. `start`
      is the position of the first `UPDATE`. */
  method UpdateLoop(u: Tables, failAt: Option<nat>, start: nat) returns (updates: seq<Statement>, failed: bool)
    ensures |updates| <= |Backfill(u.students)| && updates == Backfill(u.students)[..|updates|]
    ensures failed ==> failAt == Some(start + |updates|) && |updates| < |Backfill(u.students)|
    ensures !failed ==> updates == Backfill(u.students) && !FailsIn(failAt, start, start + |updates|)
  {
    var rows := MissingRolls(u.students);
    ghost var all := Updates(rows);
    updates := [];
    var i := 0;
    while i < |rows|
      invariant 0 <= i <= |rows| == |all|
      invariant updates == all[..i]
      invariant !FailsIn(failAt, start, start + i)
    {
      if failAt == Some(start + i) {
        return updates, true;
      }
      var stmt := DefaultUpdate(rows[i]);
      UpdatesAt(rows, i);
      TakeOneMore(all, i, updates, stmt);
      updates := updates + [stmt];
      i := i + 1;
    }
    assert all[..i] == all;
    failed := false;
  }

  /** A prefix grown by the next element is the next prefix. */
  lemma TakeOneMore<T>(s: seq<T>, i: nat, prefix: seq<T>, x: T)
    requires i < |s| && prefix == s[..i] && x == s[i]
    ensures prefix + [x] == s[..i + 1]
  {
  }

  /** A prefix that ends inside the middle part. */
  lemma PrefixOfAppend<T>(x: seq<T>, y: seq<T>, z: seq<T>, j: nat)
    requires j <= |y|
    ensures (x + y + z)[..|x| + j] == x + y[..j]
  {
  }

  /** What a whole run does to the tables: the `ALTER`s, then the tail. */
  lemma ScriptEffect(t: Tables)
    ensures Migrated(t) == ApplyAll(ApplyAll(t, Alters(t)), Tail(ApplyAll(t, Alters(t))))
  {
    var a := Alters(t);
    ApplyAllAppend(t, Reads + a, Tail(ApplyAll(t, a)));
    ApplyAllAppend(t, Reads, a);
    assert ApplyAll(t, Reads) == t by {
      assert Reads[1..] == [TableInfo(AttendanceTable)];
      assert Reads[1..][1..] == [];
    }
  }

  /** The four `if ... not in ...: ALTER TABLE` blocks. Each `ALTER` that
      runs is committed at once. */
  method AlterPhase(t: Tables, studentColumns: seq<string>, attendanceColumns: seq<string>, failAt: Option<nat>)
    returns (after: Tables, executed: seq<Statement>, failed: bool)
    requires studentColumns == t.studentColumns && attendanceColumns == t.attendanceColumns
    ensures |Reads| <= |executed| <= |Reads| + |Alters(t)|
    ensures executed == Reads + Alters(t)[..|executed| - |Reads|]
    ensures after == ApplyAll(t, Alters(t)[..|executed| - |Reads|])
    ensures failed ==> failAt == Some(|executed|) && |executed| < |Reads| + |Alters(t)|
    ensures !failed ==> |executed| == |Reads| + |Alters(t)| && !FailsIn(failAt, |Reads|, |executed|)
  {
    ghost var a := Alters(t);
    var s1 := AddIfMissing(studentColumns, StudentsTable, "roll_number");
    var s2 := AddIfMissing(studentColumns, StudentsTable, "email");
    var s3 := AddIfMissing(studentColumns, StudentsTable, "photo_path");
    var s4 := AddIfMissing(attendanceColumns, AttendanceTable, "camera_id");
    assert a == s1 + s2 + s3 + s4;
    after, executed := t, Reads;
    assert a[..0] == [];
    after, executed, failed := Block(t, s1, [], after, executed, failAt);
    if failed { return; }
    after, executed, failed := Block(t, s2, s1, after, executed, failAt);
    if failed { return; }
    after, executed, failed := Block(t, s3, s1 + s2, after, executed, failAt);
    if failed { return; }
    after, executed, failed := Block(t, s4, s1 + s2 + s3, after, executed, failAt);
  }

  /** One block: run `s`, which is empty or one `ALTER`, when it is not
      the statement that raises. `done` is what the earlier blocks ran. */
  method Block(t: Tables, s: seq<Statement>, done: seq<Statement>, after: Tables, executed: seq<Statement>,
               failAt: Option<nat>)
    returns (after': Tables, executed': seq<Statement>, failed: bool)
    requires |s| <= 1 && done + s <= Alters(t)
    requires executed == Reads + done && after == ApplyAll(t, done)
    requires !FailsIn(failAt, |Reads|, |executed|)
    ensures |Reads| <= |executed'| <= |Reads| + |Alters(t)|
    ensures executed' == Reads + Alters(t)[..|executed'| - |Reads|]
    ensures after' == ApplyAll(t, Alters(t)[..|executed'| - |Reads|])
    ensures failed ==> failAt == Some(|executed'|) && |executed'| < |Reads| + |Alters(t)|
    ensures !failed ==> executed' == Reads + (done + s) && after' == ApplyAll(t, done + s)
    ensures !failed ==> !FailsIn(failAt, |Reads|, |executed'|)
  {
    ghost var a := Alters(t);
    assert a[..|done|] == done && a[..|done + s|] == done + s;
    if s != [] && failAt == Some(|executed|) {
      return after, executed, true;
    }
    ApplyAllAppend(t, done, s);
    after', executed', failed := ApplyAll(after, s), executed + s, false;
    assert executed' == Reads + (done + s);
  }

  /** `SELECT id, name FROM students WHERE roll_number IS NULL`, the update
      loop over its rows, and `commit()`. The first `UPDATE` opens a
      transaction, so a failure anywhere here leaves `u` as it was.
      `start` is the position of the `SELECT`. */
  method Finish(u: Tables, failAt: Option<nat>, start: nat)
    returns (after: Tables, executed: seq<Statement>, failed: bool)
    ensures |executed| <= |Tail(u)| && executed == Tail(u)[..|executed|]
    ensures failed ==> failAt == Some(start + |executed|) && |executed| < |Tail(u)| && after == u
    ensures !failed ==> executed == Tail(u) && after == ApplyAll(u, Tail(u))
    ensures !failed ==> !FailsIn(failAt, start, start + |executed|)
  {
    ghost var all := Backfill(u.students);
    assert Tail(u)[..0] == [];
    if failAt == Some(start) {
      return u, [], true;
    }
    var updates;
    updates, failed := UpdateLoop(u, failAt, start + 1);
    if failed {
      PrefixOfAppend([SelectMissingRoll], all, [Commit], |updates|);
      return u, [SelectMissingRoll] + updates, true;
    }
    executed := [SelectMissingRoll] + updates;
    if failAt == Some(start + |executed|) {
      PrefixOfAppend([SelectMissingRoll], all, [Commit], |updates|);
      return u, executed, true;
    }
    executed := executed + [Commit];
    after := ApplyAll(u, executed);
    failed := false;
  }

  /** The rows the `SELECT` returns. */
  function MissingRolls(rows: seq<StudentRow>): seq<StudentRow>
  {
    if rows == [] then []
    else (if rows[0].rollNumber.None? then [rows[0]] else []) + MissingRolls(rows[1..])
  }

  // ---------------------------------------------------------------------
  // What a committed run leaves behind.

  const NewStudentColumns := ["roll_number", "email", "photo_path"]

  /** Each `ALTER` adds a column the table lacks; each missing column gets one. */
  lemma AltersOnlyMissing(t: Tables)
    ensures forall c :: AddColumn(StudentsTable, c) in Alters(t) <==> c in NewStudentColumns && c !in t.studentColumns
    ensures forall c :: AddColumn(AttendanceTable, c) in Alters(t) <==> c == "camera_id" && c !in t.attendanceColumns
    ensures forall s :: s in Alters(t) ==> s.AddColumn?
  {
  }

  /** The `ALTER`s append the missing columns, and a new `roll_number`
      column is `NULL` in every row. */
  lemma AlteredTables(t: Tables)
    ensures var u := ApplyAll(t, Alters(t));
      && t.studentColumns <= u.studentColumns && t.attendanceColumns <= u.attendanceColumns
      && (forall c :: c in NewStudentColumns ==> c in u.studentColumns)
      && "camera_id" in u.attendanceColumns
      && (forall i :: |t.studentColumns| <= i < |u.studentColumns| ==>
            u.studentColumns[i] in NewStudentColumns && u.studentColumns[i] !in t.studentColumns)
      && (forall i :: |t.attendanceColumns| <= i < |u.attendanceColumns| ==>
            u.attendanceColumns[i] == "camera_id" && "camera_id" !in t.attendanceColumns)
      && u.students == if "roll_number" in t.studentColumns then t.students else ClearRolls(t.students)
  {
    AlteredShape(t);
    WidenedSpec(t.studentColumns);
    var extra := if "camera_id" in t.attendanceColumns then [] else ["camera_id"];
    assert forall i :: |t.attendanceColumns| <= i < |t.attendanceColumns + extra| ==>
      (t.attendanceColumns + extra)[i] == extra[i - |t.attendanceColumns|];
  }

  /** The student columns once the `ALTER`s have added the missing ones, in
      the order the script adds them. */
  function Widened(columns: seq<string>): seq<string>
  {
    columns
    + (if "roll_number" in columns then [] else ["roll_number"])
    + (if "email" in columns then [] else ["email"])
    + (if "photo_path" in columns then [] else ["photo_path"])
  }

  /** Widening keeps the old columns first, adds exactly the new ones the
      table lacked, and leaves every new column present. */
  lemma WidenedSpec(columns: seq<string>)
    ensures columns <= Widened(columns)
    ensures forall c :: c in NewStudentColumns ==> c in Widened(columns)
    ensures forall i :: |columns| <= i < |Widened(columns)| ==>
      Widened(columns)[i] in NewStudentColumns && Widened(columns)[i] !in columns
  {
    var x1 := if "roll_number" in columns then [] else ["roll_number"];
    var x2 := if "email" in columns then [] else ["email"];
    var x3 := if "photo_path" in columns then [] else ["photo_path"];
    var w := Widened(columns);
    assert w == columns + (x1 + x2 + x3);
    forall i | |columns| <= i < |w|
      ensures w[i] in NewStudentColumns && w[i] !in columns
    {
      assert w[i] == (x1 + x2 + x3)[i - |columns|];
    }
  }

  /** The tables after the `ALTER`s, all at once. */
  lemma AlteredShape(t: Tables)
    ensures ApplyAll(t, Alters(t)) == Tables(
      Widened(t.studentColumns),
      t.attendanceColumns + (if "camera_id" in t.attendanceColumns then [] else ["camera_id"]),
      if "roll_number" in t.studentColumns then t.students else ClearRolls(t.students))
  {
    var sc, ac := t.studentColumns, t.attendanceColumns;
    var s1 := AddIfMissing(sc, StudentsTable, "roll_number");
    var s2 := AddIfMissing(sc, StudentsTable, "email");
    var s3 := AddIfMissing(sc, StudentsTable, "photo_path");
    var s4 := AddIfMissing(ac, AttendanceTable, "camera_id");
    assert Alters(t) == s1 + s2 + s3 + s4;
    ApplyAllAppend(t, s1 + s2 + s3, s4);
    ApplyAllAppend(t, s1 + s2, s3);
    ApplyAllAppend(t, s1, s2);
    var x1 := if "roll_number" in sc then [] else ["roll_number"];
    var x2 := if "email" in sc then [] else ["email"];
    var x3 := if "photo_path" in sc then [] else ["photo_path"];
    var rows := if "roll_number" in sc then t.students else ClearRolls(t.students);
    var u1 := ApplyAll(t, s1);
    AddIfMissingEffect(t, sc, StudentsTable, "roll_number");
    assert u1 == Tables(sc + x1, ac, rows);
    var u2 := ApplyAll(u1, s2);
    AddIfMissingEffect(u1, sc, StudentsTable, "email");
    assert u2 == Tables(sc + x1 + x2, ac, rows);
    var u3 := ApplyAll(u2, s3);
    AddIfMissingEffect(u2, sc, StudentsTable, "photo_path");
    assert u3 == Tables(sc + x1 + x2 + x3, ac, rows);
    AddIfMissingEffect(u3, ac, AttendanceTable, "camera_id");
  }

  /** One block on its own: nothing when the column exists, else the column
      appended (and, for `roll_number`, every row's value `NULL`). */
  lemma AddIfMissingEffect(u: Tables, columns: seq<string>, table: Table, column: string)
    ensures var v := ApplyAll(u, AddIfMissing(columns, table, column));
      && (column in columns ==> v == u)
      && (column !in columns && table == StudentsTable ==>
            v == u.(studentColumns := u.studentColumns + [column],
                    students := if column == "roll_number" then ClearRolls(u.students) else u.students))
      && (column !in columns && table == AttendanceTable ==>
            v == u.(attendanceColumns := u.attendanceColumns + [column]))
  {
    if column !in columns {
      assert AddIfMissing(columns, table, column)[1..] == [];
    }
  }

  /** Every row, with a roll number given to the ones without. */
  function FilledRolls(rows: seq<StudentRow>): (r: seq<StudentRow>)
    ensures |r| == |rows|
  {
    if rows == [] then []
    else [if rows[0].rollNumber.None? then rows[0].(rollNumber := Some(DefaultRoll(rows[0].id))) else rows[0]]
         + FilledRolls(rows[1..])
  }

  /** Row ids are a primary key. */
  ghost predicate UniqueIds(rows: seq<StudentRow>)
  {
    forall i, j :: 0 <= i < j < |rows| ==> rows[i].id != rows[j].id
  }

  /** The updates for rows `m`, one after the other, on `rows`. */
  function RunRolls(rows: seq<StudentRow>, m: seq<StudentRow>): seq<StudentRow>
    decreases |m|
  {
    if m == [] then rows else RunRolls(SetRollWhere(rows, m[0].id, DefaultRoll(m[0].id)), m[1..])
  }

  lemma {:induction false} UpdatesEffect(u: Tables, m: seq<StudentRow>)
    ensures ApplyAll(u, Updates(m)) == u.(students := RunRolls(u.students, m))
    decreases |m|
  {
    if m != [] {
      var v := Apply(u, DefaultUpdate(m[0]));
      UpdatesEffect(v, m[1..]);
      assert Updates(m)[0] == DefaultUpdate(m[0]) && Updates(m)[1..] == Updates(m[1..]);
    }
  }

  /** An update for another id leaves the rows alone. */
  lemma {:induction false} SetRollElsewhere(rows: seq<StudentRow>, id: int, roll: string)
    requires forall i :: 0 <= i < |rows| ==> rows[i].id != id
    ensures SetRollWhere(rows, id, roll) == rows
  {
    if rows != [] {
      SetRollElsewhere(rows[1..], id, roll);
      assert rows == [rows[0]] + rows[1..];
    }
  }

  /** Updates for other ids pass over the first row. */
  lemma {:induction false} RunRollsSkipsHead(x: StudentRow, rest: seq<StudentRow>, m: seq<StudentRow>)
    requires forall k :: 0 <= k < |m| ==> m[k].id != x.id
    ensures RunRolls([x] + rest, m) == [x] + RunRolls(rest, m)
    decreases |m|
  {
    if m != [] {
      var rows := [x] + rest;
      assert rows[0] == x && rows[1..] == rest;
      var next := SetRollWhere(rest, m[0].id, DefaultRoll(m[0].id));
      assert SetRollWhere(rows, m[0].id, DefaultRoll(m[0].id)) == [x] + next;
      RunRollsSkipsHead(x, next, m[1..]);
    }
  }

  /** The `SELECT` returns rows of the table whose roll number is `NULL`. */
  lemma {:induction false} MissingRollsFrom(rows: seq<StudentRow>)
    ensures forall k :: 0 <= k < |MissingRolls(rows)| ==>
      MissingRolls(rows)[k] in rows && MissingRolls(rows)[k].rollNumber.None?
  {
    if rows != [] {
      MissingRollsFrom(rows[1..]);
      var head := if rows[0].rollNumber.None? then [rows[0]] else [];
      assert MissingRolls(rows) == head + MissingRolls(rows[1..]);
      forall k | 0 <= k < |MissingRolls(rows)|
        ensures MissingRolls(rows)[k] in rows && MissingRolls(rows)[k].rollNumber.None?
      {
        if k >= |head| {
          assert MissingRolls(rows)[k] == MissingRolls(rows[1..])[k - |head|];
          assert MissingRolls(rows)[k] in rows[1..];
        }
      }
    }
  }

  /** With unique ids, the back-fill gives exactly the rows without a roll
      number their default one. */
  lemma {:induction false} BackfillFills(rows: seq<StudentRow>)
    requires UniqueIds(rows)
    ensures RunRolls(rows, MissingRolls(rows)) == FilledRolls(rows)
  {
    if rows != [] {
      var x, rest := rows[0], rows[1..];
      assert rows == [x] + rest;
      assert UniqueIds(rest);
      BackfillFills(rest);
      var mr := MissingRolls(rest);
      MissingRollsFrom(rest);
      forall k | 0 <= k < |mr| ensures mr[k].id != x.id {
        var j :| 0 <= j < |rest| && rest[j] == mr[k];
        assert rows[j + 1] == rest[j];
      }
      if x.rollNumber.None? {
        var x' := x.(rollNumber := Some(DefaultRoll(x.id)));
        assert MissingRolls(rows) == [x] + mr;
        forall i | 0 <= i < |rest| ensures rest[i].id != x.id {
          assert rows[i + 1] == rest[i];
        }
        SetRollElsewhere(rest, x.id, DefaultRoll(x.id));
        assert SetRollWhere(rows, x.id, DefaultRoll(x.id)) == [x'] + rest;
        assert ([x] + mr)[0] == x && ([x] + mr)[1..] == mr;
        RunRollsSkipsHead(x', rest, mr);
      } else {
        assert MissingRolls(rows) == [] + mr;
        assert [] + mr == mr;
        RunRollsSkipsHead(x, rest, mr);
      }
    }
  }

  lemma {:induction false} ClearRollsKeepsIds(rows: seq<StudentRow>)
    ensures forall i :: 0 <= i < |rows| ==> ClearRolls(rows)[i] == rows[i].(rollNumber := None)
  {
    if rows != [] {
      ClearRollsKeepsIds(rows[1..]);
    }
  }

  /** A committed run: all four columns exist, no earlier column is lost,
      and every student keeps id and name and ends with a roll number: its
      own if the column existed and held one, else `STU` + its padded id. */
  lemma MigratedState(t: Tables)
    requires UniqueIds(t.students)
    ensures var m := Migrated(t);
      && t.studentColumns <= m.studentColumns && t.attendanceColumns <= m.attendanceColumns
      && (forall c :: c in NewStudentColumns ==> c in m.studentColumns)
      && "camera_id" in m.attendanceColumns
      && |m.students| == |t.students|
      && forall i :: 0 <= i < |t.students| ==>
        && m.students[i].id == t.students[i].id && m.students[i].name == t.students[i].name
        && m.students[i].rollNumber ==
             if "roll_number" in t.studentColumns && t.students[i].rollNumber.Some? then t.students[i].rollNumber
             else Some(DefaultRoll(t.students[i].id))
  {
    var u := ApplyAll(t, Alters(t));
    AlteredTables(t);
    ScriptEffect(t);
    TailEffect(u);
    ClearRollsKeepsIds(t.students);
    assert UniqueIds(u.students);
    BackfillFills(u.students);
    FilledRollsAt(u.students);
  }

  /** With every roll number set, the `SELECT` finds no row. */
  lemma {:induction false} NoneMissing(rows: seq<StudentRow>)
    requires forall i :: 0 <= i < |rows| ==> rows[i].rollNumber.Some?
    ensures MissingRolls(rows) == []
  {
    if rows != [] {
      NoneMissing(rows[1..]);
    }
  }

  /** Running the script again after a commit alters nothing and updates
      nothing: it only reads, selects no row and commits. */
  lemma SecondRunScript(t: Tables)
    requires UniqueIds(t.students)
    ensures Alters(Migrated(t)) == []
    ensures Script(Migrated(t)) == Reads + [SelectMissingRoll, Commit]
  {
    var m := Migrated(t);
    MigratedState(t);
    assert "roll_number" in m.studentColumns && "email" in m.studentColumns && "photo_path" in m.studentColumns;
    NoneMissing(m.students);
    assert Tail(m) == [SelectMissingRoll, Commit];
  }

  /** The migration is idempotent: a second run leaves a migrated database
      as it was. */
  lemma SecondRunIsNoOp(t: Tables)
    requires UniqueIds(t.students)
    ensures Migrated(Migrated(t)) == Migrated(t)
  {
    var m := Migrated(t);
    SecondRunScript(t);
    var s := Reads + [SelectMissingRoll, Commit];
    assert ApplyAll(m, [Commit]) == m;
    assert ApplyAll(m, [SelectMissingRoll, Commit]) == m by {
      assert [SelectMissingRoll, Commit][1..] == [Commit];
    }
    assert ApplyAll(m, s[1..]) == m by {
      assert s[1..] == [TableInfo(AttendanceTable), SelectMissingRoll, Commit];
      assert s[1..][1..] == [SelectMissingRoll, Commit];
    }
  }

  /** A database made by `create_db_and_tables` lacks all four columns, so
      its first run adds them all and fills no roll number (it has no rows). */
  lemma FreshNeedsAllAlters()
    ensures Alters(Fresh) == [AddColumn(StudentsTable, "roll_number"), AddColumn(StudentsTable, "email"),
                              AddColumn(StudentsTable, "photo_path"), AddColumn(AttendanceTable, "camera_id")]
    ensures Script(Fresh) == Reads + Alters(Fresh) + [SelectMissingRoll, Commit]
  {
    var a := Alters(Fresh);
    assert "roll_number" !in Fresh.studentColumns && "email" !in Fresh.studentColumns;
    assert "photo_path" !in Fresh.studentColumns && "camera_id" !in Fresh.attendanceColumns;
    AlteredShape(Fresh);
    assert ApplyAll(Fresh, a).students == [];
  }

  /** The tail changes only the rows. */
  lemma TailEffect(u: Tables)
    ensures ApplyAll(u, Tail(u)) == u.(students := RunRolls(u.students, MissingRolls(u.students)))
  {
    var m := MissingRolls(u.students);
    ApplyAllAppend(u, [SelectMissingRoll] + Updates(m), [Commit]);
    ApplyAllAppend(u, [SelectMissingRoll], Updates(m));
    UpdatesEffect(u, m);
  }

  lemma {:induction false} FilledRollsAt(rows: seq<StudentRow>)
    ensures forall i :: 0 <= i < |rows| ==>
      FilledRolls(rows)[i] == if rows[i].rollNumber.None? then rows[i].(rollNumber := Some(DefaultRoll(rows[i].id))) else rows[i]
  {
    if rows != [] {
      FilledRollsAt(rows[1..]);
    }
  }
}
