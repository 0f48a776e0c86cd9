/** The attendance endpoints: listing, manual marking, deletion and CSV
    export over the `attendance` table and the `students` rows they join.

    Timestamps are integer seconds. `isoformat`, `strftime` and
    `fromisoformat` are parameters or left as the integer. */
module AttendanceApi {
  import opened Common

  const NotFoundStatus := 404
  const BadRequestStatus := 400
  const DefaultSkip := 0
  const DefaultLimit := 100

  /** A `students` row as these endpoints read it; roll number and email are
      nullable columns. */
  datatype Person = Person(id: nat, name: string, rollNumber: Option<string>, email: Option<string>)

  /** An `attendance` row; `camera_id` is nullable. */
  datatype Row = Row(id: nat, studentId: nat, timestamp: int, cameraId: Option<string>)

  /** One element of the listing's JSON array. A JSON `null` is `None`. */
  datatype Listed = Listed(id: nat, studentId: nat, studentName: string, rollNumber: Option<string>,
                           email: Option<string>, timestamp: int, cameraId: string, status: string)

  /** The body `mark_attendance` answers with. */
  datatype Marked = Marked(id: nat, studentName: string, rollNumber: string, status: string,
                           timestamp: int, cameraId: string, message: string)

  /** Python's `x or d` on an optional string: `None` and `""` are falsy. */
  function OrElse(x: Option<string>, d: string): (r: string)
    ensures x.Some? && x.value != [] ==> r == x.value
    ensures x.None? || x.value == [] ==> r == d
  {
    if x.Some? && x.value != [] then x.value else d
  }

  // ---------------------------------------------------------------------
  // `ORDER BY timestamp DESC`, `OFFSET`, `LIMIT`.

  function TimestampOf(r: Row): int
  {
    r.timestamp
  }

  /** The table `ORDER BY timestamp DESC`. */
  function NewestFirst(s: seq<Row>): (r: seq<Row>)
    ensures multiset(r) == multiset(s) && |r| == |s|
    ensures DescendingBy(r, TimestampOf)
  {
    SortDescByOrdered(s, TimestampOf);
    SortDescBy(s, TimestampOf)
  }

  /** SQLite's `LIMIT limit OFFSET skip`: a negative offset counts as zero
      and a negative limit as no limit. */
  function Page<T>(s: seq<T>, skip: int, limit: int): (r: seq<T>)
    ensures var start := if skip < 0 then 0 else skip;
      && (start >= |s| ==> r == [])
      && (start < |s| ==> |r| == (if limit < 0 || start + limit > |s| then |s| - start else limit))
      && forall i :: 0 <= i < |r| ==> r[i] == s[start + i]
  {
    var start := if skip < 0 then 0 else if skip > |s| then |s| else skip;
    var count := if limit < 0 || start + limit > |s| then |s| - start else limit;
    s[start..start + count]
  }

  /** Rows are listed newest first at any offset and limit. */
  lemma PageNewestFirst(s: seq<Row>, skip: int, limit: int)
    requires DescendingBy(s, TimestampOf)
    ensures DescendingBy(Page(s, skip, limit), TimestampOf)
  {
  }

  /** The defaults show the newest hundred rows; past the end there is nothing. */
  lemma PageDefaults<T>(s: seq<T>)
    ensures |s| <= DefaultLimit ==> Page(s, DefaultSkip, DefaultLimit) == s
    ensures |s| > DefaultLimit ==> Page(s, DefaultSkip, DefaultLimit) == s[..DefaultLimit]
    ensures Page(s, |s|, DefaultLimit) == []
  {
  }

  // ---------------------------------------------------------------------
  // Joining a student.

  /** `db.query(Student).filter(Student.id == student_id).first()` */
  function StudentById(students: seq<Person>, id: nat): (r: Option<Person>)
    ensures r.Some? ==> r.value in students && r.value.id == id
    ensures r.None? ==> forall j :: 0 <= j < |students| ==> students[j].id != id
  {
    if students == [] then None
    else if students[0].id == id then Some(students[0])
    else StudentById(students[1..], id)
  }

  /** `... .filter(Student.roll_number == roll_number).first()` */
  function StudentByRoll(students: seq<Person>, roll: string): (r: Option<Person>)
    ensures r.Some? ==> r.value in students && r.value.rollNumber == Some(roll)
    ensures r.None? ==> forall j :: 0 <= j < |students| ==> students[j].rollNumber != Some(roll)
  {
    if students == [] then None
    else if students[0].rollNumber == Some(roll) then Some(students[0])
    else StudentByRoll(students[1..], roll)
  }

  /** A listing entry: the student's fields, or "Unknown"/"N/A" without one. */
  function ListedEntry(row: Row, students: seq<Person>): Listed
  {
    var camera := OrElse(row.cameraId, "N/A");
    match StudentById(students, row.studentId)
    case None => Listed(row.id, row.studentId, "Unknown", Some("N/A"), Some("N/A"), row.timestamp, camera, "present")
    case Some(p) => Listed(row.id, row.studentId, p.name, p.rollNumber, p.email, row.timestamp, camera, "present")
  }

  /** Every entry says "present", carries a non-empty camera, and shows the
      student's own fields exactly when the student row exists. */
  lemma ListedEntryFields(row: Row, students: seq<Person>)
    ensures var e := ListedEntry(row, students);
      && e.id == row.id && e.studentId == row.studentId && e.timestamp == row.timestamp
      && e.status == "present" && e.cameraId != []
      && (row.cameraId.Some? && row.cameraId.value != [] ==> e.cameraId == row.cameraId.value)
      && (forall p :: p in students && p.id == row.studentId ==>
            StudentById(students, row.studentId).Some?)
      && (StudentById(students, row.studentId).None? ==>
            e.studentName == "Unknown" && e.rollNumber == Some("N/A") && e.email == Some("N/A"))
  {
    forall p | p in students && p.id == row.studentId
      ensures StudentById(students, row.studentId).Some?
    {
      var j :| 0 <= j < |students| && students[j] == p;
    }
  }

  // ---------------------------------------------------------------------
  // CSV export. The writer's quoting and line endings are not modelled: a
  // row is its list of fields, and a `None` field is written as "".

  const CsvHeader: seq<string> := ["ID", "Student Name", "Roll Number", "Email", "Date", "Time", "Camera ID", "Status"]

  function CsvField(x: Option<string>): string
  {
    if x.Some? then x.value else ""
  }

  function CsvRow(row: Row, students: seq<Person>, dateOf: int -> string, timeOf: int -> string): (r: seq<string>)
    ensures |r| == |CsvHeader|
  {
    var camera := OrElse(row.cameraId, "N/A");
    match StudentById(students, row.studentId)
    case None => [NatToString(row.id), "Unknown", "N/A", "N/A", dateOf(row.timestamp), timeOf(row.timestamp), camera, "Present"]
    case Some(p) => [NatToString(row.id), p.name, CsvField(p.rollNumber), CsvField(p.email),
                     dateOf(row.timestamp), timeOf(row.timestamp), camera, "Present"]
  }

  /** Each exported field under its header column: the id, the student's
      name, roll number and e-mail ("Unknown", "N/A", "N/A" when the student
      row is gone, "" for a NULL column), the date and time of the
      timestamp, the camera or "N/A", and "Present". */
  lemma CsvRowFields(row: Row, students: seq<Person>, dateOf: int -> string, timeOf: int -> string)
    ensures var r := CsvRow(row, students, dateOf, timeOf);
      var p := StudentById(students, row.studentId);
      && CsvHeader[0] == "ID" && r[0] == NatToString(row.id)
      && (p.None? ==> r[1] == "Unknown" && r[2] == "N/A" && r[3] == "N/A")
      && (p.Some? ==> r[1] == p.value.name && r[2] == CsvField(p.value.rollNumber) && r[3] == CsvField(p.value.email))
      && CsvHeader[4] == "Date" && r[4] == dateOf(row.timestamp)
      && CsvHeader[5] == "Time" && r[5] == timeOf(row.timestamp)
      && CsvHeader[6] == "Camera ID" && r[6] == OrElse(row.cameraId, "N/A") && r[6] != []
      && CsvHeader[7] == "Status" && r[7] == "Present"
  {
  }

  // ---------------------------------------------------------------------
  // The timestamp of a manual mark.

  /** `s.replace('Z', '+00:00')` */
  function ReplaceZ(s: string): (r: string)
    ensures 'Z' !in r
    ensures 'Z' !in s ==> r == s
    ensures |r| >= |s|
  {
    if s == [] then []
    else (if s[0] == 'Z' then "+00:00" else [s[0]]) + ReplaceZ(s[1..])
  }

  ghost predicate UniqueIds(s: seq<Row>)
  {
    forall i, j :: 0 <= i < j < |s| ==> s[i].id != s[j].id
  }

  /** The row id SQLite gives an insert without an explicit id. */
  function NextRowId(s: seq<Row>): (id: nat)
    ensures id >= 1 && forall j :: 0 <= j < |s| ==> s[j].id < id
  {
    if s == [] then 1
    else
      var rest := NextRowId(s[1..]);
      assert forall j :: 1 <= j < |s| ==> s[j] == s[1..][j - 1];
      if s[0].id + 1 > rest then s[0].id + 1 else rest
  }

  /** The first position holding row `id`, if any. */
  function IndexOfId(s: seq<Row>, id: nat): (r: Option<nat>)
    ensures r.Some? ==> r.value < |s| && s[r.value].id == id
    ensures r.None? ==> forall j :: 0 <= j < |s| ==> s[j].id != id
  {
    if s == [] then None
    else if s[0].id == id then Some(0)
    else
      var r := IndexOfId(s[1..], id);
      if r.Some? then Some(r.value + 1) else None
  }

  class AttendanceDb {
    /** The `attendance` table, in table order. */
    var records: seq<Row>
    /** The `students` table; these endpoints only read it. */
    var students: seq<Person>

    /** `id` is the primary key. */
    ghost predicate Valid()
      reads this
    {
      UniqueIds(records)
    }

    constructor (initialRecords: seq<Row>, initialStudents: seq<Person>)
      requires UniqueIds(initialRecords)
      ensures Valid() && records == initialRecords && students == initialStudents
    {
      records := initialRecords;
      students := initialStudents;
    }

    /** `get_attendance_records`: the page of rows, newest first, each joined
        with its student. */
    method GetRecords(skip: int, limit: int) returns (results: seq<Listed>)
      ensures var page := Page(NewestFirst(records), skip, limit);
        && |results| == |page|
        && forall i :: 0 <= i < |page| ==> results[i] == ListedEntry(page[i], students)
    {
      var page := Page(NewestFirst(records), skip, limit);
      results := [];
      var i := 0;
      while i < |page|
        invariant 0 <= i <= |page| && |results| == i
        invariant forall j :: 0 <= j < i ==> results[j] == ListedEntry(page[j], students)
      {
        results := results + [ListedEntry(page[i], students)];
        i := i + 1;
      }
    }

    /** `mark_attendance`. An unknown roll number is 404, a timestamp the ISO
        parser rejects (after 'Z' becomes "+00:00") is 400, and in both cases
        nothing is written. Otherwise exactly one row is appended, at the
        parsed time or `now`, with the camera or "Manual". */
    method MarkAttendance(rollNumber: string, status: string, cameraId: Option<string>, timestamp: Option<string>,
                          now: int, parseIso: string -> Option<int>)
      returns (r: Result<Marked, int>)
      requires Valid()
      modifies this
      ensures Valid() && students == old(students)
      ensures StudentByRoll(students, rollNumber).None? ==> r == Err(NotFoundStatus) && records == old(records)
      ensures StudentByRoll(students, rollNumber).Some? && timestamp.Some? && timestamp.value != []
              && parseIso(ReplaceZ(timestamp.value)).None? ==>
                r == Err(BadRequestStatus) && records == old(records)
      ensures r.Ok? ==>
        var p := StudentByRoll(students, rollNumber).value;
        var time := if timestamp.Some? && timestamp.value != [] then parseIso(ReplaceZ(timestamp.value)).value else now;
        var row := Row(NextRowId(old(records)), p.id, time, Some(OrElse(cameraId, "Manual")));
        && records == old(records) + [row]
        && r.value == Marked(row.id, p.name, rollNumber, status, time, OrElse(cameraId, "Manual"),
                             "Attendance marked for " + p.name + " (" + rollNumber + ")")
      ensures r.Err? ==> records == old(records)
      // a known roll number with no timestamp, an empty one or one that parses is always marked
      ensures (StudentByRoll(students, rollNumber).Some?
               && (timestamp.None? || timestamp.value == [] || parseIso(ReplaceZ(timestamp.value)).Some?)) ==> r.Ok?
    {
      var student := StudentByRoll(students, rollNumber);
      if student.None? {
        return Err(NotFoundStatus);
      }
      var p := student.value;
      var time := now;
      if timestamp.Some? && timestamp.value != [] {
        var parsed := parseIso(ReplaceZ(timestamp.value));
        if parsed.None? {
          return Err(BadRequestStatus);
        }
        time := parsed.value;
      }
      var camera := OrElse(cameraId, "Manual");
      var row := Row(NextRowId(records), p.id, time, Some(camera));
      records := records + [row];
      r := Ok(Marked(row.id, p.name, rollNumber, status, time, camera,
                     "Attendance marked for " + p.name + " (" + rollNumber + ")"));
    }

    /** `delete_attendance`: 404 for a missing id; otherwise that row alone
        is removed and the others keep their order. */
    method DeleteAttendance(id: nat) returns (r: Result<(), int>)
      requires Valid()
      modifies this
      ensures Valid() && students == old(students)
      ensures IndexOfId(old(records), id).None? <==> r == Err(NotFoundStatus)
      ensures r.Ok? <==> IndexOfId(old(records), id).Some?
      ensures r.Err? ==> r == Err(NotFoundStatus) && records == old(records)
      ensures r.Ok? ==>
        var i := IndexOfId(old(records), id).value;
        records == old(records)[..i] + old(records)[i + 1..]
    {
      var i := IndexOfId(records, id);
      if i.None? {
        return Err(NotFoundStatus);
      }
      records := records[..i.value] + records[i.value + 1..];
      r := Ok(());
    }

    /** `export_attendance_csv`: the header, then one row per record, newest
        first, with no paging. */
    method ExportCsv(dateOf: int -> string, timeOf: int -> string) returns (rows: seq<seq<string>>)
      ensures var sorted := NewestFirst(records);
        && |rows| == |records| + 1 && rows[0] == CsvHeader
        && forall i :: 0 <= i < |sorted| ==> rows[i + 1] == CsvRow(sorted[i], students, dateOf, timeOf)
    {
      var sorted := NewestFirst(records);
      rows := [CsvHeader];
      var i := 0;
      while i < |sorted|
        invariant 0 <= i <= |sorted| && |rows| == i + 1 && rows[0] == CsvHeader
        invariant forall j :: 0 <= j < i ==> rows[j + 1] == CsvRow(sorted[j], students, dateOf, timeOf)
      {
        rows := rows + [CsvRow(sorted[i], students, dateOf, timeOf)];
        i := i + 1;
      }
    }
  }

  /** Deleting a row by a unique id leaves no row with that id and keeps
      every other row. */
  lemma DeleteRemovesExactlyOne(s: seq<Row>, id: nat)
    requires UniqueIds(s) && IndexOfId(s, id).Some?
    ensures var i := IndexOfId(s, id).value;
      var t := s[..i] + s[i + 1..];
      && (forall j :: 0 <= j < |t| ==> t[j].id != id)
      && multiset(t) + multiset{s[i]} == multiset(s)
      && UniqueIds(t)
  {
    var i := IndexOfId(s, id).value;
    var t := s[..i] + s[i + 1..];
    assert s == s[..i] + [s[i]] + s[i + 1..];
    forall j | 0 <= j < |t| ensures t[j].id != id && t[j] == s[if j < i then j else j + 1] {
      if j < i {
        assert t[j] == s[j];
      } else {
        assert t[j] == s[j + 1];
      }
    }
  }

  /** The export lists the same rows, in the same order, as a listing with
      no offset and a limit that covers the table. */
  lemma ExportMatchesListing(records: seq<Row>, students: seq<Person>, limit: int,
                             dateOf: int -> string, timeOf: int -> string)
    requires limit < 0 || limit >= |records|
    ensures var sorted := NewestFirst(records);
      var page := Page(sorted, 0, limit);
      && page == sorted
      && forall i :: 0 <= i < |page| ==>
           var e := ListedEntry(page[i], students);
           CsvRow(page[i], students, dateOf, timeOf)
             == [NatToString(e.id), e.studentName, CsvField(e.rollNumber), CsvField(e.email),
                 dateOf(e.timestamp), timeOf(e.timestamp), e.cameraId, "Present"]
  {
  }
}
