/** The attendance screen's data rules: the search/date filter, grouping by
    day, the order the days are shown in, the summary counts, and the
    manual-mark handler.

    `toLocaleDateString` is a parameter `localDate` (a record's timestamp
    text to its day label), and `new Date(label)` used to order the days is
    a parameter `dayNumber`. */
module AttendanceScreen {
  import opened Common

  /** The fields of a listed attendance record that this screen reads. */
  datatype Entry = Entry(id: nat, studentName: string, rollNumber: string, timestamp: string)

  /** One day's records, in the order they were listed. */
  datatype Group = Group(date: string, records: seq<Entry>)

  // ---------------------------------------------------------------------
  // `filteredRecords`.

  /** The name contains the search term, ignoring case, and, when a filter
      date is set, the record falls on that day. */
  predicate Keep(r: Entry, searchTerm: string, filterDate: string, localDate: string -> string)
  {
    && MatchesSearch(r.studentName, searchTerm)
    && (filterDate != [] ==> localDate(r.timestamp) == localDate(filterDate))
  }

  /** `Keep` with the search term, the filter date and the date rendering fixed. */
  function KeepWith(searchTerm: string, filterDate: string, localDate: string -> string): Entry -> bool
  {
    (r: Entry) => Keep(r, searchTerm, filterDate, localDate)
  }

  /** `filteredRecords`: the records `Keep` accepts, in table order. */
  function FilterRecords(records: seq<Entry>, searchTerm: string, filterDate: string, localDate: string -> string)
    : (r: seq<Entry>)
    ensures |r| <= |records|
    ensures forall i :: 0 <= i < |r| ==> r[i] in records && Keep(r[i], searchTerm, filterDate, localDate)
    ensures forall i :: 0 <= i < |records| && Keep(records[i], searchTerm, filterDate, localDate) ==> records[i] in r
  {
    Filter(records, KeepWith(searchTerm, filterDate, localDate))
  }

  /** Filtering keeps relative order: it distributes over concatenation. */
  lemma FilterRecordsAppend(a: seq<Entry>, b: seq<Entry>, searchTerm: string, filterDate: string,
                            localDate: string -> string)
    ensures FilterRecords(a + b, searchTerm, filterDate, localDate)
         == FilterRecords(a, searchTerm, filterDate, localDate) + FilterRecords(b, searchTerm, filterDate, localDate)
  {
    FilterAppend(a, b, KeepWith(searchTerm, filterDate, localDate));
  }

  /** With no search term and no date every record is shown. */
  lemma NoFilterKeepsAll(records: seq<Entry>, localDate: string -> string)
    ensures FilterRecords(records, [], [], localDate) == records
  {
    assert Lower([]) == [];
    forall i | 0 <= i < |records| ensures Keep(records[i], [], [], localDate) {
      EmptyIsIncluded(Lower(records[i].studentName));
    }
    FilterAll(records, KeepWith([], [], localDate));
  }

  // ---------------------------------------------------------------------
  // `groupedRecords`: a `reduce` that pushes each record onto its day's
  // array. Object keys keep insertion order, so the days come in order of
  // first appearance.

  /** The position of the group for `date`, if there is one. */
  function FindGroup(groups: seq<Group>, date: string): (r: Option<nat>)
    ensures r.Some? ==> r.value < |groups| && groups[r.value].date == date
    ensures r.None? ==> forall i :: 0 <= i < |groups| ==> groups[i].date != date
  {
    if groups == [] then None
    else if groups[0].date == date then Some(0)
    else
      var r := FindGroup(groups[1..], date);
      if r.Some? then Some(r.value + 1) else None
  }

  /** The day labels in order of first appearance. */
  function Dates(s: seq<Entry>, localDate: string -> string): (d: seq<string>)
    ensures |d| <= |s|
    ensures Distinct(d)
    ensures forall i :: 0 <= i < |s| ==> localDate(s[i].timestamp) in d
    ensures forall j :: 0 <= j < |d| ==> exists i :: 0 <= i < |s| && localDate(s[i].timestamp) == d[j]
  {
    if s == [] then []
    else
      var front := s[..|s| - 1];
      var k := localDate(s[|s| - 1].timestamp);
      var ds := Dates(front, localDate);
      assert forall i :: 0 <= i < |s| - 1 ==> s[i] == front[i];
      if k in ds then ds else ds + [k]
  }

  /** Object keys keep insertion order: the days of any first part of the
      records come first, in the same order. */
  lemma {:induction false} DatesFirstAppearance(s: seq<Entry>, localDate: string -> string)
    ensures forall i :: 0 <= i <= |s| ==> Dates(s[..i], localDate) <= Dates(s, localDate)
  {
    if s != [] {
      var front := s[..|s| - 1];
      DatesFirstAppearance(front, localDate);
      assert Dates(front, localDate) <= Dates(s, localDate);
      forall i | 0 <= i <= |s| ensures Dates(s[..i], localDate) <= Dates(s, localDate) {
        if i < |s| {
          assert s[..i] == front[..i];
        } else {
          assert s[..i] == s;
        }
      }
    } else {
      assert s[..0] == s;
    }
  }

  /** The records of day `date`, in their original order. */
  function OnDate(s: seq<Entry>, date: string, localDate: string -> string): (r: seq<Entry>)
    ensures forall i :: 0 <= i < |r| ==> localDate(r[i].timestamp) == date
  {
    if s == [] then []
    else
      OnDate(s[..|s| - 1], date, localDate)
      + (if localDate(s[|s| - 1].timestamp) == date then [s[|s| - 1]] else [])
  }

  /** What one step of the `reduce` does to the accumulator. */
  function Push(groups: seq<Group>, r: Entry, localDate: string -> string): seq<Group>
  {
    var date := localDate(r.timestamp);
    match FindGroup(groups, date)
    case None => groups + [Group(date, [r])]
    case Some(i) => groups[i := Group(date, groups[i].records + [r])]
  }

  /** The accumulator after the whole `reduce`. */
  function Grouped(s: seq<Entry>, localDate: string -> string): seq<Group>
  {
    if s == [] then [] else Push(Grouped(s[..|s| - 1], localDate), s[|s| - 1], localDate)
  }

  /** A day that never occurs has no records. */
  lemma {:induction false} OnAbsentDate(s: seq<Entry>, date: string, localDate: string -> string)
    requires date !in Dates(s, localDate)
    ensures OnDate(s, date, localDate) == []
  {
    if s != [] {
      var front := s[..|s| - 1];
      assert forall i :: 0 <= i < |front| ==> front[i] == s[i];
      OnAbsentDate(front, date, localDate);
    }
  }

  /** The reduce yields one group per day, in order of first appearance,
      holding exactly that day's records in their original order. */
  lemma {:induction false} GroupedByDay(s: seq<Entry>, localDate: string -> string)
    ensures var g := Grouped(s, localDate);
      var d := Dates(s, localDate);
      && |g| == |d|
      && forall i :: 0 <= i < |g| ==> g[i] == Group(d[i], OnDate(s, d[i], localDate))
  {
    if s != [] {
      var front := s[..|s| - 1];
      var x := s[|s| - 1];
      var k := localDate(x.timestamp);
      GroupedByDay(front, localDate);
      var g0 := Grouped(front, localDate);
      var d0 := Dates(front, localDate);
      var g := Grouped(s, localDate);
      var d := Dates(s, localDate);
      assert g == Push(g0, x, localDate);
      if k in d0 {
        var j := FindGroup(g0, k).value;
        assert d == d0;
        forall i | 0 <= i < |g| ensures g[i] == Group(d[i], OnDate(s, d[i], localDate)) {
          assert OnDate(s, d[i], localDate) == OnDate(front, d[i], localDate) + (if d[i] == k then [x] else []);
        }
      } else {
        assert FindGroup(g0, k).None?;
        assert d == d0 + [k];
        OnAbsentDate(front, k, localDate);
        forall i | 0 <= i < |g| ensures g[i] == Group(d[i], OnDate(s, d[i], localDate)) {
          assert OnDate(s, d[i], localDate) == OnDate(front, d[i], localDate) + (if d[i] == k then [x] else []);
        }
      }
    }
  }

  function TotalSize(groups: seq<Group>): nat
  {
    if groups == [] then 0 else |groups[0].records| + TotalSize(groups[1..])
  }

  lemma {:induction false} TotalSizeAppend(a: seq<Group>, b: seq<Group>)
    ensures TotalSize(a + b) == TotalSize(a) + TotalSize(b)
  {
    if a == [] {
      assert a + b == b;
    } else {
      assert (a + b)[1..] == a[1..] + b;
      TotalSizeAppend(a[1..], b);
    }
  }

  lemma {:induction false} TotalSizeUpdate(groups: seq<Group>, i: nat, g: Group)
    requires i < |groups|
    ensures TotalSize(groups[i := g]) == TotalSize(groups) - |groups[i].records| + |g.records|
  {
    if i > 0 {
      assert groups[i := g][1..] == groups[1..][i - 1 := g];
      TotalSizeUpdate(groups[1..], i - 1, g);
    }
  }

  /** Every record lands in exactly one group: the sizes add up. */
  lemma {:induction false} GroupedCountsEveryRecord(s: seq<Entry>, localDate: string -> string)
    ensures TotalSize(Grouped(s, localDate)) == |s|
  {
    if s != [] {
      var front := s[..|s| - 1];
      var x := s[|s| - 1];
      var g0 := Grouped(front, localDate);
      GroupedCountsEveryRecord(front, localDate);
      var k := localDate(x.timestamp);
      match FindGroup(g0, k)
      case None =>
        TotalSizeAppend(g0, [Group(k, [x])]);
        assert [Group(k, [x])][1..] == [];
      case Some(i) =>
        TotalSizeUpdate(g0, i, Group(k, g0[i].records + [x]));
    }
  }

  /** The `reduce`, one record at a time. */
  method GroupByDate(records: seq<Entry>, localDate: string -> string) returns (groups: seq<Group>)
    ensures var d := Dates(records, localDate);
      && |groups| == |d|
      && (forall i :: 0 <= i < |groups| ==> groups[i] == Group(d[i], OnDate(records, d[i], localDate)))
      && TotalSize(groups) == |records|
  {
    groups := [];
    var k := 0;
    while k < |records|
      invariant 0 <= k <= |records|
      invariant groups == Grouped(records[..k], localDate)
    {
      var r := records[k];
      var date := localDate(r.timestamp);
      var found := FindGroup(groups, date);
      if found.None? {
        groups := groups + [Group(date, [r])];
      } else {
        var i := found.value;
        groups := groups[i := Group(date, groups[i].records + [r])];
      }
      assert records[..k + 1][..k] == records[..k];
      k := k + 1;
    }
    assert records[..k] == records;
    GroupedByDay(records, localDate);
    GroupedCountsEveryRecord(records, localDate);
  }

  // ---------------------------------------------------------------------
  // The groups as shown, and the summary cards.

  /** `new Date(g[0])` as a number, for a group. */
  function DayOf(dayNumber: string -> int): Group -> int
  {
    (g: Group) => dayNumber(g.date)
  }

  /** `Object.entries(groupedRecords).sort((a, b) => new Date(b[0]) - new Date(a[0]))`:
      latest day first. */
  function DisplayOrder(groups: seq<Group>, dayNumber: string -> int): (r: seq<Group>)
    ensures multiset(r) == multiset(groups) && |r| == |groups|
    ensures forall i, j :: 0 <= i < j < |r| ==> dayNumber(r[i].date) >= dayNumber(r[j].date)
  {
    SortDescByOrdered(groups, DayOf(dayNumber));
    SortDescBy(groups, DayOf(dayNumber))
  }

  /** The sort is stable: groups whose days compare equal keep the order
      of first appearance. */
  lemma DisplayOrderStable(groups: seq<Group>, dayNumber: string -> int, day: int)
    ensures Filter(DisplayOrder(groups, dayNumber), WithKey(DayOf(dayNumber), day))
         == Filter(groups, WithKey(DayOf(dayNumber), day))
  {
    SortDescByStable(groups, DayOf(dayNumber), day);
  }

  /** The four numbers on the summary cards. */
  datatype Summary = Summary(totalRecords: nat, totalStudents: nat, daysRecorded: nat, filteredResults: nat)

  /** "Days Recorded" is `Object.keys(groupedRecords).length`: the number of
      distinct local days among the shown records. "Filtered Results" is
      the number of shown records. */
  function Summarise(records: seq<Entry>, studentCount: nat, searchTerm: string, filterDate: string,
                     localDate: string -> string): (s: Summary)
    ensures s.totalRecords == |records| && s.totalStudents == studentCount
    ensures s.filteredResults == |FilterRecords(records, searchTerm, filterDate, localDate)|
    ensures s.daysRecorded == |Dates(FilterRecords(records, searchTerm, filterDate, localDate), localDate)|
    ensures s.daysRecorded <= s.filteredResults <= s.totalRecords
    ensures s.daysRecorded == 0 <==> s.filteredResults == 0
  {
    var shown := FilterRecords(records, searchTerm, filterDate, localDate);
    var groups := Grouped(shown, localDate);
    GroupedByDay(shown, localDate);
    assert shown != [] ==> localDate(shown[0].timestamp) in Dates(shown, localDate);
    Summary(|records|, studentCount, |groups|, |shown|)
  }

  // ---------------------------------------------------------------------
  // `handleMarkAttendance`.

  /** `${date}T${time}:00`, or the date with the current clock time when no
      time is chosen, or nothing without a date. `clock` is
      `new Date().toTimeString()`, of which the first eight characters are
      taken. */
  function BuildTimestamp(date: string, time: string, clock: string): (t: Option<string>)
    ensures t.None? <==> date == []
    ensures t.Some? ==> |t.value| > |date| && t.value[..|date| + 1] == date + "T"
    ensures date != [] && time != [] ==> t == Some(date + "T" + time + ":00")
    ensures date != [] && time == [] ==> t == Some(date + "T" + clock[..if |clock| < 8 then |clock| else 8])
  {
    if date != [] && time != [] then Some(date + "T" + time + ":00")
    else if date != [] then Some(date + "T" + clock[..if |clock| < 8 then |clock| else 8])
    else None
  }

  /** Without a date the chosen time plays no part. */
  lemma TimeNeedsDate(time1: string, time2: string, clock: string)
    ensures BuildTimestamp([], time1, clock) == BuildTimestamp([], time2, clock) == None
  {
  }

  /** The arguments `markAttendance` is called with. */
  datatype MarkCall = MarkCall(rollNumber: string, status: string, source: string, timestamp: Option<string>)

  /** A student in the roll-number picker. */
  datatype Pick = Pick(name: string, rollNumber: string)

  /** `student?.name || selectedRollNumber` for the first student with that roll number. */
  function DisplayName(students: seq<Pick>, roll: string): (n: string)
    ensures (forall i :: 0 <= i < |students| ==> students[i].rollNumber != roll) ==> n == roll
    ensures forall i ::
      (0 <= i < |students| && students[i].rollNumber == roll
       && (forall j :: 0 <= j < i ==> students[j].rollNumber != roll)) ==>
        n == (if students[i].name != [] then students[i].name else roll)
    ensures n != [] || roll == []
  {
    if students == [] then roll
    else if students[0].rollNumber == roll then (if students[0].name != [] then students[0].name else roll)
    else DisplayName(students[1..], roll)
  }

  class MarkForm {
    var selectedRollNumber: string
    var selectedDate: string
    var selectedTime: string
    var showModal: bool
    var error: string
    var success: string

    constructor ()
      ensures selectedRollNumber == [] && selectedDate == [] && selectedTime == []
      ensures !showModal && error == [] && success == []
    {
      selectedRollNumber, selectedDate, selectedTime := [], [], [];
      showModal, error, success := false, [], [];
    }

    /** `handleMarkAttendance`. With no student selected it only sets the
        error. Otherwise it clears the error and calls `markAttendance` once;
        `outcome` is what that call does (`None` for success, or the thrown
        message). Success closes the modal and resets the picker; failure
        keeps the picker and shows the message or a default. */
    method HandleMark(students: seq<Pick>, clock: string, outcome: Option<string>) returns (call: Option<MarkCall>)
      modifies this
      ensures old(selectedRollNumber) == [] ==>
        && call.None? && error == "Please select a student"
        && selectedRollNumber == old(selectedRollNumber) && selectedDate == old(selectedDate)
        && selectedTime == old(selectedTime) && showModal == old(showModal) && success == old(success)
      ensures old(selectedRollNumber) != [] ==>
        call == Some(MarkCall(old(selectedRollNumber), "present", "Manual",
                              BuildTimestamp(old(selectedDate), old(selectedTime), clock)))
      ensures old(selectedRollNumber) != [] && outcome.None? ==>
        && error == [] && success == "Attendance marked for " + DisplayName(students, old(selectedRollNumber))
        && !showModal && selectedRollNumber == [] && selectedDate == [] && selectedTime == []
      ensures old(selectedRollNumber) != [] && outcome.Some? ==>
        && error == (if outcome.value != [] then outcome.value else "Failed to mark attendance")
        && success == old(success) && showModal == old(showModal)
        && selectedRollNumber == old(selectedRollNumber) && selectedDate == old(selectedDate)
        && selectedTime == old(selectedTime)
    {
      if selectedRollNumber == [] {
        error := "Please select a student";
        return None;
      }
      error := [];
      var timestamp := BuildTimestamp(selectedDate, selectedTime, clock);
      call := Some(MarkCall(selectedRollNumber, "present", "Manual", timestamp));
      if outcome.Some? {
        error := if outcome.value != [] then outcome.value else "Failed to mark attendance";
        return;
      }
      success := "Attendance marked for " + DisplayName(students, selectedRollNumber);
      showModal := false;
      selectedRollNumber, selectedDate, selectedTime := [], [], [];
    }
  }
}
