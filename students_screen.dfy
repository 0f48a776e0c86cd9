/** The students screen: the name search, the add/edit buttons, and the
    add-student modal's submit with its ordered checks. The upload itself is
    an outside call whose outcome is given. */
module StudentsScreen {
  import opened Common

  /** A student as `getAllStudents` lists it. */
  datatype StudentRow = StudentRow(id: nat, name: string, rollNumber: Option<string>, email: Option<string>)

  /** The student's name contains the search term, ignoring case. */
  predicate Shown(student: StudentRow, searchTerm: string)
  {
    MatchesSearch(student.name, searchTerm)
  }

  /** `Shown` with the search term fixed. */
  function ShownWith(searchTerm: string): StudentRow -> bool
  {
    (student: StudentRow) => Shown(student, searchTerm)
  }

  /** `students.filter(s => s.name.toLowerCase().includes(searchTerm.toLowerCase()))` */
  function FilterStudents(students: seq<StudentRow>, searchTerm: string): (r: seq<StudentRow>)
    ensures |r| <= |students|
  {
    Filter(students, ShownWith(searchTerm))
  }

  /** The search shows exactly the students whose name matches. */
  lemma FilterStudentsMembers(students: seq<StudentRow>, searchTerm: string)
    ensures var r := FilterStudents(students, searchTerm);
      && (forall x :: x in r ==> x in students && Shown(x, searchTerm))
      && (forall x :: x in students && Shown(x, searchTerm) ==> x in r)
  {
    var r := FilterStudents(students, searchTerm);
    forall x | x in r ensures x in students && Shown(x, searchTerm) {
      var i :| 0 <= i < |r| && r[i] == x;
    }
    forall x | x in students && Shown(x, searchTerm) ensures x in r {
      var i :| 0 <= i < |students| && students[i] == x;
    }
  }

  /** The search keeps list order: it distributes over concatenation. */
  lemma FilterStudentsAppend(a: seq<StudentRow>, b: seq<StudentRow>, searchTerm: string)
    ensures FilterStudents(a + b, searchTerm) == FilterStudents(a, searchTerm) + FilterStudents(b, searchTerm)
  {
    FilterAppend(a, b, ShownWith(searchTerm));
  }

  /** An empty search shows every student. */
  lemma EmptySearchKeepsAll(students: seq<StudentRow>)
    ensures FilterStudents(students, []) == students
  {
    assert Lower([]) == [];
    forall i | 0 <= i < |students| ensures Shown(students[i], []) {
      EmptyIsIncluded(Lower(students[i].name));
    }
    FilterAll(students, ShownWith([]));
  }

  /** The list page. `formName`/`formImages` are its `formData`. */
  class StudentsPage<File> {
    var students: seq<StudentRow>
    var loading: bool
    var showModal: bool
    var selectedStudent: Option<StudentRow>
    var formName: string
    var formImages: seq<File>

    constructor ()
      ensures students == [] && loading && !showModal && selectedStudent.None?
      ensures formName == [] && formImages == []
    {
      students, loading, showModal := [], true, false;
      selectedStudent, formName, formImages := None, [], [];
    }

    /** `handleAddStudent`: no selection, an empty form, the modal open. */
    method HandleAddStudent()
      modifies this
      ensures selectedStudent.None? && formName == [] && formImages == [] && showModal
      ensures students == old(students) && loading == old(loading)
    {
      selectedStudent := None;
      formName, formImages := [], [];
      showModal := true;
    }

    /** `handleEditStudent`: the student selected, only the name copied, no images. */
    method HandleEditStudent(student: StudentRow)
      modifies this
      ensures selectedStudent == Some(student) && formName == student.name && formImages == [] && showModal
      ensures students == old(students) && loading == old(loading)
    {
      selectedStudent := Some(student);
      formName, formImages := student.name, [];
      showModal := true;
    }

    /** The modal's `onClose`: hide it and start `fetchStudents`. */
    method CloseModal()
      modifies this
      ensures !showModal && loading
      ensures students == old(students) && selectedStudent == old(selectedStudent)
      ensures formName == old(formName) && formImages == old(formImages)
    {
      showModal := false;
      loading := true;
    }

    /** `fetchStudents` settling: the list on success, and `loading` false either way. */
    method FetchDone(response: Option<seq<StudentRow>>)
      modifies this
      ensures !loading
      ensures response.Some? ==> students == response.value
      ensures response.None? ==> students == old(students)
      ensures showModal == old(showModal) && selectedStudent == old(selectedStudent)
      ensures formName == old(formName) && formImages == old(formImages)
    {
      if response.Some? {
        students := response.value;
      }
      loading := false;
    }
  }

  const NameMissing := "Please enter a student name"
  const RollMissing := "Please enter a roll number"
  const ImagesMissing := "Please select at least one image"

  /** The modal's checks in their order; the first that fails gives the message. */
  function ValidationError<File>(name: string, rollNumber: string, images: seq<File>): Option<string>
  {
    if Trim(name) == [] then Some(NameMissing)
    else if Trim(rollNumber) == [] then Some(RollMissing)
    else if |images| == 0 then Some(ImagesMissing)
    else None
  }

  /** The checks run in order: a blank name (white space only) wins over a
      blank roll number, which wins over an empty selection; nothing is
      reported only when all three pass. */
  lemma ValidationOrder<File>(name: string, rollNumber: string, images: seq<File>)
    ensures var e := ValidationError(name, rollNumber, images);
      && (e.None? <==> !AllSpace(name) && !AllSpace(rollNumber) && |images| > 0)
      && (e == Some(NameMissing) <==> AllSpace(name))
      && (e == Some(RollMissing) <==> !AllSpace(name) && AllSpace(rollNumber))
      && (e == Some(ImagesMissing) <==> !AllSpace(name) && !AllSpace(rollNumber) && images == [])
  {
    TrimSpec(name);
    TrimSpec(rollNumber);
  }

  /** `student?.field || ''` */
  function Prefill(field: Option<string>): string
  {
    if field.Some? then field.value else []
  }

  /** The arguments `addStudent` is called with. */
  datatype AddCall<File> = AddCall(name: string, rollNumber: string, email: string, images: seq<File>)

  /** `AddStudentModal`. `pending` is true while `addStudent` is awaited. */
  class AddStudentModal<File> {
    var name: string
    var rollNumber: string
    var email: string
    var selectedImages: seq<File>
    var loading: bool
    var error: Option<string>
    var pending: bool
    /** The arguments of the awaited `addStudent` call, as the submit
        handler's closure captured them. */
    var submitted: Option<AddCall<File>>
    /** Set once `onClose` has been called. */
    var closed: bool

    /** An awaited call has its captured arguments. */
    ghost predicate Valid()
      reads this
    {
      pending ==> submitted.Some?
    }

    /** The initial state: fields from the edited student, or empty; never any images. */
    constructor (student: Option<StudentRow>)
      ensures student.None? ==> name == [] && rollNumber == [] && email == []
      ensures student.Some? ==>
        && name == student.value.name
        && rollNumber == Prefill(student.value.rollNumber)
        && email == Prefill(student.value.email)
      ensures selectedImages == [] && !loading && error.None? && !pending && !closed
      ensures Valid() && submitted.None?
    {
      if student.Some? {
        name := student.value.name;
        rollNumber := Prefill(student.value.rollNumber);
        email := Prefill(student.value.email);
      } else {
        name, rollNumber, email := [], [], [];
      }
      selectedImages := [];
      loading, error, pending, closed := false, None, false, false;
      submitted := None;
    }

    /** `handleImageSelect`: any file list, even an empty one, replaces the
        selection; only a missing list is ignored. The file input stays
        enabled while a call is awaited, and the call keeps the files it
        was given. */
    method HandleImageSelect(files: Option<seq<File>>)
      modifies this
      ensures submitted == old(submitted)
      ensures files.Some? ==> selectedImages == files.value
      ensures files.None? ==> selectedImages == old(selectedImages)
      ensures name == old(name) && rollNumber == old(rollNumber) && email == old(email)
      ensures loading == old(loading) && error == old(error) && pending == old(pending) && closed == old(closed)
    {
      if files.Some? {
        selectedImages := files.value;
      }
    }

    /** `handleSubmit` up to its `await`. A failed check sets its message and
        stops; otherwise `loading` is set, the error cleared, and
        `addStudent` called once with the untrimmed fields. */
    method Submit() returns (call: Option<AddCall<File>>)
      requires !pending
      modifies this
      ensures var e := ValidationError(old(name), old(rollNumber), old(selectedImages));
        && (e.Some? ==> call.None? && error == e && loading == old(loading) && !pending)
        && (e.None? ==> call == Some(AddCall(old(name), old(rollNumber), old(email), old(selectedImages)))
                        && error.None? && loading && pending)
      ensures name == old(name) && rollNumber == old(rollNumber) && email == old(email)
      ensures selectedImages == old(selectedImages) && closed == old(closed)
      ensures call.Some? ==> submitted == call
      ensures call.None? ==> submitted == old(submitted)
      ensures old(Valid()) ==> Valid()
    {
      var e := ValidationError(name, rollNumber, selectedImages);
      if e.Some? {
        error := e;
        return None;
      }
      loading := true;
      error := None;
      pending := true;
      call := Some(AddCall(name, rollNumber, email, selectedImages));
      submitted := call;
    }

    /** `handleSubmit` after its `await`: success alerts and closes, failure
        shows the message or a default, and `loading` is false either way.
        `outcome` is `None` for success or the thrown message. The alert
        names the student and counts the photos of the call that was made,
        whatever the inputs hold now. */
    method Settle(outcome: Option<string>) returns (alert: Option<string>)
      requires Valid()
      modifies this
      ensures Valid() && submitted == old(submitted)
      ensures old(pending) ==> !loading && !pending
      ensures old(pending) && outcome.None? ==>
        var c := old(submitted).value;
        && closed && error == old(error)
        && alert == Some("Successfully added student " + c.name + " with " + NatToString(|c.images|) + " photo(s)")
      ensures old(pending) && outcome.Some? ==>
        && alert.None? && closed == old(closed)
        && error == Some(if outcome.value != [] then outcome.value else "Failed to add student")
      ensures !old(pending) ==> alert.None? && loading == old(loading) && error == old(error) && closed == old(closed)
      ensures !old(pending) ==> pending == old(pending)
      ensures name == old(name) && rollNumber == old(rollNumber) && email == old(email)
      ensures selectedImages == old(selectedImages)
    {
      alert := None;
      if !pending {
        return;
      }
      if outcome.None? {
        var c := submitted.value;
        alert := Some("Successfully added student " + c.name + " with " + NatToString(|c.images|) + " photo(s)");
        closed := true;
      } else {
        error := Some(if outcome.value != [] then outcome.value else "Failed to add student");
      }
      loading := false;
      pending := false;
    }
  }

  /** Choosing other files while `addStudent` is awaited leaves the success
      alert counting the files that were sent. */
  method ReselectWhileAwaiting<File>(f1: File, f2: File, f3: File) returns (alert: Option<string>)
    ensures alert == Some("Successfully added student " + "Ana" + " with " + "2" + " photo(s)")
  {
    var name, roll := "Ana", "R1";
    assert !IsJsSpace(name[0]) && !IsJsSpace(roll[0]);
    TrimSpec(name);
    TrimSpec(roll);
    var m := new AddStudentModal<File>(Some(StudentRow(1, name, Some(roll), None)));
    m.HandleImageSelect(Some([f1, f2]));
    assert ValidationError(name, roll, [f1, f2]).None?;
    var call := m.Submit();
    m.HandleImageSelect(Some([f3]));
    assert m.pending && m.submitted == Some(AddCall(name, roll, [], [f1, f2]));
    alert := m.Settle(None);
    assert NatToString(|[f1, f2]|) == "2";
  }
}
