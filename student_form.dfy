/** `AddStudentForm`: a name, a file selection, and a submit that uploads
    the images one at a time with `addStudent(name, image)`. Each upload is
    an outside call; what the `k`-th call does is given as `outcomes(k)`
    (`None` for success, or the thrown message). */
module StudentForm {
  import opened Common

  /** One `addStudent(studentName, image)` call. */
  datatype Upload<File> = Upload(name: string, image: File)

  /** The calls that upload `images` in order under one name. */
  function UploadsOf<File>(name: string, images: seq<File>): (r: seq<Upload<File>>)
    ensures |r| == |images|
    ensures forall i :: 0 <= i < |images| ==> r[i] == Upload(name, images[i])
  {
    if images == [] then [] else [Upload(name, images[0])] + UploadsOf(name, images[1..])
  }

  /** The number of the first failing call among calls `from` to `n - 1`. */
  function FirstFailure(outcomes: nat -> Option<string>, from: nat, n: nat): (k: Option<nat>)
    decreases n - from
  {
    if from >= n then None
    else if outcomes(from).Some? then Some(from)
    else FirstFailure(outcomes, from + 1, n)
  }

  /** `FirstFailure` finds the earliest failure, and finds one whenever there is one. */
  lemma {:induction false} FirstFailureIsFirst(outcomes: nat -> Option<string>, from: nat, n: nat)
    ensures var k := FirstFailure(outcomes, from, n);
      && (k.Some? ==> from <= k.value < n && outcomes(k.value).Some?
                      && forall j :: from <= j < k.value ==> outcomes(j).None?)
      && (k.None? ==> forall j :: from <= j < n ==> outcomes(j).None?)
    decreases n - from
  {
    if from < n && outcomes(from).None? {
      FirstFailureIsFirst(outcomes, from + 1, n);
    }
  }

  const Incomplete := "Please provide both student name and at least one image."
  const AddFailed := "Failed to add student."
  const LoadFailed := "Failed to load students."

  class AddStudentForm<File, Student> {
    var studentName: string
    var studentImages: seq<File>
    var message: string
    var error: string
    var students: seq<Student>
    /** How many `fetchStudents` calls have been started. */
    var fetches: nat

    /** The first render, with the mount effect's `fetchStudents` started. */
    constructor ()
      ensures studentName == [] && studentImages == [] && message == [] && error == []
      ensures students == [] && fetches == 1
    {
      studentName, studentImages, message, error := [], [], [], [];
      students, fetches := [], 1;
    }

    /** `fetchStudents` settling: the list on success, an error otherwise. */
    method FetchDone(response: Option<seq<Student>>)
      modifies this
      ensures response.Some? ==> students == response.value && error == old(error)
      ensures response.None? ==> students == old(students) && error == LoadFailed
      ensures studentName == old(studentName) && studentImages == old(studentImages)
      ensures message == old(message) && fetches == old(fetches)
    {
      if response.Some? {
        students := response.value;
      } else {
        error := LoadFailed;
      }
    }

    /** `handleImageChange`: a non-empty file list replaces the selection;
        a missing or empty one leaves it as it was. */
    method HandleImageChange(files: Option<seq<File>>)
      modifies this
      ensures files.Some? && |files.value| > 0 ==> studentImages == files.value
      ensures files.None? || files.value == [] ==> studentImages == old(studentImages)
      ensures studentName == old(studentName) && message == old(message) && error == old(error)
      ensures students == old(students) && fetches == old(fetches)
    {
      if files.Some? && |files.value| > 0 {
        studentImages := files.value;
      }
    }

    /** `handleSubmit`. Message and error are cleared; an empty name or an
        empty selection only sets the error. Otherwise the images are
        uploaded one after the other, in selection order, and the first
        failing call ends the loop: the calls made are the uploads up to and
        including it, and its message (or a default) becomes the error.
        When every call succeeds the message names the student, name and
        selection are reset and the list is fetched again. */
    method HandleSubmit(outcomes: nat -> Option<string>) returns (calls: seq<Upload<File>>)
      modifies this
      ensures old(studentName) == [] || old(studentImages) == [] ==>
        && calls == [] && error == Incomplete && message == []
        && studentName == old(studentName) && studentImages == old(studentImages) && fetches == old(fetches)
      ensures old(studentName) != [] && old(studentImages) != [] ==>
        match FirstFailure(outcomes, 0, |old(studentImages)|)
        case None =>
          && calls == UploadsOf(old(studentName), old(studentImages))
          && message == "Successfully added student " + old(studentName) && error == []
          && studentName == [] && studentImages == [] && fetches == old(fetches) + 1
        case Some(k) =>
          && k < |old(studentImages)| && outcomes(k).Some?
          && calls == UploadsOf(old(studentName), old(studentImages)[..k + 1])
          && error == ErrorText(outcomes(k).value) && message == []
          && studentName == old(studentName) && studentImages == old(studentImages) && fetches == old(fetches)
      ensures students == old(students)
    {
      message, error := [], [];
      if studentName == [] || |studentImages| == 0 {
        error := Incomplete;
        return [];
      }
      var failure;
      calls, failure := UploadAll(studentName, studentImages, outcomes);
      if failure.Some? {
        error := ErrorText(outcomes(failure.value).value);
        return;
      }
      message := "Successfully added student " + studentName;
      studentName, studentImages := [], [];
      fetches := fetches + 1;
    }
  }

  /** The `for ... of` loop of `handleSubmit`: `addStudent` for each image in
      turn, stopping at the first call that throws. `failure` is the number of
      that call. */
  method UploadAll<File>(name: string, images: seq<File>, outcomes: nat -> Option<string>)
    returns (calls: seq<Upload<File>>, failure: Option<nat>)
    ensures failure == FirstFailure(outcomes, 0, |images|)
    ensures failure.None? ==> calls == UploadsOf(name, images)
    ensures failure.Some? ==> failure.value < |images| && outcomes(failure.value).Some?
                              && calls == UploadsOf(name, images[..failure.value + 1])
  {
    calls := [];
    var i := 0;
    while i < |images|
      invariant 0 <= i <= |images|
      invariant calls == UploadsOf(name, images[..i])
      invariant forall j :: 0 <= j < i ==> outcomes(j).None?
    {
      assert images[..i + 1] == images[..i] + [images[i]];
      UploadsOfAppend(name, images[..i], images[i]);
      calls := calls + [Upload(name, images[i])];
      if outcomes(i).Some? {
        FirstFailureAt(outcomes, i, |images|);
        return calls, Some(i);
      }
      i := i + 1;
    }
    assert images[..i] == images;
    FirstFailureIsFirst(outcomes, 0, |images|);
    failure := None;
  }

  /** Uploading one more image appends one more call. */
  lemma UploadsOfAppend<File>(name: string, images: seq<File>, image: File)
    ensures UploadsOf(name, images + [image]) == UploadsOf(name, images) + [Upload(name, image)]
  {
  }

  /** `err.message || "Failed to add student."`. */
  function ErrorText(thrown: string): (text: string)
    ensures text != []
    ensures thrown != [] ==> text == thrown
  {
    if thrown != [] then thrown else AddFailed
  }

  /** A failure with only successes before it is the first failure. */
  lemma FirstFailureAt(outcomes: nat -> Option<string>, k: nat, n: nat)
    requires k < n && outcomes(k).Some?
    requires forall j :: 0 <= j < k ==> outcomes(j).None?
    ensures FirstFailure(outcomes, 0, n) == Some(k)
  {
    FirstFailureIsFirst(outcomes, 0, n);
  }
}
