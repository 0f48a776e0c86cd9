/** The `recognize-frame` endpoint: a 30-second cache of registered students,
    one match per detected face, and a per-student five-minute cooldown on
    the attendance rows it writes.

    Times are whole seconds. The local wall clock is read in two places:
    once for the cache, and once per face that could record attendance
    (`clock[k]` is what `datetime.now()` gives at face `k`). A row is
    identified here by its student and the cooldown reading it was written
    under; the row's own timestamp column is not part of this model. */
module RecognitionEndpoint {
  import opened Common
  import RS = RecognitionService
  import T = Training

  const RefreshSeconds := 30
  const CooldownSeconds := 300
  const SecondsPerDay := 86400
  const BadImageStatus := 400
  /** The status when the response cannot be encoded as JSON. */
  const ServerErrorStatus := 500

  /** `(now - then).seconds`: the seconds field of a `timedelta`, which drops
      whole days (and is normalised non-negative, as Euclidean `%` is). */
  function TimedeltaSeconds(now: int, earlier: int): (s: int)
    ensures 0 <= s < SecondsPerDay
    ensures (now - earlier - s) % SecondsPerDay == 0
    ensures 0 <= now - earlier < SecondsPerDay ==> s == now - earlier
  {
    (now - earlier) % SecondsPerDay
  }

  /** `get_cached_students` reloads iff this holds. */
  predicate NeedsRefresh<C>(data: Option<C>, lastUpdate: Option<int>, now: int)
  {
    data.None? || lastUpdate.None? || TimedeltaSeconds(now, lastUpdate.value) > RefreshSeconds
  }

  /** Within a day of the last load, the rule is the intended "older than 30 s". */
  lemma RefreshWithinADay<C>(data: C, lastUpdate: int, now: int)
    requires 0 <= now - lastUpdate < SecondsPerDay
    ensures NeedsRefresh(Some(data), Some(lastUpdate), now) <==> now - lastUpdate > RefreshSeconds
  {
  }

  /** Because whole days are dropped, a cache loaded a day and ten seconds
      ago counts as fresh, while one loaded 31 seconds ago is reloaded. */
  lemma DayOldCacheIsKept<C>(data: C)
    ensures !NeedsRefresh(Some(data), Some(0), SecondsPerDay + 10)
    ensures NeedsRefresh(Some(data), Some(0), 31)
  {
    assert TimedeltaSeconds(SecondsPerDay + 10, 0) == 10;
  }

  /** A BGR colour as OpenCV draws it. */
  datatype Colour = Colour(b: int, g: int, r: int)
  const Green := Colour(0, 255, 0)
  const Red := Colour(0, 0, 255)

  /** Green for a known face, red for "Unknown". */
  function BoxColour(name: string): (c: Colour)
    ensures c == Red <==> name == RS.UnknownName
    ensures c == Green <==> name != RS.UnknownName
  {
    if name != RS.UnknownName then Green else Red
  }

  datatype Box = Box(x1: int, y1: int, x2: int, y2: int)

  /** What the detector reports for one face. */
  datatype DetectedFace<E> = DetectedFace(bbox: Box, score: real, embedding: Option<E>)

  /** One `recognized_faces` entry. */
  datatype FaceResult = FaceResult(bbox: Box, confidence: real, name: string, similarity: RS.Similarity)

  /** A response that is sent has both keys. `boxes` are the colours drawn
      on the annotated frame, one per entry; the JPEG itself is not
      modelled. */
  datatype Response = Response(recognizedFaces: seq<FaceResult>, boxes: seq<Colour>)

  /** An attendance row this endpoint wrote, with the `now` under which the
      cooldown admitted it. */
  datatype Record = Record(studentId: nat, time: int)

  /** The cached entries as `find_match` reads them. */
  function Candidates<E>(entries: seq<T.Entry<E>>): (c: seq<RS.Candidate<E>>)
    ensures |c| == |entries|
    ensures forall j :: 0 <= j < |entries| ==> c[j] == RS.Candidate(entries[j].name, Some(entries[j].embedding))
  {
    if entries == [] then []
    else [RS.Candidate(entries[0].name, Some(entries[0].embedding))] + Candidates(entries[1..])
  }

  /** `next((s["id"] for s in students if s["name"] == name), None)` */
  function LookupId<E>(entries: seq<T.Entry<E>>, name: string): (r: Option<nat>)
    ensures r.None? <==> forall j :: 0 <= j < |entries| ==> entries[j].name != name
    ensures r.Some? ==>
      exists j :: (0 <= j < |entries| && entries[j].name == name && entries[j].id == r.value
        && forall i :: 0 <= i < j ==> entries[i].name != name)
  {
    if entries == [] then None
    else if entries[0].name == name then Some(entries[0].id)
    else
      var r := LookupId(entries[1..], name);
      assert forall j :: 1 <= j < |entries| ==> entries[j] == entries[1..][j - 1];
      if r.Some? then
        var j :| 0 <= j < |entries[1..]| && entries[1..][j].name == name && entries[1..][j].id == r.value
          && forall i :: 0 <= i < j ==> entries[1..][i].name != name;
        assert entries[j + 1] == entries[1..][j];
        r
      else r
  }

  /** A name other than "Unknown" that `find_match` returns is always found
      by the id lookup: it came from the same list. */
  lemma MatchedNameHasId<E>(e: Option<E>, entries: seq<T.Entry<E>>, threshold: real, dist: (E, E) -> real)
    requires RS.Match(e, Candidates(entries), threshold, dist).0 != RS.UnknownName
    ensures LookupId(entries, RS.Match(e, Candidates(entries), threshold, dist).0).Some?
  {
    RS.MatchedNameIsRegistered(e, Candidates(entries), threshold, dist);
  }

  /** The entry for a face: its box and score with the match's name and similarity. */
  function Describe<E>(face: DetectedFace<E>, entries: seq<T.Entry<E>>, threshold: real, dist: (E, E) -> real): FaceResult
  {
    var m := RS.Match(face.embedding, Candidates(entries), threshold, dist);
    FaceResult(face.bbox, face.score, m.0, m.1)
  }

  /** The most recent time `studentId` was recorded. */
  function LastTime(written: seq<Record>, studentId: nat): (t: Option<int>)
    ensures t.None? <==> forall i :: 0 <= i < |written| ==> written[i].studentId != studentId
  {
    if written == [] then None
    else if written[|written| - 1].studentId == studentId then Some(written[|written| - 1].time)
    else
      assert forall i :: 0 <= i < |written| - 1 ==> written[..|written| - 1][i] == written[i];
      LastTime(written[..|written| - 1], studentId)
  }

  /** Each cooldown entry is the reading under which that student's latest
      row was written. */
  ghost predicate CooldownMatches(cooldown: map<nat, int>, written: seq<Record>)
  {
    && (forall id :: id in cooldown ==> LastTime(written, id) == Some(cooldown[id]))
    && (forall i :: 0 <= i < |written| ==> written[i].studentId in cooldown)
  }

  /** Two records of the same student are more than five minutes apart. */
  ghost predicate Spaced(written: seq<Record>)
  {
    forall i, j :: 0 <= i < j < |written| && written[i].studentId == written[j].studentId ==>
      written[j].time - written[i].time > CooldownSeconds
  }

  /** The cooldown test: no entry, or strictly more than five minutes. */
  predicate Admits(cooldown: map<nat, int>, studentId: nat, now: int)
  {
    studentId !in cooldown || now - cooldown[studentId] > CooldownSeconds
  }

  /** In a spaced log, the latest record of a student is its greatest time. */
  lemma {:induction false} LastIsGreatest(written: seq<Record>, studentId: nat)
    requires Spaced(written) && LastTime(written, studentId).Some?
    ensures forall i :: 0 <= i < |written| && written[i].studentId == studentId ==>
      written[i].time <= LastTime(written, studentId).value
  {
    var n := |written| - 1;
    if written[n].studentId != studentId {
      var front := written[..n];
      assert forall i :: 0 <= i < n ==> front[i] == written[i];
      LastIsGreatest(front, studentId);
    }
  }

  /** Writing a record the cooldown admits, and setting the entry, keeps
      both invariants. */
  lemma RecordKeepsInvariant(cooldown: map<nat, int>, written: seq<Record>, studentId: nat, now: int)
    requires CooldownMatches(cooldown, written) && Spaced(written) && Admits(cooldown, studentId, now)
    ensures CooldownMatches(cooldown[studentId := now], written + [Record(studentId, now)])
    ensures Spaced(written + [Record(studentId, now)])
  {
    var w := written + [Record(studentId, now)];
    assert w[..|written|] == written;
    if studentId in cooldown {
      LastIsGreatest(written, studentId);
    }
    forall i, j | 0 <= i < j < |w| && w[i].studentId == w[j].studentId
      ensures w[j].time - w[i].time > CooldownSeconds
    {
      if j == |written| {
        assert w[i] == written[i];
      }
    }
  }

  /** The student a matched name leads to: a known name whose first entry's
      id is truthy. */
  function AttendeeByName<E>(name: string, entries: seq<T.Entry<E>>): (a: Option<nat>)
  {
    if name == RS.UnknownName then None
    else
      var id := LookupId(entries, name);
      if id.Some? && id.value != 0 then id else None
  }

  /** The names of the response entries, in order. */
  function Names(results: seq<FaceResult>): (names: seq<string>)
    ensures |names| == |results|
    ensures forall k :: 0 <= k < |results| ==> names[k] == results[k].name
  {
    if results == [] then [] else [results[0].name] + Names(results[1..])
  }

  /** Record `r` was earned by the face at `j`: its name leads to that
      student and it was admitted under the clock reading for that face. */
  ghost predicate EarnedBy<E>(r: Record, names: seq<string>, entries: seq<T.Entry<E>>, clock: seq<int>, j: int)
  {
    && 0 <= j < |names| && j < |clock|
    && AttendeeByName(names[j], entries) == Some(r.studentId)
    && r.time == clock[j]
  }

  /** Some face of the frame earned record `r`. */
  ghost predicate Earned<E>(r: Record, names: seq<string>, entries: seq<T.Entry<E>>, clock: seq<int>)
  {
    exists j :: EarnedBy(r, names, entries, clock, j)
  }

  /** Every row from index `n` on was earned by some face of the frame. */
  ghost predicate AllEarned<E>(n: nat, written: seq<Record>, names: seq<string>, entries: seq<T.Entry<E>>, clock: seq<int>)
  {
    forall i :: n <= i < |written| ==> Earned(written[i], names, entries, clock)
  }

  lemma AppendEarned<E>(n: nat, written: seq<Record>, r: Record, names: seq<string>, entries: seq<T.Entry<E>>,
                        clock: seq<int>, k: int)
    requires AllEarned(n, written, names, entries, clock)
    requires EarnedBy(r, names, entries, clock, k)
    ensures AllEarned(n, written + [r], names, entries, clock)
  {
    var w := written + [r];
    forall i | n <= i < |w| ensures Earned(w[i], names, entries, clock) {
      if i < |written| {
        assert w[i] == written[i];
      } else {
        assert EarnedBy(w[i], names, entries, clock, k);
      }
    }
  }

  class Recognizer<E> {
    /** `_student_cache["data"]` and `_student_cache["last_update"]`. */
    var cacheData: Option<seq<T.Entry<E>>>
    var cacheUpdated: Option<int>
    /** `_attendance_cooldown`. */
    var cooldown: map<nat, int>
    /** The attendance rows this endpoint has written, oldest first. */
    var written: seq<Record>

    ghost predicate Valid()
      reads this
    {
      CooldownMatches(cooldown, written) && Spaced(written)
    }

    constructor ()
      ensures Valid()
      ensures cacheData.None? && cacheUpdated.None? && cooldown == map[] && written == []
    {
      cacheData := None;
      cacheUpdated := None;
      cooldown := map[];
      written := [];
    }

    /** `get_cached_students`. */
    method GetCachedStudents(now: int, table: seq<T.Student<E>>) returns (data: seq<T.Entry<E>>)
      requires Valid()
      modifies this
      ensures Valid()
      ensures NeedsRefresh(old(cacheData), old(cacheUpdated), now) ==>
        data == T.LoadAll(table) && cacheData == Some(data) && cacheUpdated == Some(now)
      ensures !NeedsRefresh(old(cacheData), old(cacheUpdated), now) ==>
        Some(data) == old(cacheData) && cacheData == old(cacheData) && cacheUpdated == old(cacheUpdated)
      ensures cooldown == old(cooldown) && written == old(written)
    {
      if NeedsRefresh(cacheData, cacheUpdated, now) {
        cacheData := Some(T.LoadAll(table));
        cacheUpdated := Some(now);
      }
      data := cacheData.value;
    }

    /** `recognize_frame`. An undecodable upload is rejected with 400 before
        anything else happens. Otherwise every detected face gets one entry,
        in detection order, and a known face whose student has a truthy id
        records attendance when the cooldown admits it; each row is
        committed as it is written. The response is encoded only after the
        loop, and a similarity of minus infinity (a face with no student
        embedding to compare against) cannot be encoded as JSON: the
        request then fails with 500, with its rows already committed. */
    method RecognizeFrame(decoded: bool, requestTime: int, table: seq<T.Student<E>>,
                          faces: seq<DetectedFace<E>>, clock: seq<int>, configured: real, dist: (E, E) -> real)
      returns (response: Result<Response, int>)
      requires Valid() && |clock| == |faces|
      modifies this
      ensures Valid()
      ensures !decoded ==> response == Err(BadImageStatus) && unchanged(this)
      ensures decoded ==> cacheData.Some?
      ensures decoded ==>
        var names := FaceNames(faces, cacheData.value, configured, dist);
        // earlier rows are kept; each new row was earned by one of this frame's faces
        && |written| >= |old(written)| && written[..|old(written)|] == old(written)
        && AllEarned(|old(written)|, written, names, cacheData.value, clock)
        // a frame read within five minutes records each student at most once
        && ((forall a, b :: 0 <= a < |clock| && 0 <= b < |clock| ==> clock[b] - clock[a] <= CooldownSeconds) ==>
              forall i, j :: |old(written)| <= i < j < |written| ==> written[i].studentId != written[j].studentId)
        // every student a face leads to has a cooldown entry afterwards
        && (forall k :: 0 <= k < |faces| ==> HasCooldownEntry(names[k], cacheData.value, cooldown))
        // the new cooldown map and rows are the per-face rule applied face by face
        && (cooldown, written) == AttendAll(|faces|, names, cacheData.value, clock, old(cooldown), old(written))
      ensures decoded ==>
        (response.Ok? <==>
          forall k :: 0 <= k < |faces| ==> Describe(faces[k], cacheData.value, configured, dist).similarity.Sim?)
      ensures decoded && response.Err? ==> response.error == ServerErrorStatus
      ensures response.Ok? ==>
        && cacheData.Some?
        && |response.value.recognizedFaces| == |faces|
        && (forall k :: 0 <= k < |faces| ==>
              response.value.recognizedFaces[k] == Describe(faces[k], cacheData.value, configured, dist))
        && |response.value.boxes| == |faces|
        && (forall k :: 0 <= k < |faces| ==>
              response.value.boxes[k] == BoxColour(response.value.recognizedFaces[k].name))
    {
      if !decoded {
        return Err(BadImageStatus);
      }
      var registered := GetCachedStudents(requestTime, table);
      var results, cd, log := ProcessFaces(faces, registered, clock, configured, dist, cooldown, written);
      cooldown := cd;
      written := log;
      assert Names(results) == FaceNames(faces, registered, configured, dist);
      if !Encodable(results) {
        return Err(ServerErrorStatus);
      }
      var boxes := Colours(results);
      response := Ok(Response(results, boxes));
    }
  }

  /** Every similarity is a finite number, so `json.dumps` with
      `allow_nan=False` accepts the entries. */
  predicate Encodable(results: seq<FaceResult>)
  {
    forall k :: 0 <= k < |results| ==> results[k].similarity.Sim?
  }

  /** With no student loaded, any face with an embedding gets similarity
      minus infinity, so a frame showing a face cannot be answered. */
  lemma NoStudentsNoAnswer<E>(face: DetectedFace<E>, configured: real, dist: (E, E) -> real)
    requires face.embedding.Some?
    ensures Describe(face, [], configured, dist).similarity == RS.NegInf
    ensures Describe(face, [], configured, dist).name == RS.UnknownName
  {
    RS.MatchSpec(face.embedding, Candidates<E>([]), configured, dist);
  }

  /** The cooldown check and write for one face, on values: a known name
      with a truthy id that the cooldown admits adds a row at `now` and moves
      that student's entry to `now`; anything else changes nothing. */
  function Attend<E>(name: string, registered: seq<T.Entry<E>>, now: int,
                     cooldown: map<nat, int>, written: seq<Record>): (map<nat, int>, seq<Record>)
  {
    var a := AttendeeByName(name, registered);
    if a.Some? && Admits(cooldown, a.value, now) then (cooldown[a.value := now], written + [Record(a.value, now)])
    else (cooldown, written)
  }

  /** The cooldown map and the rows after the first `k` faces, face `j`
      having matched `names[j]` at clock reading `clock[j]`. */
  function AttendAll<E>(k: nat, names: seq<string>, registered: seq<T.Entry<E>>, clock: seq<int>,
                        cooldown0: map<nat, int>, written0: seq<Record>): (map<nat, int>, seq<Record>)
    requires k <= |names| && k <= |clock|
  {
    if k == 0 then (cooldown0, written0)
    else
      var s := AttendAll(k - 1, names, registered, clock, cooldown0, written0);
      Attend(names[k - 1], registered, clock[k - 1], s.0, s.1)
  }

  /** Later faces only ever add rows: the rows after `i` faces are a prefix
      of the rows after `k >= i` faces. */
  lemma {:induction false} AttendAllKeepsRows<E>(i: nat, k: nat, names: seq<string>, registered: seq<T.Entry<E>>,
                                                 clock: seq<int>, cooldown0: map<nat, int>, written0: seq<Record>)
    requires i <= k <= |names| && k <= |clock|
    ensures var before := AttendAll(i, names, registered, clock, cooldown0, written0).1;
      var after := AttendAll(k, names, registered, clock, cooldown0, written0).1;
      |before| <= |after| && after[..|before|] == before
  {
    if i < k {
      AttendAllKeepsRows(i, k - 1, names, registered, clock, cooldown0, written0);
      var before := AttendAll(i, names, registered, clock, cooldown0, written0).1;
      var mid := AttendAll(k - 1, names, registered, clock, cooldown0, written0).1;
      var after := AttendAll(k, names, registered, clock, cooldown0, written0).1;
      assert after == mid || after == mid + [after[|after| - 1]];
      assert after[..|mid|] == mid;
      assert after[..|before|] == mid[..|before|];
    }
  }

  /** A student none of the first `k` faces leads to keeps the cooldown entry
      (or the lack of one) it started with. */
  lemma {:induction false} UntouchedEntry<E>(k: nat, a: nat, names: seq<string>, registered: seq<T.Entry<E>>,
                                             clock: seq<int>, cooldown0: map<nat, int>, written0: seq<Record>)
    requires k <= |names| && k <= |clock|
    requires forall j :: 0 <= j < k ==> AttendeeByName(names[j], registered) != Some(a)
    ensures var cd := AttendAll(k, names, registered, clock, cooldown0, written0).0;
      (a in cd <==> a in cooldown0) && (a in cooldown0 ==> cd[a] == cooldown0[a])
  {
    if k > 0 {
      UntouchedEntry(k - 1, a, names, registered, clock, cooldown0, written0);
    }
  }

  /** The first face of a frame that leads to a student records that student
      at its clock reading whenever the cooldown the frame started with
      admits it: no entry, or one more than five minutes older. */
  lemma FirstSightingIsRecorded<E>(j: nat, a: nat, names: seq<string>, registered: seq<T.Entry<E>>,
                                   clock: seq<int>, cooldown0: map<nat, int>, written0: seq<Record>)
    requires j < |names| <= |clock|
    requires AttendeeByName(names[j], registered) == Some(a)
    requires forall i :: 0 <= i < j ==> AttendeeByName(names[i], registered) != Some(a)
    requires Admits(cooldown0, a, clock[j])
    ensures var w := AttendAll(|names|, names, registered, clock, cooldown0, written0).1;
      exists i :: |written0| <= i < |w| && w[i] == Record(a, clock[j])
  {
    UntouchedEntry(j, a, names, registered, clock, cooldown0, written0);
    var s := AttendAll(j, names, registered, clock, cooldown0, written0);
    var next := AttendAll(j + 1, names, registered, clock, cooldown0, written0).1;
    var w := AttendAll(|names|, names, registered, clock, cooldown0, written0).1;
    assert next == s.1 + [Record(a, clock[j])];
    AttendAllKeepsRows(0, j, names, registered, clock, cooldown0, written0);
    AttendAllKeepsRows(j + 1, |names|, names, registered, clock, cooldown0, written0);
    assert w[|s.1|] == next[|s.1|];
  }

  /** The cooldown check and write for one matched name at `now`: a known
      name with a truthy id is recorded when the cooldown admits it. */
  method AttendFace<E>(name: string, registered: seq<T.Entry<E>>, now: int, cooldown: map<nat, int>, written: seq<Record>)
    returns (recorded: bool, cooldown': map<nat, int>, written': seq<Record>)
    requires CooldownMatches(cooldown, written) && Spaced(written)
    ensures CooldownMatches(cooldown', written') && Spaced(written')
    ensures var a := AttendeeByName(name, registered);
      && (recorded <==> a.Some? && Admits(cooldown, a.value, now))
      && (recorded ==> written' == written + [Record(a.value, now)] && cooldown' == cooldown[a.value := now])
      && (!recorded ==> written' == written && cooldown' == cooldown)
      && cooldown.Keys <= cooldown'.Keys && HasCooldownEntry(name, registered, cooldown')
    ensures (cooldown', written') == Attend(name, registered, now, cooldown, written)
  {
    recorded, cooldown', written' := false, cooldown, written;
    if name != RS.UnknownName {
      var studentId := LookupId(registered, name);
      if studentId.Some? && studentId.value != 0 {
        var sid := studentId.value;
        if Admits(cooldown, sid, now) {
          RecordKeepsInvariant(cooldown, written, sid, now);
          recorded := true;
          written' := written + [Record(sid, now)];
          cooldown' := cooldown[sid := now];
        }
      }
    }
  }

  /** The student a face's name leads to, if any, has a cooldown entry. */
  predicate HasCooldownEntry<E>(name: string, registered: seq<T.Entry<E>>, cooldown: map<nat, int>)
  {
    var a := AttendeeByName(name, registered);
    a.Some? ==> a.value in cooldown
  }

  /** The entries for the first `k` faces are in place, and every student
      they lead to has a cooldown entry. */
  ghost predicate ResultsSoFar<E>(k: nat, faces: seq<DetectedFace<E>>, registered: seq<T.Entry<E>>,
                                  configured: real, dist: (E, E) -> real,
                                  results: seq<FaceResult>, cooldown: map<nat, int>)
  {
    && k <= |faces| && |results| == k
    && (forall j :: 0 <= j < k ==> results[j] == Describe(faces[j], registered, configured, dist))
    && (forall j :: 0 <= j < k ==> HasCooldownEntry(results[j].name, registered, cooldown))
  }

  /** The rows written so far extend `written0`, keep the cooldown invariant,
      and were each earned by a face of the frame at its clock reading. */
  ghost predicate LogSoFar<E>(faces: seq<DetectedFace<E>>, registered: seq<T.Entry<E>>, clock: seq<int>,
                              configured: real, dist: (E, E) -> real, written0: seq<Record>,
                              cooldown: map<nat, int>, written: seq<Record>)
  {
    && CooldownMatches(cooldown, written) && Spaced(written)
    && |written| >= |written0| && written[..|written0|] == written0
    && AllEarned(|written0|, written, FaceNames(faces, registered, configured, dist), registered, clock)
    && (forall i :: |written0| <= i < |written| ==> written[i].time in clock)
  }

  lemma ResultsStep<E>(k: nat, faces: seq<DetectedFace<E>>, registered: seq<T.Entry<E>>,
                       configured: real, dist: (E, E) -> real,
                       results: seq<FaceResult>, cooldown: map<nat, int>, r: FaceResult, cooldown': map<nat, int>)
    requires ResultsSoFar(k, faces, registered, configured, dist, results, cooldown) && k < |faces|
    requires r == Describe(faces[k], registered, configured, dist)
    requires cooldown.Keys <= cooldown'.Keys && HasCooldownEntry(r.name, registered, cooldown')
    ensures ResultsSoFar(k + 1, faces, registered, configured, dist, results + [r], cooldown')
  {
    var results' := results + [r];
    forall j | 0 <= j < k + 1
      ensures results'[j] == Describe(faces[j], registered, configured, dist)
      ensures HasCooldownEntry(results'[j].name, registered, cooldown')
    {
      if j < k {
        assert results'[j] == results[j];
      }
    }
  }

  lemma LogStep<E>(k: nat, faces: seq<DetectedFace<E>>, registered: seq<T.Entry<E>>, clock: seq<int>,
                   configured: real, dist: (E, E) -> real, written0: seq<Record>,
                   cooldown: map<nat, int>, written: seq<Record>, cooldown': map<nat, int>, rec: Record)
    requires k < |faces| && |clock| == |faces|
    requires LogSoFar(faces, registered, clock, configured, dist, written0, cooldown, written)
    requires EarnedBy(rec, FaceNames(faces, registered, configured, dist), registered, clock, k)
    requires CooldownMatches(cooldown', written + [rec]) && Spaced(written + [rec])
    ensures LogSoFar(faces, registered, clock, configured, dist, written0, cooldown', written + [rec])
  {
    var w := written + [rec];
    AppendEarned(|written0|, written, rec, FaceNames(faces, registered, configured, dist), registered, clock, k);
    assert w[..|written|] == written;
    forall i | |written0| <= i < |w| ensures w[i].time in clock {
      if i < |written| {
        assert w[i] == written[i];
      } else {
        assert w[i].time == clock[k];
      }
    }
  }

  /** One iteration of the per-face loop: match face `k`, then apply the
      cooldown check and write at its clock reading. */
  method FaceStep<E>(k: nat, faces: seq<DetectedFace<E>>, registered: seq<T.Entry<E>>, clock: seq<int>,
                     configured: real, dist: (E, E) -> real, cooldown0: map<nat, int>, written0: seq<Record>,
                     candidates: seq<RS.Candidate<E>>,
                     results: seq<FaceResult>, cooldown: map<nat, int>, written: seq<Record>)
    returns (results': seq<FaceResult>, cooldown': map<nat, int>, written': seq<Record>)
    requires k < |faces| && |clock| == |faces| && candidates == Candidates(registered)
    requires ResultsSoFar(k, faces, registered, configured, dist, results, cooldown)
    requires LogSoFar(faces, registered, clock, configured, dist, written0, cooldown, written)
    requires (cooldown, written) == AttendAll(k, FaceNames(faces, registered, configured, dist), registered, clock, cooldown0, written0)
    ensures ResultsSoFar(k + 1, faces, registered, configured, dist, results', cooldown')
    ensures LogSoFar(faces, registered, clock, configured, dist, written0, cooldown', written')
    ensures (cooldown', written') == AttendAll(k + 1, FaceNames(faces, registered, configured, dist), registered, clock, cooldown0, written0)
  {
    var r := DescribeFace(faces[k], candidates, registered, configured, dist);
    results' := results + [r];
    var recorded;
    recorded, cooldown', written' := AttendFace(r.name, registered, clock[k], cooldown, written);
    ResultsStep(k, faces, registered, configured, dist, results, cooldown, r, cooldown');
    if recorded {
      LogStep(k, faces, registered, clock, configured, dist, written0, cooldown, written, cooldown', written'[|written'| - 1]);
    }
  }

  /** The per-face loop of `recognize_frame` over the cooldown map and the
      attendance rows. */
  method ProcessFaces<E>(faces: seq<DetectedFace<E>>, registered: seq<T.Entry<E>>, clock: seq<int>,
                         configured: real, dist: (E, E) -> real, cooldown0: map<nat, int>, written0: seq<Record>)
    returns (results: seq<FaceResult>, cooldown: map<nat, int>, written: seq<Record>)
    requires CooldownMatches(cooldown0, written0) && Spaced(written0) && |clock| == |faces|
    ensures CooldownMatches(cooldown, written) && Spaced(written)
    ensures |results| == |faces|
    ensures forall k :: 0 <= k < |faces| ==> results[k] == Describe(faces[k], registered, configured, dist)
    ensures |written| >= |written0| && written[..|written0|] == written0
    ensures AllEarned(|written0|, written, Names(results), registered, clock)
    ensures (forall a, b :: 0 <= a < |clock| && 0 <= b < |clock| ==> clock[b] - clock[a] <= CooldownSeconds) ==>
      forall i, j :: |written0| <= i < j < |written| ==> written[i].studentId != written[j].studentId
    ensures forall k :: 0 <= k < |faces| ==> HasCooldownEntry(results[k].name, registered, cooldown)
    ensures (cooldown, written) == AttendAll(|faces|, Names(results), registered, clock, cooldown0, written0)
  {
    var candidates := Candidates(registered);
    results, cooldown, written := [], cooldown0, written0;
    assert written[..|written0|] == written0;
    var k := 0;
    while k < |faces|
      invariant k <= |faces|
      invariant ResultsSoFar(k, faces, registered, configured, dist, results, cooldown)
      invariant LogSoFar(faces, registered, clock, configured, dist, written0, cooldown, written)
      invariant (cooldown, written) == AttendAll(k, FaceNames(faces, registered, configured, dist), registered, clock, cooldown0, written0)
    {
      results, cooldown, written := FaceStep(k, faces, registered, clock, configured, dist, cooldown0, written0, candidates,
                                             results, cooldown, written);
      k := k + 1;
    }
    OneRecordPerWindow(written0, written, clock);
    assert Names(results) == FaceNames(faces, registered, configured, dist);
  }

  /** The entry for one face, as the loop body computes it. */
  method DescribeFace<E>(face: DetectedFace<E>, candidates: seq<RS.Candidate<E>>, registered: seq<T.Entry<E>>,
                         configured: real, dist: (E, E) -> real)
    returns (r: FaceResult)
    requires candidates == Candidates(registered)
    ensures r == Describe(face, registered, configured, dist)
  {
    var name, similarity := RS.FindMatch(face.embedding, candidates, None, configured, dist);
    r := FaceResult(face.bbox, face.score, name, similarity);
  }

  /** The matched name of each face, in order. */
  ghost function FaceNames<E>(faces: seq<DetectedFace<E>>, registered: seq<T.Entry<E>>, configured: real, dist: (E, E) -> real): (names: seq<string>)
    ensures |names| == |faces|
    ensures forall j :: 0 <= j < |faces| ==> names[j] == Describe(faces[j], registered, configured, dist).name
  {
    if faces == [] then [] else [Describe(faces[0], registered, configured, dist).name] + FaceNames(faces[1..], registered, configured, dist)
  }

  /** The colour drawn for each entry, in order. */
  function Colours(results: seq<FaceResult>): (c: seq<Colour>)
    ensures |c| == |results|
    ensures forall k :: 0 <= k < |results| ==> c[k] == BoxColour(results[k].name)
  {
    if results == [] then [] else [BoxColour(results[0].name)] + Colours(results[1..])
  }

  /** Rows appended to a spaced log at clock readings that all lie within
      five minutes of each other name distinct students. */
  lemma OneRecordPerWindow(before: seq<Record>, written: seq<Record>, clock: seq<int>)
    requires Spaced(written) && |before| <= |written|
    requires forall i :: |before| <= i < |written| ==> written[i].time in clock
    ensures (forall a, b :: 0 <= a < |clock| && 0 <= b < |clock| ==> clock[b] - clock[a] <= CooldownSeconds) ==>
      forall i, j :: |before| <= i < j < |written| ==> written[i].studentId != written[j].studentId
  {
    if forall a, b :: 0 <= a < |clock| && 0 <= b < |clock| ==> clock[b] - clock[a] <= CooldownSeconds {
      forall i, j | |before| <= i < j < |written| ensures written[i].studentId != written[j].studentId {
        var a :| 0 <= a < |clock| && clock[a] == written[i].time;
        var b :| 0 <= b < |clock| && clock[b] == written[j].time;
      }
    }
  }
}
