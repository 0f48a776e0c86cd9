# Face-attendance core in Dafny

This project models the core of a face-recognition attendance system. The system has a React frontend and a FastAPI/SQLite backend. One Dafny module covers each core source file:

- **Polling screens.**
  - `LiveRecognition`: the 300 ms loop of the LiveRecognition screen, with its `isProcessing` guard.
  - `LiveMonitoring`: the snapshot+recognize loop of `SingleCameraView` and the 2-second `CameraPreview` refresh, with their object-URL bookkeeping.
- **CRUD screens.**
  - `AttendanceScreen`: the attendance filter, grouping by day, summary and manual marking.
  - `StudentsScreen`: the students search, the add/edit modal and its validation order.
  - `CamerasScreen`: the cameras page.
  - `CameraForm`: `AddCameraForm`.
  - `StudentForm`: `AddStudentForm`'s sequential uploads.
- **Backend.**
  - `AttendanceApi`: listing with SQLite paging, marking, deletion and CSV export.
  - `RecognitionEndpoint`: `recognize-frame`, with its 30-second student cache, its per-student 5-minute attendance window and the box colours.
  - `RecognitionService`: the nearest-embedding match and its threshold.
  - `Training`: storing and loading student embeddings.
  - `LiveStream`: the capture widget's frame buffer and the camera registry.
  - `Configuration`: the load-once YAML config with dotted lookups.
  - `Migration`: the schema migration, run inside an sqlite3 legacy transaction.
- **Shared.** `Common` holds `Option`/`Result` and the string rules the screens use: `filter`, `toLowerCase`, `includes`, `trim`, decimal spelling and a descending sort.

Code that updates state step by step is modelled as Dafny classes, with `modifies` clauses and loops carrying invariants. This covers React state and refs, the service objects, the database tables and the migration's cursor. Each method's `ensures` states the whole new state. Pure rules are functions, and lemmas state their properties.

Some things are parameters of the model rather than part of it:
- The network and the HTTP responses are the `outcome` arguments of the completion events.
- Some handlers are split into two events: the fetches, `AddStudentModal` and both `AddCameraForm` handlers. The first event runs up to the `await`, and the second runs when the call settles. The settle event uses the values the handler's closure captured, and other events may occur in between. `CameraForm.OverlappingRemoves` shows the update that two overlapping Remove clicks lose.
- The remaining handlers are one event each (see "## Left out").
- Time is an integer number of seconds.
- The cosine distance and the embedding extractor are functions passed in.
- The browser's local-date rendering and its clock string are functions passed in.
- The object URLs handed out by `URL.createObjectURL` are values passed in.

The polling screens do not keep requests from overlapping, do not bound the object URLs they hold, go on writing after a stop, and accept a second start without complaint. There is no registry of sessions per camera. The model proves what the code does:
- `SingleCameraView.Tick`: every tick starts another round trip, with no in-flight guard.
- `CameraPreview` (`PreviewNeverRevokes`): the preview never revokes the object URLs it creates.
- `FallbackLeaks`: every response without an annotated frame leaks one more object URL.
- `Recognizer.Complete`: a round trip that finishes after `Stop` still writes faces and frame.
- `Recognizer.Start`: a second start overwrites the interval ref and leaves the earlier interval running. This is a property of the handler. The screen cannot reach it, because the Start button is disabled while recognizing.

## Model

| member | source | states |
|---|---|---|
| AttendanceApi.OrElse | backend/app/api/v1/endpoints/attendance.py:37 | Python's `x or d` on a nullable string: the value when it is non-empty, the default when it is `None` or empty |
| AttendanceApi.NewestFirst | backend/app/api/v1/endpoints/attendance.py:25 | `ORDER BY timestamp DESC` is a permutation of the table (same multiset, same length) whose timestamps never increase |
| AttendanceApi.Page | backend/app/api/v1/endpoints/attendance.py:25 | `OFFSET skip LIMIT limit` as SQLite reads it: a negative offset counts as 0, a negative limit means no limit, past the end gives nothing, and entry `i` is row `start + i` |
| AttendanceApi.PageNewestFirst | backend/app/api/v1/endpoints/attendance.py:25 | any page of a newest-first list is still newest first |
| AttendanceApi.PageDefaults | backend/app/api/v1/endpoints/attendance.py:21-22 | with the default `skip=0, limit=100` the listing is the whole table up to 100 rows, else its first 100; an offset at the end gives nothing |
| AttendanceApi.StudentById | backend/app/api/v1/endpoints/attendance.py:29 | the student joined to a record has that id; `None` exactly when no student has it |
| AttendanceApi.StudentByRoll | backend/app/api/v1/endpoints/attendance.py:48 | the student found for a mark has that roll number; `None` exactly when no student has it |
| AttendanceApi.ListedEntryFields | backend/app/api/v1/endpoints/attendance.py:28-39 | a listing entry copies id, student id and time, says "present", shows the camera or "N/A", finds the student whenever one has that id, and shows "Unknown"/"N/A" otherwise |
| AttendanceApi.CsvRow | backend/app/api/v1/endpoints/attendance.py:106-117 | every exported row has one field per header column |
| AttendanceApi.CsvRowFields | backend/app/api/v1/endpoints/attendance.py:103-117 | each field under its header: the id; the student's name, roll number and e-mail, or "Unknown", "N/A", "N/A" when the student row is gone; the date and the time of the timestamp; the camera or "N/A", never empty; "Present" |
| AttendanceApi.ReplaceZ | backend/app/api/v1/endpoints/attendance.py:55 | `replace('Z', '+00:00')` leaves no 'Z', changes a string without one not at all, and never shortens |
| AttendanceApi.NextRowId | backend/app/api/v1/endpoints/attendance.py:62-69 | the id a new row gets is positive and above every existing id, so it is fresh |
| AttendanceApi.IndexOfId | backend/app/api/v1/endpoints/attendance.py:86 | the position found holds that id; `None` exactly when no row has it |
| AttendanceApi.AttendanceDb.GetRecords | backend/app/api/v1/endpoints/attendance.py:19-40 | the listing has one entry per row of the requested page of the newest-first table, entry `i` being row `i` joined with its student |
| AttendanceApi.AttendanceDb.MarkAttendance | backend/app/api/v1/endpoints/attendance.py:42-79 | unknown roll number gives 404 and an unparsable timestamp 400, writing nothing; a known roll number with no, an empty or a parsable timestamp always succeeds, and success appends exactly one row with a fresh id, the parsed time or `now`, and the camera or "Manual", and the response carries the student's name and the message |
| AttendanceApi.AttendanceDb.DeleteAttendance | backend/app/api/v1/endpoints/attendance.py:81-92 | success exactly when a row has the id; the only error is 404, with nothing changed; on success that row is cut out and the rest keep their order |
| AttendanceApi.AttendanceDb.ExportCsv | backend/app/api/v1/endpoints/attendance.py:94-117 | the export is the header followed by one row per record, newest first, with no paging |
| AttendanceApi.DeleteRemovesExactlyOne | backend/app/api/v1/endpoints/attendance.py:86-91 | with unique ids, deleting leaves no row with that id, removes exactly one row (multiset) and keeps the ids unique |
| AttendanceApi.ExportMatchesListing | backend/app/api/v1/endpoints/attendance.py:25 | with a limit that covers the table, the listing's page is the export's order, and each exported row is its listing entry written out field by field: id, name, roll number, e-mail ("" for NULL), date, time, camera and "Present" |
| AttendanceApi.AttendanceDb.constructor | backend/app/services/database.py:29-36 | the tables start as given, attendance ids unique |
| AttendanceScreen.FilterRecords | frontend/src/components/AttendanceManagement.jsx:101-111 | every shown record is a listed record whose name contains the search term ignoring case and, with a filter date, falls on that day; every listed record meeting both is shown |
| AttendanceScreen.FilterRecordsAppend | frontend/src/components/AttendanceManagement.jsx:101-111 | the filter distributes over concatenation, so it keeps the records' relative order |
| AttendanceScreen.NoFilterKeepsAll | frontend/src/components/AttendanceManagement.jsx:101-111 | an empty search term and no filter date show every record, unchanged and in order |
| AttendanceScreen.FindGroup | frontend/src/components/AttendanceManagement.jsx:116 | `acc[date]`: the group found has that date; none is found exactly when no group has it |
| AttendanceScreen.Dates | frontend/src/components/AttendanceManagement.jsx:114-121 | the day keys are distinct, no more than the records, include every record's day, and each is some record's day |
| AttendanceScreen.DatesFirstAppearance | frontend/src/components/AttendanceManagement.jsx:114-121 | the keys are in order of first appearance: the keys of any first part of the records are a prefix of all the keys |
| AttendanceScreen.OnDate | frontend/src/components/AttendanceManagement.jsx:114-121 | the records of one day all fall on that day |
| AttendanceScreen.OnAbsentDate | frontend/src/components/AttendanceManagement.jsx:114-121 | a day that no record falls on has no records |
| AttendanceScreen.GroupedByDay | frontend/src/components/AttendanceManagement.jsx:114-121 | the `reduce` yields one group per day key, in order of first appearance, each holding exactly that day's records in their original order |
| AttendanceScreen.GroupedCountsEveryRecord | frontend/src/components/AttendanceManagement.jsx:114-121 | the group sizes add up to the number of filtered records, so each record lands in exactly one group |
| AttendanceScreen.GroupByDate | frontend/src/components/AttendanceManagement.jsx:114-121 | the loop that pushes record by record yields one group per day in order of first appearance, each with exactly that day's records in order, sizes summing to the record count |
| AttendanceScreen.DisplayOrder | frontend/src/components/AttendanceManagement.jsx:226-227 | the groups as shown are a permutation of the groups, latest day first |
| AttendanceScreen.DisplayOrderStable | frontend/src/components/AttendanceManagement.jsx:226-227 | groups whose days compare equal keep their order of first appearance |
| AttendanceScreen.Summarise | frontend/src/components/AttendanceManagement.jsx:196-217 | "Total Records" is the listed count and "Total Students" the student count; "Filtered Results" is the number of shown records; "Days Recorded", the key count of `groupedRecords`, is the number of distinct local days among them; so it never exceeds "Filtered Results", and is 0 exactly when nothing is shown |
| AttendanceScreen.BuildTimestamp | frontend/src/components/AttendanceManagement.jsx:50-55 | no timestamp exactly when no date is chosen; date and time give `dateTtime:00`; a date alone gives the date, "T" and the first eight characters of the clock time |
| AttendanceScreen.TimeNeedsDate | frontend/src/components/AttendanceManagement.jsx:50-55 | without a date the chosen time plays no part: the result is no timestamp whatever the time |
| AttendanceScreen.DisplayName | frontend/src/components/AttendanceManagement.jsx:59-60 | the name of the first student with the selected roll number when that name is non-empty, otherwise the roll number, also when no student has it; never empty when a roll number is selected |
| AttendanceScreen.MarkForm.constructor | frontend/src/components/AttendanceManagement.jsx:10-15 | the picker, the modal flag and both messages start empty |
| AttendanceScreen.MarkForm.HandleMark | frontend/src/components/AttendanceManagement.jsx:39-71 | with no student selected, only the error "Please select a student" is set and no call is made; otherwise `markAttendance` is called once with the roll number, "present", "Manual" and the built timestamp; success shows "Attendance marked for" and the name, closes the modal and resets the picker; failure keeps the picker and shows the message or "Failed to mark attendance" |
| CameraForm.NewId | frontend/src/components/AddCameraForm.jsx:32 | the new entry's id is `camera_id` when that is truthy and `cameraId` otherwise |
| CameraForm.Without | frontend/src/components/AddCameraForm.jsx:48 | removal never lengthens the list |
| CameraForm.WithoutMembers | frontend/src/components/AddCameraForm.jsx:48 | an entry survives removal exactly when it was in the list and has another id |
| CameraForm.WithoutAppend | frontend/src/components/AddCameraForm.jsx:48 | removal distributes over concatenation, so survivors keep their order |
| CameraForm.WithoutAbsent | frontend/src/components/AddCameraForm.jsx:48 | a list with no entry of that id is left unchanged |
| CameraForm.WithoutIdempotent | frontend/src/components/AddCameraForm.jsx:48 | removing the same id twice removes nothing more |
| CameraForm.RemoveAfterAdd | frontend/src/components/AddCameraForm.jsx:33-48 | removing an id just added gives what removing it from the earlier list gives |
| CameraForm.ErrorText | frontend/src/components/AddCameraForm.jsx:38 | `err.message \|\| fallback` is never empty and is the thrown message whenever that is non-empty |
| CameraForm.AddCameraForm.constructor | frontend/src/components/AddCameraForm.jsx:5-8 | URL field, messages and list start empty, with no call awaited; storage is whatever the browser holds |
| CameraForm.AddCameraForm.Mount | frontend/src/components/AddCameraForm.jsx:12-17 | the list is read back from `cameraIds`, empty when nothing is stored, so list and storage agree |
| CameraForm.AddCameraForm.EditUrl | frontend/src/components/AddCameraForm.jsx:62-69 | the input sets the URL field and nothing else, also while calls are awaited |
| CameraForm.AddCameraForm.HandleAddCamera | frontend/src/components/AddCameraForm.jsx:19-30 | messages cleared first; an empty URL sets "Please provide a stream URL." and makes no call; otherwise one call with the URL, and the handler waits holding that URL and the list as it is now; list, storage and field are untouched |
| CameraForm.AddCameraForm.AddSettled | frontend/src/components/AddCameraForm.jsx:30-39 | the settled call leaves the awaited ones in order; success shows the message, appends `{id, url}` to the list the handler captured, with the captured URL, stores that list and clears the field; failure sets the error and changes nothing else; list and storage stay in agreement |
| CameraForm.AddCameraForm.HandleRemoveCamera | frontend/src/components/AddCameraForm.jsx:42-46 | messages cleared; one call, and the handler waits holding the id and the list as it is now |
| CameraForm.AddCameraForm.RemoveSettled | frontend/src/components/AddCameraForm.jsx:46-53 | the settled call leaves the awaited ones in order; success shows the message and stores the captured list without that id; failure sets the error and keeps list and storage; list and storage stay in agreement |
| CameraForm.OverlappingRemoves | frontend/src/components/AddCameraForm.jsx:42-54 | clicking Remove on A and then on B of [A, B] before either call settles leaves [A] shown and stored, although both streams were removed |
| CameraForm.AddAlone | frontend/src/components/AddCameraForm.jsx:19-40 | an add that settles with nothing else started appends the new entry to the list as it was |
| CamerasScreen.CamerasOfSpec | frontend/src/components/CamerasManagement.jsx:25-31 | the id→camera `map` succeeds exactly when no id is `null`/`undefined`; then it keeps length and order, each card keeps its id, is "active", and has name "Camera " and location "Location " followed by its `stream_url` |
| CamerasScreen.NumericIdReadsBack | frontend/src/components/CamerasManagement.jsx:29 | for a non-negative integer id the card's `stream_url` is its decimal spelling and reads back as the id |
| CamerasScreen.CamerasPage.constructor | frontend/src/components/CamerasManagement.jsx:5-17 | empty list, loading, modal closed, nothing selected, empty form, and the mount fetch started |
| CamerasScreen.CamerasPage.FetchDone | frontend/src/components/CamerasManagement.jsx:19-38 | loading ends false; the list becomes the mapped cards only when the call and every mapping succeed, and is otherwise unchanged |
| CamerasScreen.CamerasPage.HandleAddCamera | frontend/src/components/CamerasManagement.jsx:40-44 | selection cleared, all three fields empty, modal open |
| CamerasScreen.CamerasPage.HandleEditCamera | frontend/src/components/CamerasManagement.jsx:46-54 | the camera selected, its `stream_url`, name and location copied into the form, modal open |
| CamerasScreen.CamerasPage.HandleDeleteCamera | frontend/src/components/CamerasManagement.jsx:56-69 | no camera is ever removed: a confirmed click only alerts "Delete functionality will be implemented" and refetches, a cancelled one changes nothing |
| CamerasScreen.CamerasPage.StartFetch | frontend/src/components/CamerasManagement.jsx:19-21 | starting a fetch sets loading and changes nothing else |
| CamerasScreen.CamerasPage.HandleSubmit | frontend/src/components/CamerasManagement.jsx:71-95 | an empty or white-space-only URL alerts "Please enter a camera stream URL" and makes no call; otherwise `addCamera` gets the trimmed URL, which is non-empty with no white space at either end; success alerts, closes the modal, empties all three fields and refetches; failure alerts "Failed to add camera: " and the message, keeping form and modal |
| Common.Filter | frontend/src/components/AddCameraForm.jsx:48 | `Array.prototype.filter`: never longer, every kept element is an input element meeting the test, and every input element meeting it is kept |
| Common.FilterAppend | frontend/src/components/AddCameraForm.jsx:48 | filtering distributes over concatenation, so it keeps relative order |
| Common.FilterAll | frontend/src/components/StudentsManagement.jsx:67-69 | a test every element passes keeps the whole list |
| Common.FilterDistinct | frontend/src/components/AddCameraForm.jsx:48 | filtering a list without repeats gives a list without repeats |
| Common.LowerChar | frontend/src/components/StudentsManagement.jsx:68 | `toLowerCase` on one character: A–Z move to a–z, every other character is kept |
| Common.Lower | frontend/src/components/StudentsManagement.jsx:68 | `toLowerCase` keeps the length and lowers each character in place |
| Common.EmptyIsIncluded | frontend/src/components/StudentsManagement.jsx:68 | `includes('')` holds for every text, so an empty search term matches everything |
| Common.TrimStartSpec | frontend/src/components/CamerasManagement.jsx:74 | dropping leading white space keeps a suffix, drops only white space and stops at the first other character |
| Common.TrimEndSpec | frontend/src/components/CamerasManagement.jsx:74 | dropping trailing white space keeps a prefix, drops only white space and stops at the last other character |
| Common.TrimSpec | frontend/src/components/CamerasManagement.jsx:74 | `trim()` yields the slice after the leading white space, empty exactly when the text is all white space, and otherwise starting and ending with a character that is not white space |
| Common.NatToString | backend/migrate_database_schema.py:72 | the decimal spelling of a natural number is all digits, with no leading zero except for 0 itself |
| Common.NatToStringRoundTrip | backend/migrate_database_schema.py:72 | reading the decimal spelling back gives the number |
| Common.InsertBy | backend/app/api/v1/endpoints/attendance.py:25 | inserting into a sorted list adds exactly that element (multiset) and puts the larger of it and the old head first |
| Common.InsertByKeepsOrder | backend/app/api/v1/endpoints/attendance.py:25 | inserting into a list sorted by descending key keeps it sorted |
| Common.SortDescBy | backend/app/api/v1/endpoints/attendance.py:25 | sorting is a permutation: same multiset, same length |
| Common.SortDescByOrdered | backend/app/api/v1/endpoints/attendance.py:25 | the sorted list has keys that never increase |
| Common.InsertByStable | backend/app/api/v1/endpoints/attendance.py:25 | the inserted element goes before every element of equal key, and the elements of any one key keep their order |
| Common.SortDescByStable | backend/app/api/v1/endpoints/attendance.py:25 | the sort is stable: the elements of any one key come out in the order they went in |
| LiveRecognition.FrameUri | frontend/src/components/LiveRecognition.jsx:62 | the frame shown is `data:image/jpeg;base64,` followed by `annotated_frame`, or by "undefined" when the field is missing; there is no fallback |
| LiveRecognition.ErrorText | frontend/src/components/LiveRecognition.jsx:64 | the error shown is the thrown message, or "Error during recognition." when that is empty; never empty |
| LiveRecognition.Without | frontend/src/components/LiveRecognition.jsx:66-68 | once a round trip ends, the outstanding ones are exactly the others |
| LiveRecognition.WithoutOne | frontend/src/components/LiveRecognition.jsx:66-68 | with at most one round trip per interval, ending one shortens the outstanding list by exactly one and keeps it free of repeats |
| LiveRecognition.WithoutAbsent | frontend/src/components/LiveRecognition.jsx:66-68 | an interval with no outstanding round trip leaves the list as it is |
| LiveRecognition.Recognizer.constructor | frontend/src/components/LiveRecognition.jsx:5-13 | no camera, not recognizing, no faces, frame, error or interval, and nothing outstanding |
| LiveRecognition.Recognizer.SelectCamera | frontend/src/components/LiveRecognition.jsx:91 | the picker sets the camera id and nothing else |
| LiveRecognition.Recognizer.Start | frontend/src/components/LiveRecognition.jsx:41-72 | with no camera only the error "Please select a camera." is set and no interval is created; otherwise recognizing is set, error, faces and frame are cleared, and one fresh interval is scheduled and stored in the ref; from a stopped state no stray interval exists afterwards |
| LiveRecognition.Recognizer.Tick | frontend/src/components/LiveRecognition.jsx:54-59 | a tick begins a round trip exactly when its interval's flag is clear, and then sets the flag; a tick that finds the flag set changes nothing, so it is dropped, never queued, and at most one round trip per interval is outstanding |
| LiveRecognition.Recognizer.Complete | frontend/src/components/LiveRecognition.jsx:59-68 | the flag is cleared and the round trip removed whatever the outcome; success writes faces and frame even after a stop; failure sets the message (or the default) and stops the interval |
| LiveRecognition.Recognizer.Stop | frontend/src/components/LiveRecognition.jsx:74-80 | recognizing ends and the interval in the ref is cleared and nulled if there is one; called when already stopped it changes nothing, so calling it twice is harmless |
| LiveRecognition.Recognizer.Unmount | frontend/src/components/LiveRecognition.jsx:34-38 | the cleanup clears the interval in the ref but leaves the ref and the flags; afterwards no interval is running |
| Configuration.Split | backend/app/config.py:36 | `split('.')` always yields at least one part |
| Configuration.SplitParts | backend/app/config.py:36 | no part of a split key path holds a dot |
| Configuration.SplitAppend | backend/app/config.py:36 | splitting `a.b` gives the parts of `a` followed by the parts of `b` |
| Configuration.SplitPlain | backend/app/config.py:36 | a key without dots splits to itself alone |
| Configuration.JoinSplit | backend/app/config.py:36 | joining the parts with dots gives back the key path |
| Configuration.SplitJoin | backend/app/config.py:36 | splitting a dotted join of dot-free keys gives back the keys |
| Configuration.WalkAppend | backend/app/config.py:39-43 | walking a concatenated key list is walking the first list, then the second from where it ended, with a miss anywhere a miss overall |
| Configuration.LookupDotted | backend/app/config.py:36-45 | `get("a.b")` is the lookup of "b" in the value found at "a", and the default when nothing is found at "a" |
| Configuration.FoundValueWins | backend/app/config.py:45 | when every key is found the value itself is returned, even `None` or a falsy value, whatever the default |
| Configuration.LookupTopLevel | backend/app/config.py:39-45 | a key without dots reads the top-level mapping: its entry when present, the default otherwise |
| Configuration.UnloadedGivesDefault | backend/app/config.py:11 | before any load every path gives the default |
| Configuration.Config.constructor | backend/app/config.py:11 | a new object has no document loaded |
| Configuration.Config.Get | backend/app/config.py:31-45 | the loop that walks the split key path returns the value at that path, or the default as soon as a key is missing or the value reached is not a mapping |
| Configuration.Config.GetSection | backend/app/config.py:47-49 | the top-level entry when present, an empty mapping when absent, and an `AttributeError` exactly when no mapping is loaded |
| Configuration.ConfigClass.constructor | backend/app/config.py:10 | `_instance` starts empty |
| Configuration.ConfigClass.New | backend/app/config.py:13-24 | the first call creates and stores a fresh instance and then loads the file, raising `FileNotFoundError` when it is missing; every later call returns the same stored instance and loads nothing |
| LiveMonitoring.BlobUrl | frontend/src/components/LiveMonitoring.jsx:170 | every object URL handed out starts with "blob:" |
| LiveMonitoring.DataUriIsNotBlob | frontend/src/components/LiveMonitoring.jsx:163-166 | a `data:` URI never starts with "blob:", so it is never revoked |
| LiveMonitoring.ChooseFrame | frontend/src/components/LiveMonitoring.jsx:162-172 | the frame shown is an object URL exactly when `annotated_frame` is missing or empty; when it is present the frame is its `data:image/jpeg;base64,` URI |
| LiveMonitoring.SingleCameraView.constructor | frontend/src/components/LiveMonitoring.jsx:145-148 | mounted, not running, no snapshot, no faces, no interval, nothing outstanding, no URL created or revoked |
| LiveMonitoring.SingleCameraView.Cleanup | frontend/src/components/LiveMonitoring.jsx:183-188 | the effect's interval is cleared and the snapshot it captured is revoked only when it is a "blob:" URL; nothing else changes |
| LiveMonitoring.SingleCameraView.Install | frontend/src/components/LiveMonitoring.jsx:150-153 | the effect captures the current snapshot; while running it starts exactly one fresh interval that closes over that snapshot, and otherwise none |
| LiveMonitoring.SingleCameraView.SetRunning | frontend/src/components/LiveMonitoring.jsx:150-189 | a change of `isRunning` runs the cleanup (clear, revoke a captured "blob:" snapshot) and installs the effect again, with an interval exactly when running; no change, no effect |
| LiveMonitoring.SingleCameraView.SetCamera | frontend/src/components/LiveMonitoring.jsx:150-189 | a change of `camera.id` runs the cleanup and installs the effect again; the same id changes nothing |
| LiveMonitoring.SingleCameraView.Tick | frontend/src/components/LiveMonitoring.jsx:153-156 | with no in-flight guard every tick begins one more round trip, however many are outstanding |
| LiveMonitoring.SingleCameraView.Complete | frontend/src/components/LiveMonitoring.jsx:154-180 | the round trip leaves the outstanding list; an error changes nothing visible and the interval keeps running; an annotated frame is shown and the snapshot its callback captured is revoked if it is a "blob:" URL; otherwise a new object URL is shown and nothing is revoked; faces change only when the field is present |
| LiveMonitoring.SingleCameraView.Dequeue | frontend/src/components/LiveMonitoring.jsx:153-156 | the finished round trip, and only it, leaves the outstanding list, and its interval is known |
| LiveMonitoring.SingleCameraView.Answer | frontend/src/components/LiveMonitoring.jsx:162-176 | a response shows the chosen frame, revokes the captured "blob:" snapshot only for an annotated frame, creates one URL only for the fallback, and replaces faces only when present |
| LiveMonitoring.SingleCameraView.ShowAnnotated | frontend/src/components/LiveMonitoring.jsx:162-167 | the annotated frame goes on screen and only a captured "blob:" snapshot is revoked |
| LiveMonitoring.SingleCameraView.ShowRaw | frontend/src/components/LiveMonitoring.jsx:168-172 | the fallback creates one new object URL and shows it, revoking nothing |
| LiveMonitoring.SingleCameraView.Unmount | frontend/src/components/LiveMonitoring.jsx:183-188 | leaving the view clears the interval and revokes a captured "blob:" snapshot |
| LiveMonitoring.FallbackLeaks | frontend/src/components/LiveMonitoring.jsx:153-172 | a running view whose next n ticks are each answered without an annotated frame creates n object URLs and revokes none |
| LiveMonitoring.CameraPreview.constructor | frontend/src/components/LiveMonitoring.jsx:106-122 | mounting starts one refresh at once and the 2000 ms interval |
| LiveMonitoring.CameraPreview.Tick | frontend/src/components/LiveMonitoring.jsx:122 | each firing begins one more refresh |
| LiveMonitoring.CameraPreview.Complete | frontend/src/components/LiveMonitoring.jsx:110-119 | a fetched snapshot becomes a new object URL on screen and the previous one is not revoked; a failure changes nothing |
| LiveMonitoring.CameraPreview.SetCamera | frontend/src/components/LiveMonitoring.jsx:124-128 | a new camera id revokes the snapshot captured by the previous effect, if any, and starts a refresh |
| LiveMonitoring.CameraPreview.Unmount | frontend/src/components/LiveMonitoring.jsx:124-127 | unmounting stops the interval and revokes only the captured snapshot |
| LiveMonitoring.PreviewNeverRevokes | frontend/src/components/LiveMonitoring.jsx:110-122 | a preview mounted and ticked n times creates n + 1 object URLs and revokes none |
| LiveStream.ParseSource | backend/app/services/live_stream_service.py:64-65 | a digits-only URL opens the device with that index and any other URL is passed on unchanged; it is a device exactly when the URL is all digits |
| LiveStream.DeviceIndexRoundTrip | backend/app/services/live_stream_service.py:64-65 | the decimal spelling of a device index opens that device |
| LiveStream.Pushed | backend/app/services/live_stream_service.py:35-37 | appending to the bounded deque grows it by one below the bound and keeps it at the bound when full, by dropping the oldest; the new frame is last and the newest frames are the ones kept |
| LiveStream.VideoStreamWidget.constructor | backend/app/services/live_stream_service.py:8-17 | the first read gives `grabbed` and the frame kept for an empty deque; not started; empty deque of size `queue_size` |
| LiveStream.VideoStreamWidget.Start | backend/app/services/live_stream_service.py:19-26 | a first call starts the reader and returns the widget; a second returns None and changes nothing |
| LiveStream.VideoStreamWidget.UpdateStep | backend/app/services/live_stream_service.py:28-38 | one pass records the grab flag; a grabbed frame is appended, dropping the oldest when full; a failed grab enqueues nothing; the deque never exceeds its bound; a zero-size deque makes `popleft` raise |
| LiveStream.VideoStreamWidget.Read | backend/app/services/live_stream_service.py:40-44 | returns the current grab flag with the newest queued frame, which is removed (last in, first out), or with the frame from construction when the deque is empty |
| LiveStream.VideoStreamWidget.Stop | backend/app/services/live_stream_service.py:46-48 | the widget is no longer started and its reader stops; the deque is kept |
| LiveStream.LiveStreamService.constructor | backend/app/services/live_stream_service.py:55-57 | no cameras and the counter at 1 |
| LiveStream.LiveStreamService.AddCamera | backend/app/services/live_stream_service.py:59-73 | the counter always advances by one, even when opening fails and None is returned; on success the old counter value, never used before, is registered for a fresh started widget opened on the parsed source with an empty 128-frame deque |
| LiveStream.LiveStreamService.RemoveCamera | backend/app/services/live_stream_service.py:75-80 | returns true exactly when the id was registered; exactly that id is stopped and removed and every other camera is kept; an unknown id changes nothing |
| LiveStream.LiveStreamService.Unregister | backend/app/services/live_stream_service.py:77-78 | the registered camera is stopped and deleted, everything else is kept |
| LiveStream.LiveStreamService.GetFrame | backend/app/services/live_stream_service.py:82-87 | an unknown id gives None; otherwise the widget's deque is popped even when its grab flag is false, and a frame is returned exactly when that flag is true |
| LiveStream.LiveStreamService.Pump | backend/app/services/live_stream_service.py:28-38 | one pass of a registered camera's reader thread, as in `update` |
| LiveStream.LiveStreamService.GetAllCameras | backend/app/services/live_stream_service.py:89-91 | every registered id exactly once, in ascending order, which is insertion order |
| LiveStream.DropAbsent | backend/app/services/live_stream_service.py:78 | deleting an id that is not registered leaves the key order unchanged |
| LiveStream.Drop | backend/app/services/live_stream_service.py:78 | deleting a key never lengthens the key order |
| LiveStream.DropMembers | backend/app/services/live_stream_service.py:78 | deleting a key keeps exactly the other keys |
| LiveStream.DropKeepsRegistry | backend/app/services/live_stream_service.py:75-80 | deleting a registered camera keeps ids below the counter, the key order ascending and equal to the keys, and widgets distinct |
| LiveStream.AddKeepsRegistry | backend/app/services/live_stream_service.py:59-73 | the counter's value is never registered, and registering a new widget under it keeps the bookkeeping |
| LiveStream.DropKeepsOrder | backend/app/services/live_stream_service.py:78 | deleting a key keeps the key order strictly increasing |
| LiveStream.SortedKeysCount | backend/app/services/live_stream_service.py:91 | a strictly increasing list of exactly the keys has one entry per key |
| Migration.ClearRolls | backend/migrate_database_schema.py:38 | a new `roll_number` column keeps the row count |
| Migration.ClearRollsKeepsIds | backend/migrate_database_schema.py:38 | a new `roll_number` column is `NULL` in every row and changes nothing else |
| Migration.SetRollWhere | backend/migrate_database_schema.py:73 | an `UPDATE ... WHERE id = ?` keeps the row count |
| Migration.SetRollElsewhere | backend/migrate_database_schema.py:73 | an `UPDATE` for an id no row has changes nothing |
| Migration.ApplyAllAppend | backend/migrate_database_schema.py:34-76 | running two statement lists one after the other is running their concatenation |
| Migration.Zeros | backend/migrate_database_schema.py:72 | the zero padding has the requested length and only zeros |
| Migration.LeadingZeros | backend/migrate_database_schema.py:72 | leading zeros keep the text all digits and do not change its value |
| Migration.DefaultRollReadsBack | backend/migrate_database_schema.py:72 | `STU{id:04d}` is "STU" and the id's digits padded with zeros to four, never cut, and the id reads back from it |
| Migration.DefaultRollsDistinct | backend/migrate_database_schema.py:72 | different ids get different default roll numbers |
| Migration.Updates | backend/migrate_database_schema.py:71-73 | one `UPDATE` per selected row |
| Migration.UpdatesAt | backend/migrate_database_schema.py:71-73 | the i-th `UPDATE` is for the i-th selected row, so rows are updated in `SELECT` order |
| Migration.UpdatesEffect | backend/migrate_database_schema.py:71-73 | the `UPDATE`s change only the student rows, one row id after another |
| Migration.RunRollsSkipsHead | backend/migrate_database_schema.py:73 | updates for other ids pass over a row |
| Migration.MissingRollsFrom | backend/migrate_database_schema.py:66-67 | the `SELECT` returns only rows of the table whose roll number is `NULL` |
| Migration.BackfillFills | backend/migrate_database_schema.py:66-74 | with unique ids, the back-fill gives each row without a roll number its default one and leaves the others as they were |
| Migration.FilledRolls | backend/migrate_database_schema.py:66-74 | back-filling keeps the row count |
| Migration.FilledRollsAt | backend/migrate_database_schema.py:66-74 | row i after the back-fill is row i with the default roll number when it had none, and unchanged otherwise |
| Migration.Migrate | backend/migrate_database_schema.py:14-83 | with no file, only the fresh tables are created and no statement runs; a run where nothing raises executes the whole script and commits the migrated tables; when a statement raises, everything before it has executed, only the `ALTER`s before it remain, a `PRAGMA` failure escapes and any later one is rolled back |
| Migration.RunTry | backend/migrate_database_schema.py:34-83 | the `try` block either commits after the whole script or rolls back at the failing statement, keeping exactly the `ALTER`s that ran before it |
| Migration.TailCase | backend/migrate_database_schema.py:65-83 | the `ALTER`s followed by the back-fill and commit, failing or not, give the whole-script outcome that `RunTry` promises |
| Migration.ReadFailure | backend/migrate_database_schema.py:28-32 | a failing `PRAGMA` read leaves the database as it was |
| Migration.AlterFailure | backend/migrate_database_schema.py:36-63 | when the j-th `ALTER` raises, the reads and the first j `ALTER`s have run and only those j remain |
| Migration.TailOutcome | backend/migrate_database_schema.py:65-76 | a failure after the `ALTER`s keeps exactly their effect, and a run through to the commit yields the migrated tables |
| Migration.UpdateLoop | backend/migrate_database_schema.py:71-73 | the loop issues the back-fill's `UPDATE`s in order and stops at the first that raises, which it reports |
| Migration.ScriptEffect | backend/migrate_database_schema.py:34-76 | a whole run is the `ALTER`s followed by the back-fill on the tables they left |
| Migration.AlterPhase | backend/migrate_database_schema.py:36-63 | the four blocks issue a prefix of the `ALTER`s in order, stop at the first that raises, and leave the tables with exactly the issued ones applied |
| Migration.Block | backend/migrate_database_schema.py:36-41 | one `if ... not in ...` block issues its `ALTER` when the column is missing and reports a failure at that position |
| Migration.Finish | backend/migrate_database_schema.py:65-76 | the `SELECT`, the `UPDATE`s and the commit run in order; a failure anywhere among them leaves the tables as they were after the `ALTER`s |
| Migration.AltersOnlyMissing | backend/migrate_database_schema.py:36-63 | an `ALTER` adds a column exactly when it is one of the new columns and the table lacks it; the script alters nothing else |
| Migration.AlteredTables | backend/migrate_database_schema.py:36-63 | after the `ALTER`s no column is lost, all four new columns exist, every added column is new and was absent, and the rows are unchanged except a new `roll_number` is `NULL` |
| Migration.WidenedSpec | backend/migrate_database_schema.py:36-55 | the widened student columns keep the old ones first, include all three new ones, and add only new ones that were absent |
| Migration.AlteredShape | backend/migrate_database_schema.py:36-63 | the `ALTER`s give exactly the widened student columns, `camera_id` appended when missing, and rows cleared only when `roll_number` was added |
| Migration.AddIfMissingEffect | backend/migrate_database_schema.py:36-41 | one block changes nothing when the column exists, and otherwise appends it (clearing rows only for `roll_number`) |
| Migration.MigratedState | backend/migrate_database_schema.py:36-76 | a committed run keeps every column and row, adds all four columns, keeps ids and names, and leaves each student its own roll number if it had one, else `STU` and its padded id |
| Migration.NoneMissing | backend/migrate_database_schema.py:66-69 | with every roll number set, the `SELECT` finds no row |
| Migration.SecondRunScript | backend/migrate_database_schema.py:36-74 | running again after a commit issues no `ALTER` and no `UPDATE`: only the reads, the `SELECT` and the commit |
| Migration.SecondRunIsNoOp | backend/migrate_database_schema.py:36-74 | the migration is idempotent: a second run leaves a migrated database as it is |
| Migration.FreshNeedsAllAlters | backend/migrate_database_schema.py:15-21 | tables made by `create_db_and_tables` lack all four columns, so a later run issues all four `ALTER`s |
| Migration.TailEffect | backend/migrate_database_schema.py:65-76 | the back-fill and commit change only the student rows |
| RecognitionEndpoint.TimedeltaSeconds | backend/app/api/v1/endpoints/recognition.py:30 | `timedelta.seconds` lies in 0 .. 86399, differs from the true difference by whole days, and equals it within a day |
| RecognitionEndpoint.RefreshWithinADay | backend/app/api/v1/endpoints/recognition.py:28-30 | within a day of the last load the cache is reloaded exactly when it is more than 30 seconds old |
| RecognitionEndpoint.DayOldCacheIsKept | backend/app/api/v1/endpoints/recognition.py:30 | because whole days are ignored, a cache loaded a day and ten seconds ago is kept, while one loaded 31 seconds ago is reloaded |
| RecognitionEndpoint.BoxColour | backend/app/api/v1/endpoints/recognition.py:93 | red (0,0,255) exactly for "Unknown", green (0,255,0) exactly for any other name |
| RecognitionEndpoint.Candidates | backend/app/api/v1/endpoints/recognition.py:66 | the cached students are passed to `find_match` one for one, in order, with their names and embeddings |
| RecognitionEndpoint.LookupId | backend/app/api/v1/endpoints/recognition.py:77 | `next(...)` gives the id of the first student with that name, and None exactly when no student has it |
| RecognitionEndpoint.MatchedNameHasId | backend/app/api/v1/endpoints/recognition.py:66-77 | a name other than "Unknown" returned by `find_match` always finds an id, since it came from the same list |
| RecognitionEndpoint.LastTime | backend/app/api/v1/endpoints/recognition.py:80 | a student has a latest record exactly when some record is theirs |
| RecognitionEndpoint.LastIsGreatest | backend/app/api/v1/endpoints/recognition.py:79-87 | when records are spaced, a student's latest record is also their greatest time |
| RecognitionEndpoint.RecordKeepsInvariant | backend/app/api/v1/endpoints/recognition.py:83-87 | writing a row that the cooldown admits and setting the entry to now keeps each entry equal to the reading under which its student's latest row was written, and keeps any two rows of a student more than five minutes apart in those readings |
| RecognitionEndpoint.Names | backend/app/api/v1/endpoints/recognition.py:90-92 | the names of the entries, one per entry, in order |
| RecognitionEndpoint.AppendEarned | backend/app/api/v1/endpoints/recognition.py:75-87 | a row earned by a face can be added to rows that were all earned, and all rows are still earned |
| RecognitionEndpoint.Recognizer.constructor | backend/app/api/v1/endpoints/recognition.py:22-23 | empty cache with no load time, empty cooldown map, no rows written |
| RecognitionEndpoint.Recognizer.GetCachedStudents | backend/app/api/v1/endpoints/recognition.py:25-33 | when the cache is empty, never stamped or more than 30 seconds old by `timedelta.seconds`, it is reloaded from the table and stamped now; otherwise the cached list is returned unchanged |
| RecognitionEndpoint.Recognizer.RecognizeFrame | backend/app/api/v1/endpoints/recognition.py:35-101 | an undecodable upload gives 400 and changes nothing; otherwise earlier rows are kept; every new row was earned by a face of this frame; a frame read within five minutes records each student at most once; every student a face leads to ends with a cooldown entry; the new cooldown map and rows are exactly `AttendFace`'s rule applied to the faces one by one (`AttendAll`); the response is sent exactly when every face's similarity is finite, and then it has one entry per detected face in detection order, with its matched name and similarity, and one box per entry coloured by its name; otherwise it is 500, with the rows already committed |
| RecognitionEndpoint.NoStudentsNoAnswer | backend/app/services/recognition_service.py:83-100 | with no student loaded, a face with an embedding is "Unknown" with similarity minus infinity, which the response cannot carry |
| RecognitionEndpoint.AttendFace | backend/app/api/v1/endpoints/recognition.py:75-87 | a record is written exactly when the name is not "Unknown", maps to a truthy id, and that student has no cooldown entry or one more than five minutes old; the entry is then set to now; otherwise nothing changes; the cooldown invariant is kept; the outcome is the one step `Attend` of the fold |
| RecognitionEndpoint.ResultsStep | backend/app/api/v1/endpoints/recognition.py:60-73 | adding the next face's entry extends the entries made so far |
| RecognitionEndpoint.LogStep | backend/app/api/v1/endpoints/recognition.py:79-87 | adding a row that the current face earned keeps the written rows extending the old ones, earned and spaced |
| RecognitionEndpoint.FaceStep | backend/app/api/v1/endpoints/recognition.py:60-87 | one loop iteration matches the next face, appends its entry and applies the cooldown check and write, taking the fold `AttendAll` from k faces to k + 1 |
| RecognitionEndpoint.ProcessFaces | backend/app/api/v1/endpoints/recognition.py:60-87 | the per-face loop gives one entry per face in order, keeps earlier rows and the cooldown invariant, writes only earned rows, at most one per student in a frame read within five minutes, and leaves every student a face leads to with a cooldown entry; the cooldown map and rows it ends with are `AttendAll` over all the faces |
| RecognitionEndpoint.AttendAllKeepsRows | backend/app/api/v1/endpoints/recognition.py:60-87 | later faces only add rows: the rows after i faces are a prefix of the rows after k >= i faces |
| RecognitionEndpoint.UntouchedEntry | backend/app/api/v1/endpoints/recognition.py:79-87 | a student no face so far leads to keeps the cooldown entry, or the lack of one, the frame started with |
| RecognitionEndpoint.FirstSightingIsRecorded | backend/app/api/v1/endpoints/recognition.py:79-87 | the first face of a frame that leads to a student writes a row for that student under its clock reading whenever the starting cooldown admits it (no entry, or one more than five minutes older) |
| RecognitionEndpoint.DescribeFace | backend/app/api/v1/endpoints/recognition.py:61-73 | a face's entry carries its box and score with the name and similarity `find_match` gives it |
| RecognitionEndpoint.FaceNames | backend/app/api/v1/endpoints/recognition.py:66 | the matched name of each face, in order |
| RecognitionEndpoint.Colours | backend/app/api/v1/endpoints/recognition.py:90-95 | one colour per entry, in order, each the colour for its name |
| RecognitionEndpoint.OneRecordPerWindow | backend/app/api/v1/endpoints/recognition.py:79-87 | rows written under clock readings all within five minutes of each other never include two for the same student |
| RecognitionService.EffectiveThreshold | backend/app/services/recognition_service.py:79-81 | a given threshold is used as it is; a missing one is replaced by the configured `similarity_threshold` |
| RecognitionService.Nearest | backend/app/services/recognition_service.py:83-95 | there is no nearest student exactly when none has an embedding; otherwise it is the one with an embedding that is strictly nearer than every earlier student and no farther than every later one |
| RecognitionService.FirstNearestUnique | backend/app/services/recognition_service.py:91-95 | at most one student is the first nearest, so with strict `<` the first student at the minimum distance wins ties |
| RecognitionService.MatchSpec | backend/app/services/recognition_service.py:75-100 | no embedding gives ("Unknown", 0.0); no student with an embedding gives "Unknown" with similarity 1 - inf; otherwise the first nearest student's name when its distance is strictly under the threshold, else "Unknown", and similarity 1 - that distance in both branches |
| RecognitionService.FindMatch | backend/app/services/recognition_service.py:75-100 | the loop that skips students without an embedding and keeps a strictly smaller distance returns exactly the match described by `MatchSpec`, at the threshold or the configured default |
| RecognitionService.NearestStep | backend/app/services/recognition_service.py:86-95 | one more student replaces the nearest so far only when it has an embedding and is strictly nearer |
| RecognitionService.CompareEmbeddings | backend/app/services/recognition_service.py:65-73 | never true when either embedding is missing |
| RecognitionService.MatchAgreesWithCompare | backend/app/services/recognition_service.py:65-100 | some student passes `compare_embeddings` at the same threshold exactly when the nearest one does; `find_match` names that student when it passes and says "Unknown" otherwise |
| RecognitionService.MatchedNameIsRegistered | backend/app/services/recognition_service.py:97-98 | a name other than "Unknown" always belongs to a student with an embedding |
| Training.FindByName | backend/app/services/training_service.py:17 | `.filter(name == n).first()` finds the first row with that name, and nothing exactly when no row has it |
| Training.MaxId | backend/app/services/training_service.py:34-38 | the largest id is at least every row's id and is the id of some row (0 for an empty table) |
| Training.NextId | backend/app/services/training_service.py:34-38 | the id an insert gets is positive and above every existing id |
| Training.StudentTable.constructor | backend/app/services/database.py:14-19 | the table starts with the given rows, ids and names unique |
| Training.StudentTable.GenerateAndStore | backend/app/services/training_service.py:11-40 | no extracted embedding: None and no change; a known name's row alone changes, to `combine(old, new)` when it had an embedding and to the new one otherwise; an unknown name appends exactly one row with a fresh id and the new embedding; ids and names stay unique and afterwards the name has exactly one row, holding an embedding |
| Training.LoadAll | backend/app/services/training_service.py:42-48 | never more entries than rows |
| Training.LoadAllContents | backend/app/services/training_service.py:42-48 | the loaded entries are exactly the rows with an embedding, each as {id, name, embedding} |
| Training.LoadAllAppend | backend/app/services/training_service.py:42-48 | loading distributes over the table's parts, so query order is kept |
| Training.ListAll | backend/app/services/training_service.py:50-56 | one listing entry per row |
| Training.ListAllRows | backend/app/services/training_service.py:50-56 | entry j is row j's id and name, in query order |
| Training.LoadAllComplete | backend/app/services/training_service.py:42-56 | the loaded list is as long as the full listing exactly when every student has an embedding |
| StudentForm.UploadsOf | frontend/src/components/AddStudentForm.jsx:36-38 | one `addStudent(name, image)` call per image, in selection order |
| StudentForm.FirstFailureIsFirst | frontend/src/components/AddStudentForm.jsx:36-38 | the failure found is the earliest failing call, with every earlier call successful, and none is found exactly when every call succeeds |
| StudentForm.AddStudentForm.constructor | frontend/src/components/AddStudentForm.jsx:5-13 | all fields empty and the mount fetch started |
| StudentForm.AddStudentForm.FetchDone | frontend/src/components/AddStudentForm.jsx:15-23 | success replaces the student list; failure keeps it and sets "Failed to load students." |
| StudentForm.AddStudentForm.HandleImageChange | frontend/src/components/AddStudentForm.jsx:52-56 | a non-empty file list replaces the selection; a missing or empty one leaves the previous selection untouched |
| StudentForm.AddStudentForm.HandleSubmit | frontend/src/components/AddStudentForm.jsx:25-50 | message and error cleared first; an empty name or no images sets the error and uploads nothing; otherwise the images are uploaded in order, the first failing call aborts the rest and sets its message or "Failed to add student."; when all succeed the message names the student, name and images are cleared and the list is refetched |
| StudentForm.UploadAll | frontend/src/components/AddStudentForm.jsx:36-38 | the loop makes the calls up to and including the first failing one, and all of them when none fails |
| StudentForm.UploadsOfAppend | frontend/src/components/AddStudentForm.jsx:36-38 | uploading one more image appends exactly one more call |
| StudentForm.ErrorText | frontend/src/components/AddStudentForm.jsx:47 | the error is the thrown message, or "Failed to add student." when that is empty; never empty |
| StudentForm.FirstFailureAt | frontend/src/components/AddStudentForm.jsx:36-38 | a failing call with only successes before it is the first failure |
| StudentsScreen.FilterStudents | frontend/src/components/StudentsManagement.jsx:67-69 | the search never lengthens the list |
| StudentsScreen.FilterStudentsMembers | frontend/src/components/StudentsManagement.jsx:67-69 | the search shows exactly the students whose lower-cased name contains the lower-cased term |
| StudentsScreen.FilterStudentsAppend | frontend/src/components/StudentsManagement.jsx:67-69 | the search distributes over concatenation, so it keeps list order |
| StudentsScreen.EmptySearchKeepsAll | frontend/src/components/StudentsManagement.jsx:67-69 | an empty search term shows every student, in order |
| StudentsScreen.StudentsPage.constructor | frontend/src/components/StudentsManagement.jsx:6-18 | empty list, loading, modal closed, nothing selected, empty form |
| StudentsScreen.StudentsPage.HandleAddStudent | frontend/src/components/StudentsManagement.jsx:32-36 | selection cleared, form emptied, modal open |
| StudentsScreen.StudentsPage.HandleEditStudent | frontend/src/components/StudentsManagement.jsx:38-42 | the student selected, only the name copied, no images, modal open |
| StudentsScreen.StudentsPage.CloseModal | frontend/src/components/StudentsManagement.jsx:141-144 | the modal is hidden and a fetch started |
| StudentsScreen.StudentsPage.FetchDone | frontend/src/components/StudentsManagement.jsx:20-30 | success replaces the list, failure keeps it; loading ends false either way |
| StudentsScreen.ValidationOrder | frontend/src/components/StudentsManagement.jsx:169-182 | the checks run in order: a blank (white-space-only) name wins over a blank roll number, which wins over an empty selection; no message exactly when all three pass |
| StudentsScreen.AddStudentModal.constructor | frontend/src/components/StudentsManagement.jsx:153-158 | name, roll number and e-mail come from the edited student, else empty; images always start empty; not loading, no error, no call captured |
| StudentsScreen.AddStudentModal.HandleImageSelect | frontend/src/components/StudentsManagement.jsx:160-164 | any file list, even an empty one, replaces the selection; only a missing list is ignored; the file input stays enabled while a call is awaited, and the captured call keeps its files |
| StudentsScreen.AddStudentModal.Submit | frontend/src/components/StudentsManagement.jsx:166-191 | a failed check sets its message and makes no call; only when all pass is loading set, the error cleared and `addStudent` called once with the untrimmed name, roll number, e-mail and images, which the handler's closure keeps |
| StudentsScreen.AddStudentModal.Settle | frontend/src/components/StudentsManagement.jsx:191-200 | success alerts "Successfully added student" with the name and photo count of the call that was made, not of the current selection, and closes; failure shows the message or "Failed to add student"; loading returns to false either way |
| StudentsScreen.ReselectWhileAwaiting | frontend/src/components/StudentsManagement.jsx:160-193 | submitting two photos and then choosing one other file before the call settles still alerts "with 2 photo(s)" |

## Left out

- HTTP transport, JSON (de)serialisation and `frontend/src/api.js`. Each call is an outcome passed to a completion event. That includes the mismatches between `api.js` and the screens:
  - `addStudent`'s arity;
  - `recognizeFrame` ignoring the camera id;
  - six functions the screens import that `api.js` does not export: `markAttendance`, `deleteAttendance`, `exportAttendanceCSV`, `deleteStudent`, `listCameras` and `addCamera`. Calling one throws, so with this `api.js` the success branches of `MarkForm.HandleMark` and `CamerasPage.HandleSubmit` cannot happen. The model takes the outcome as given.
- `RecognitionEndpoint.Record`: a row is identified by its student and the local `datetime.now()` reading the cooldown admitted it under. The stored row's `timestamp` column is a separate reading: the ORM default `datetime.utcnow` at flush. On a host not on UTC it therefore differs from the cooldown reading by the UTC offset, while manual marks store local time. The model does not capture these two time bases in the listing.
- `AttendanceScreen.MarkForm.HandleMark` leaves out the `setTimeout` that clears the success message after 3 seconds.
- `LiveRecognition`'s mount-time `fetchStudents`, whose result the screen never uses, and its error "Failed to load students for recognition." are not modelled.
- The `cameras.py` and `students.py` endpoints, `auth.py`, `main.py`, `api.py`, `face_detection.py` and `test_realtime.py`: outside the core.
- Threads, `read_lock`, `time.sleep` and the capture thread's scheduling: `VideoStreamWidget.UpdateStep` is one step of the update loop, and interleavings are not modelled.
- OpenCV capture, image decoding, resizing and JPEG/base64 encoding: frames are opaque values.
- The ML model, float32 arithmetic and embedding averaging: distances are a function on opaque embeddings and reals.
- NaN distances are not modelled.
- The `max_num=10` face limit of the detector is not modelled: the detected faces are an input list.
- The SQLAlchemy model in `database.py` is used only for the row shapes and the unique student name. It has no `camera_id`/`roll_number` columns, and `create_db_and_tables` creates none of the columns the migration adds. Neither fact is modelled further.
- `migrate_db.py` and `backend/migrate_database.py`: older one-off scripts outside the core.
- The `PRAGMA table_info` reads sit outside the migration's `try`, so a failure there leaves the connection open. The model reports the failure but does not model connection handles.
- UI-only components (dashboards, login, routing, markup, CSS, `window.confirm`) are left out.
- `AttendanceManagement`'s `fetchData`, `handleDeleteAttendance` and `handleExportCSV` are left out. They are request/response wrappers around the endpoints modelled in `AttendanceApi`, plus a browser download.
- `AttendanceScreen.MarkForm.HandleMark`, `StudentForm.AddStudentForm.HandleSubmit` and `CamerasScreen.CamerasPage.HandleSubmit` each run their whole handler as one event. The model therefore does not capture a second click that starts another call before the first settles.
- `StudentsManagement.handleDeleteStudent` is left out: a confirm dialog, one API call, an alert and a refetch.
- The page-level `StudentsManagement.handleSubmit` is left out. No form in the page uses it; the modal submits itself.
- The file-input reset after a successful upload in `AddStudentForm` touches only the DOM and is left out.
- `Config.all()` and the `get_*_config` helpers are left out: each is `GetSection` of a fixed name, or the whole mapping.
- `VideoStreamWidget.__exit__` releases the OpenCV capture and is not modelled. The class has no `__enter__`, so no `with` statement reaches it, and `stop` never releases the capture.
- `LiveStream.VideoStreamWidget.Stop` succeeds on a widget that was never started, where `stop` raises AttributeError because `self.thread` is unset. Every widget the service registers was started, so no call site reaches this.
- Timer periods (300 ms, 2000 ms) are left out. Only the order of the events they trigger is modelled.
- The wall clock and locale date formatting are parameters.
- Sub-second `timedelta` precision is dropped: time is whole seconds.
- `Common.Lower` folds only ASCII A–Z, where JavaScript's `toLowerCase` folds all of Unicode.
- `Common.TrimSpec` counts as white space the ASCII space, tab, line feed, vertical tab, form feed, carriage return, U+00A0, U+FEFF, U+2028 and U+2029. JavaScript's `trim` also strips the other Unicode space separators (category Zs, e.g. U+1680, U+2000–U+200A, U+202F, U+205F, U+3000), which the model does not.
- The digit test used for device indices in `LiveStream.ParseSource` accepts ASCII digits only, where Python's `isdigit` also accepts other Unicode digits.
- CSV quoting of fields is not modelled: a row is a sequence of field strings.
- The order SQLite gives rows with equal timestamps is not modelled. `AttendanceApi.NewestFirst` fixes one order: it states a permutation with non-increasing timestamps, not SQLite's exact tie order.
- Invalid `Date` values (NaN) in the attendance screen are not modelled: the local-date function is total.
- JavaScript numbers are modelled as naturals, so non-integer camera or student ids are not modelled.
