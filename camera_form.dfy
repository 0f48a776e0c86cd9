/** `AddCameraForm`: a list of added camera streams kept in component state
    and copied to the browser's local storage under `cameraIds`. The
    `addCameraStream`/`removeCameraStream` calls are outside calls whose
    outcome is given; JSON serialisation is abstracted as storing the list
    value itself. */
module CameraForm {
  import opened Common

  /** What `addCameraStream` resolves to. */
  datatype AddResponse = AddResponse(message: string, cameraIdSnake: JsValue, cameraIdCamel: JsValue)

  /** `response.camera_id || response.cameraId || response.cameraId`: the
      repeated last operand adds nothing, so the id is `camera_id` when that
      is truthy and `cameraId` otherwise. */
  function NewId(response: AddResponse): (id: JsValue)
    ensures Truthy(response.cameraIdSnake) ==> id == response.cameraIdSnake
    ensures !Truthy(response.cameraIdSnake) ==> id == response.cameraIdCamel
  {
    Or(Or(response.cameraIdSnake, response.cameraIdCamel), response.cameraIdCamel)
  }

  /** One entry of the list: `{ id, url }`. */
  datatype CameraEntry = CameraEntry(id: JsValue, url: string)

  /** `cameras.filter(cam => cam.id !== cameraId)`. */
  function Without(cameras: seq<CameraEntry>, cameraId: JsValue): (r: seq<CameraEntry>)
    ensures |r| <= |cameras|
  {
    Filter(cameras, OtherId(cameraId))
  }

  /** `cam => cam.id !== cameraId` */
  function OtherId(cameraId: JsValue): CameraEntry -> bool
  {
    (c: CameraEntry) => c.id != cameraId
  }

  /** Removal keeps exactly the entries with another id. */
  lemma WithoutMembers(cameras: seq<CameraEntry>, cameraId: JsValue)
    ensures forall c :: c in Without(cameras, cameraId) <==> c in cameras && c.id != cameraId
  {
    var r := Without(cameras, cameraId);
    forall c ensures c in r <==> c in cameras && c.id != cameraId {
      if c in r {
        var i :| 0 <= i < |r| && r[i] == c;
      }
      if c in cameras && c.id != cameraId {
        var i :| 0 <= i < |cameras| && cameras[i] == c;
      }
    }
  }

  /** Removal keeps the order of the survivors: it distributes over concatenation. */
  lemma WithoutAppend(a: seq<CameraEntry>, b: seq<CameraEntry>, cameraId: JsValue)
    ensures Without(a + b, cameraId) == Without(a, cameraId) + Without(b, cameraId)
  {
    FilterAppend(a, b, OtherId(cameraId));
  }

  /** A list with no entry of that id is left as it is. */
  lemma WithoutAbsent(cameras: seq<CameraEntry>, cameraId: JsValue)
    requires forall i :: 0 <= i < |cameras| ==> cameras[i].id != cameraId
    ensures Without(cameras, cameraId) == cameras
  {
    FilterAll(cameras, OtherId(cameraId));
  }

  /** Removing twice removes nothing more. */
  lemma WithoutIdempotent(cameras: seq<CameraEntry>, cameraId: JsValue)
    ensures Without(Without(cameras, cameraId), cameraId) == Without(cameras, cameraId)
  {
    var r := Without(cameras, cameraId);
    WithoutMembers(cameras, cameraId);
    forall i | 0 <= i < |r| ensures r[i].id != cameraId {
      assert r[i] in r;
    }
    WithoutAbsent(r, cameraId);
  }

  /** Removing an id just added drops the new entry and every earlier
      entry with that id, and nothing else. */
  lemma RemoveAfterAdd(cameras: seq<CameraEntry>, cameraId: JsValue, url: string)
    ensures Without(cameras + [CameraEntry(cameraId, url)], cameraId) == Without(cameras, cameraId)
  {
    WithoutAppend(cameras, [CameraEntry(cameraId, url)], cameraId);
    assert Without([CameraEntry(cameraId, url)], cameraId) == [];
  }

  /** `JSON.parse(localStorage.getItem('cameraIds')) || []`: nothing stored reads as empty. */
  function Loaded(stored: Option<seq<CameraEntry>>): seq<CameraEntry>
  {
    if stored.Some? then stored.value else []
  }

  const NoUrl := "Please provide a stream URL."
  const AddFailed := "Failed to add camera stream."
  const RemoveFailed := "Failed to remove camera stream."

  /** `err.message || fallback`. */
  function ErrorText(thrown: string, fallback: string): (text: string)
    requires fallback != []
    ensures text != []
    ensures thrown != [] ==> text == thrown
  {
    if thrown != [] then thrown else fallback
  }

  /** An awaited handler call: the value it was called for and the
      `cameras` its closure captured when it was called. */
  datatype Handler =
    | Adding(url: string, captured: seq<CameraEntry>)
    | Removing(cameraId: JsValue, captured: seq<CameraEntry>)

  /** `s` without its entry at `i`: a settled call leaves the others awaited, in order. */
  function Dropped(s: seq<Handler>, i: nat): (r: seq<Handler>)
    requires i < |s|
    ensures |r| == |s| - 1
    ensures forall j :: 0 <= j < i ==> r[j] == s[j]
    ensures forall j :: i <= j < |r| ==> r[j] == s[j + 1]
  {
    s[..i] + s[i + 1..]
  }

  class AddCameraForm {
    var streamUrl: string
    var message: string
    var error: string
    var cameras: seq<CameraEntry>
    /** The local-storage entry `cameraIds`. */
    var stored: Option<seq<CameraEntry>>
    /** The handler calls whose request is still awaited, oldest first. */
    var inFlight: seq<Handler>

    /** The list as a reload would show it equals the list in memory. */
    ghost predicate Synced()
      reads this
    {
      cameras == Loaded(stored)
    }

    /** The first render: empty fields and list; storage is whatever the browser holds. */
    constructor (storage: Option<seq<CameraEntry>>)
      ensures streamUrl == [] && message == [] && error == [] && cameras == [] && stored == storage
      ensures inFlight == []
    {
      streamUrl, message, error := [], [], [];
      cameras, stored := [], storage;
      inFlight := [];
    }

    /** The mount effect: the list is read back from storage. */
    method Mount()
      modifies this
      ensures Synced()
      ensures cameras == Loaded(old(stored)) && stored == old(stored)
      ensures streamUrl == old(streamUrl) && message == old(message) && error == old(error)
      ensures inFlight == old(inFlight)
    {
      cameras := Loaded(stored);
    }

    /** The URL input's `onChange`; it stays enabled while calls are awaited. */
    method EditUrl(url: string)
      modifies this
      ensures streamUrl == url
      ensures message == old(message) && error == old(error) && cameras == old(cameras)
      ensures stored == old(stored) && inFlight == old(inFlight)
    {
      streamUrl := url;
    }

    /** `handleAddCamera` up to its `await`. Message and error are cleared;
        an empty URL only sets the error and makes no call. Otherwise
        `addCameraStream` is called with the URL, and the handler waits
        holding that URL and the list as it is now. The submit button is
        never disabled, so further calls may start before this one settles. */
    method HandleAddCamera() returns (call: Option<string>)
      modifies this
      ensures message == [] && streamUrl == old(streamUrl)
      ensures cameras == old(cameras) && stored == old(stored)
      ensures old(streamUrl) == [] ==> call.None? && error == NoUrl && inFlight == old(inFlight)
      ensures old(streamUrl) != [] ==>
        && call == Some(old(streamUrl)) && error == []
        && inFlight == old(inFlight) + [Adding(old(streamUrl), old(cameras))]
    {
      message, error := [], [];
      if streamUrl == [] {
        error := NoUrl;
        return None;
      }
      call := Some(streamUrl);
      inFlight := inFlight + [Adding(streamUrl, cameras)];
    }

    /** The rest of `handleAddCamera`, once the call it waits on settles.
        Success shows the message, builds the new list from the CAPTURED
        list and URL, stores it and clears the URL field; failure sets the
        error. Neither clears what the other left. */
    method AddSettled(i: nat, outcome: Result<AddResponse, string>)
      requires i < |inFlight| && inFlight[i].Adding?
      modifies this
      ensures inFlight == Dropped(old(inFlight), i)
      ensures old(Synced()) ==> Synced()
      ensures outcome.Ok? ==>
        && message == outcome.value.message && error == old(error)
        && cameras == old(inFlight[i].captured) + [CameraEntry(NewId(outcome.value), old(inFlight[i].url))]
        && stored == Some(cameras) && streamUrl == []
      ensures outcome.Err? ==>
        && message == old(message) && error == ErrorText(outcome.error, AddFailed)
        && streamUrl == old(streamUrl) && cameras == old(cameras) && stored == old(stored)
    {
      var h := inFlight[i];
      inFlight := Dropped(inFlight, i);
      match outcome
      case Err(thrown) =>
        error := ErrorText(thrown, AddFailed);
      case Ok(response) =>
        message := response.message;
        var updated := h.captured + [CameraEntry(NewId(response), h.url)];
        cameras := updated;
        stored := Some(updated);
        streamUrl := [];
    }

    /** `handleRemoveCamera` up to its `await`: clears message and error,
        calls `removeCameraStream` and waits holding the id and the list as
        it is now. The Remove buttons are never disabled. */
    method HandleRemoveCamera(cameraId: JsValue)
      modifies this
      ensures message == [] && error == []
      ensures streamUrl == old(streamUrl) && cameras == old(cameras) && stored == old(stored)
      ensures inFlight == old(inFlight) + [Removing(cameraId, old(cameras))]
    {
      message, error := [], [];
      inFlight := inFlight + [Removing(cameraId, cameras)];
    }

    /** The rest of `handleRemoveCamera`: success shows the message, filters
        the CAPTURED list and stores the result; failure sets the error. */
    method RemoveSettled(i: nat, outcome: Result<string, string>)
      requires i < |inFlight| && inFlight[i].Removing?
      modifies this
      ensures inFlight == Dropped(old(inFlight), i)
      ensures old(Synced()) ==> Synced()
      ensures outcome.Ok? ==>
        && message == outcome.value && error == old(error)
        && cameras == Without(old(inFlight[i].captured), old(inFlight[i].cameraId))
        && stored == Some(cameras)
      ensures outcome.Err? ==>
        && message == old(message) && error == ErrorText(outcome.error, RemoveFailed)
        && cameras == old(cameras) && stored == old(stored)
      ensures streamUrl == old(streamUrl)
    {
      var h := inFlight[i];
      inFlight := Dropped(inFlight, i);
      match outcome
      case Err(thrown) =>
        error := ErrorText(thrown, RemoveFailed);
      case Ok(text) =>
        message := text;
        var updated := Without(h.captured, h.cameraId);
        cameras := updated;
        stored := Some(updated);
    }
  }

  /** Two Remove clicks before either call settles: each handler filters the
      list it captured, so the second write puts back the entry the first
      removed, in memory and in storage, although both streams were removed. */
  method OverlappingRemoves(a: CameraEntry, b: CameraEntry) returns (shown: seq<CameraEntry>, kept: Option<seq<CameraEntry>>)
    requires a.id != b.id
    ensures shown == [a] && kept == Some([a])
  {
    var form := new AddCameraForm(Some([a, b]));
    form.Mount();
    form.HandleRemoveCamera(a.id);
    form.HandleRemoveCamera(b.id);
    form.RemoveSettled(0, Ok("removed"));
    form.RemoveSettled(0, Ok("removed"));
    assert Without([a, b], b.id) == [a] by {
      var p := OtherId(b.id);
      assert p(a) && !p(b);
      assert [a, b][1..] == [b] && [b][1..] == [];
      assert Filter([b], p) == [] + Filter([], p);
      assert Filter([a, b], p) == [a] + Filter([b], p);
    }
    shown, kept := form.cameras, form.stored;
  }

  /** A call that settles with nothing else started since it began gives the
      one-step outcome: the entry is appended to the list as it is. */
  method AddAlone(cameras0: seq<CameraEntry>, url: string, response: AddResponse) returns (shown: seq<CameraEntry>, kept: Option<seq<CameraEntry>>)
    requires url != []
    ensures shown == cameras0 + [CameraEntry(NewId(response), url)] && kept == Some(shown)
  {
    var form := new AddCameraForm(Some(cameras0));
    form.Mount();
    form.EditUrl(url);
    var call := form.HandleAddCamera();
    form.AddSettled(0, Ok(response));
    shown, kept := form.cameras, form.stored;
  }
}
