/** The cameras page: the list built from the ids `listCameras` returns,
    the add/edit modal's form, the submit with its URL check, and the delete
    button, which is not wired to any call. Outside calls (`listCameras`,
    `addCamera`, `window.confirm`) have their outcomes given; `alert` calls
    are recorded in order. */
module CamerasScreen {
  import opened Common

  /** One camera card: `{ id, name, location, stream_url, status }`. */
  datatype Camera = Camera(id: JsValue, name: string, location: string, streamUrl: string, status: string)

  /** `id.toString()`, which throws on `null` and `undefined`. */
  function ToStringCall(id: JsValue): Option<string>
  {
    if id.Null? || id.Undefined? then None else Some(JsString(id))
  }

  /** The object the `map` callback builds for one id, or `None` when it throws. */
  function CameraOf(id: JsValue): Option<Camera>
  {
    match ToStringCall(id)
    case None => None
    case Some(text) => Some(Camera(id, "Camera " + JsString(id), "Location " + JsString(id), text, "active"))
  }

  /** `response.map(id => ({ ... }))`: `None` when some callback throws. */
  function CamerasOf(ids: seq<JsValue>): (r: Option<seq<Camera>>)
  {
    if ids == [] then Some([])
    else
      match (CameraOf(ids[0]), CamerasOf(ids[1..]))
      case (Some(c), Some(rest)) => Some([c] + rest)
      case _ => None
  }

  /** The mapping succeeds exactly when no id is `null` or `undefined`;
      then it keeps length and order, every card keeps its id, is active,
      and its name and location are built from its `stream_url`. */
  lemma {:induction false} CamerasOfSpec(ids: seq<JsValue>)
    ensures CamerasOf(ids).Some? <==> forall i :: 0 <= i < |ids| ==> !ids[i].Null? && !ids[i].Undefined?
    ensures CamerasOf(ids).Some? ==>
      var cams := CamerasOf(ids).value;
      && |cams| == |ids|
      && forall i :: 0 <= i < |ids| ==>
        && cams[i].id == ids[i] && cams[i].status == "active"
        && cams[i].name == "Camera " + cams[i].streamUrl
        && cams[i].location == "Location " + cams[i].streamUrl
  {
    if ids != [] {
      CamerasOfSpec(ids[1..]);
      if CamerasOf(ids).Some? {
        var rest := CamerasOf(ids[1..]).value;
        assert CamerasOf(ids).value == [CameraOf(ids[0]).value] + rest;
      }
      if forall i :: 0 <= i < |ids| ==> !ids[i].Null? && !ids[i].Undefined? {
        assert !ids[0].Null? && !ids[0].Undefined?;
        assert forall i :: 0 <= i < |ids[1..]| ==> ids[1..][i] == ids[i + 1];
      }
    }
  }

  /** A card for a numeric id that is not negative spells that id in
      decimal: the `stream_url` reads back as the id. */
  lemma NumericIdReadsBack(n: nat)
    ensures CameraOf(Num(n)).Some?
    ensures var u := CameraOf(Num(n)).value.streamUrl;
      IsDigits(u) && DigitsValue(u) == n
  {
    NatToStringRoundTrip(n);
  }

  const EmptyUrl := "Please enter a camera stream URL"
  const Added := "Camera added successfully!"
  const DeleteStub := "Delete functionality will be implemented"

  class CamerasPage {
    var cameras: seq<Camera>
    var loading: bool
    var showModal: bool
    var selectedCamera: Option<Camera>
    /** `formData`. */
    var formStreamUrl: string
    var formName: string
    var formLocation: string
    /** The messages passed to `alert`, oldest first. */
    var alerts: seq<string>
    /** How many `fetchCameras` calls have been started. */
    var fetches: nat

    /** The first render with the mount effect's `fetchCameras` started. */
    constructor ()
      ensures cameras == [] && loading && !showModal && selectedCamera.None?
      ensures formStreamUrl == [] && formName == [] && formLocation == []
      ensures alerts == [] && fetches == 1
    {
      cameras, loading, showModal, selectedCamera := [], true, false, None;
      formStreamUrl, formName, formLocation := [], [], [];
      alerts, fetches := [], 1;
    }

    /** `fetchCameras` settling. `response` is the resolved list, or `None`
        when `listCameras` throws. The list changes only when every id maps;
        `loading` ends false either way. */
    method FetchDone(response: Option<seq<JsValue>>)
      modifies this
      ensures !loading
      ensures response.Some? && CamerasOf(response.value).Some? ==> cameras == CamerasOf(response.value).value
      ensures response.None? || CamerasOf(response.value).None? ==> cameras == old(cameras)
      ensures showModal == old(showModal) && selectedCamera == old(selectedCamera)
      ensures formStreamUrl == old(formStreamUrl) && formName == old(formName) && formLocation == old(formLocation)
      ensures alerts == old(alerts) && fetches == old(fetches)
    {
      if response.Some? {
        var mapped := CamerasOf(response.value);
        if mapped.Some? {
          cameras := mapped.value;
        }
      }
      loading := false;
    }

    /** `handleAddCamera`: no selection, an empty form, the modal open. */
    method HandleAddCamera()
      modifies this
      ensures selectedCamera.None? && showModal
      ensures formStreamUrl == [] && formName == [] && formLocation == []
      ensures cameras == old(cameras) && loading == old(loading) && alerts == old(alerts) && fetches == old(fetches)
    {
      selectedCamera := None;
      formStreamUrl, formName, formLocation := [], [], [];
      showModal := true;
    }

    /** `handleEditCamera`: the camera selected and its three fields copied. */
    method HandleEditCamera(camera: Camera)
      modifies this
      ensures selectedCamera == Some(camera) && showModal
      ensures formStreamUrl == camera.streamUrl && formName == camera.name && formLocation == camera.location
      ensures cameras == old(cameras) && loading == old(loading) && alerts == old(alerts) && fetches == old(fetches)
    {
      selectedCamera := Some(camera);
      formStreamUrl, formName, formLocation := camera.streamUrl, camera.name, camera.location;
      showModal := true;
    }

    /** `handleDeleteCamera`. Nothing is deleted: a confirmed click only
        alerts and starts `fetchCameras`; a cancelled one does nothing. */
    method HandleDeleteCamera(cameraId: JsValue, confirmed: bool)
      modifies this
      ensures confirmed ==> alerts == old(alerts) + [DeleteStub] && fetches == old(fetches) + 1 && loading
      ensures !confirmed ==> alerts == old(alerts) && fetches == old(fetches) && loading == old(loading)
      ensures cameras == old(cameras) && showModal == old(showModal) && selectedCamera == old(selectedCamera)
      ensures formStreamUrl == old(formStreamUrl) && formName == old(formName) && formLocation == old(formLocation)
    {
      if !confirmed {
        return;
      }
      alerts := alerts + [DeleteStub];
      StartFetch();
    }

    /** The synchronous start of `fetchCameras`. */
    method StartFetch()
      modifies this
      ensures loading && fetches == old(fetches) + 1
      ensures cameras == old(cameras) && showModal == old(showModal) && selectedCamera == old(selectedCamera)
      ensures formStreamUrl == old(formStreamUrl) && formName == old(formName) && formLocation == old(formLocation)
      ensures alerts == old(alerts)
    {
      loading := true;
      fetches := fetches + 1;
    }

    /** `handleSubmit`. An empty or white-space-only URL alerts and stops.
        Otherwise `addCamera` is called once with the trimmed URL (`outcome`
        is `None` for success or the thrown message): success alerts, closes
        the modal, resets the form and refetches; failure alerts the message
        and keeps the form and the modal. */
    method HandleSubmit(outcome: Option<string>) returns (call: Option<string>)
      modifies this
      ensures AllSpace(old(formStreamUrl)) ==>
        && call.None? && alerts == old(alerts) + [EmptyUrl]
        && showModal == old(showModal) && fetches == old(fetches) && loading == old(loading)
        && formStreamUrl == old(formStreamUrl) && formName == old(formName) && formLocation == old(formLocation)
      ensures !AllSpace(old(formStreamUrl)) ==>
        && call == Some(Trim(old(formStreamUrl)))
        && call.value != [] && !IsJsSpace(call.value[0]) && !IsJsSpace(call.value[|call.value| - 1])
      ensures !AllSpace(old(formStreamUrl)) && outcome.None? ==>
        && alerts == old(alerts) + [Added] && !showModal
        && formStreamUrl == [] && formName == [] && formLocation == []
        && fetches == old(fetches) + 1 && loading
      ensures !AllSpace(old(formStreamUrl)) && outcome.Some? ==>
        && alerts == old(alerts) + ["Failed to add camera: " + outcome.value]
        && showModal == old(showModal) && fetches == old(fetches) && loading == old(loading)
        && formStreamUrl == old(formStreamUrl) && formName == old(formName) && formLocation == old(formLocation)
      ensures cameras == old(cameras) && selectedCamera == old(selectedCamera)
    {
      TrimSpec(formStreamUrl);
      if formStreamUrl == [] || Trim(formStreamUrl) == [] {
        alerts := alerts + [EmptyUrl];
        return None;
      }
      call := Some(Trim(formStreamUrl));
      if outcome.Some? {
        alerts := alerts + ["Failed to add camera: " + outcome.value];
        return;
      }
      alerts := alerts + [Added];
      showModal := false;
      formName, formLocation, formStreamUrl := [], [], [];
      StartFetch();
    }
  }
}
