/** The LiveMonitoring screen: `SingleCameraView` polls snapshot+recognize
    every 500 ms with no in-flight guard, and `CameraPreview` refreshes a
    thumbnail every 2000 ms.

    Object URLs are strings "blob:<n>" handed out by a counter; the
    `created` and `revoked` logs record every `URL.createObjectURL` and
    `URL.revokeObjectURL` call, so the URLs still holding a buffer are the
    created ones never revoked. React re-runs an effect only when one of its
    dependencies changes, first running the previous effect's cleanup; the
    interval callback and the cleanup see the `snapshot` value of the render
    that installed the effect, which this model keeps per interval. */
module LiveMonitoring {
  import opened Common

  const DataPrefix := "data:image/jpeg;base64,"
  const BlobPrefix := "blob:"

  /** The recognize response as this screen reads it. */
  datatype RecognizeResult<Face> = RecognizeResult(annotatedFrame: Option<string>, recognizedFaces: Option<seq<Face>>)

  /** How one tick's round trip ended: the snapshot fetch or the recognize
      call threw, or both succeeded. */
  datatype RoundTrip<Face> = Threw | Answered(result: RecognizeResult<Face>)

  /** `snapshot.startsWith('blob:')` */
  predicate IsBlobUrl(u: string)
  {
    BlobPrefix <= u
  }

  /** The URL `URL.createObjectURL` returns for the n-th object. */
  function BlobUrl(n: nat): (u: string)
    ensures IsBlobUrl(u)
  {
    BlobPrefix + NatToString(n)
  }

  function DataUri(payload: string): string
  {
    DataPrefix + payload
  }

  /** A data: URI is never mistaken for an object URL, so it is never revoked. */
  lemma DataUriIsNotBlob(payload: string)
    ensures !IsBlobUrl(DataUri(payload))
  {
    assert DataUri(payload)[0] == 'd';
  }

  /** Which frame a successful round trip displays: the server's annotated
      frame when the field is a non-empty string, otherwise a fresh object URL
      for the raw snapshot (the `newUrl` argument). */
  function ChooseFrame<Face>(result: RecognizeResult<Face>, newUrl: string): (frame: string)
    requires IsBlobUrl(newUrl)
    ensures IsBlobUrl(frame) <==> !(result.annotatedFrame.Some? && result.annotatedFrame.value != "")
    ensures result.annotatedFrame.Some? && result.annotatedFrame.value != "" ==>
      frame == DataUri(result.annotatedFrame.value)
  {
    if result.annotatedFrame.Some? && result.annotatedFrame.value != "" then
      DataUriIsNotBlob(result.annotatedFrame.value);
      DataUri(result.annotatedFrame.value)
    else newUrl
  }

  /** The truthy test `if (snapshot && snapshot.startsWith('blob:'))`. */
  predicate RevocableSnapshot(s: Option<string>)
  {
    s.Some? && IsBlobUrl(s.value)
  }

  function RevokeIfBlob(s: Option<string>): seq<string>
  {
    if RevocableSnapshot(s) then [s.value] else []
  }

  class SingleCameraView<Face> {
    var cameraId: int
    var isRunning: bool
    var snapshot: Option<string>
    var recognizedFaces: seq<Face>
    var mounted: bool
    /** The interval of the installed effect, if it created one. */
    var effectInterval: Option<nat>
    /** The `snapshot` the installed effect's cleanup will look at. */
    var effectSnapshot: Option<string>
    /** Intervals created and not yet cleared. */
    var live: set<nat>
    /** The `snapshot` each interval's callback closed over. */
    var captured: map<nat, Option<string>>
    /** Outstanding round trips, by the interval whose tick began them;
        several may be outstanding at once. */
    var pending: seq<nat>
    var nextTimer: nat
    var created: seq<string>
    var revoked: seq<string>

    ghost predicate Valid()
      reads this
    {
      Consistent() && Wired()
    }

    /** The installed effect matches `isRunning` and is the only live interval. */
    ghost predicate Wired()
      reads this`mounted, this`isRunning, this`effectInterval, this`effectSnapshot, this`live, this`captured
    {
      && (forall t :: t in live ==> t in captured)
      && (mounted ==> (effectInterval.Some? <==> isRunning))
      && (mounted && effectInterval.Some? ==> effectInterval.value in live)
      && (mounted ==> live <= (if effectInterval.Some? then {effectInterval.value} else {}))
      && (!mounted ==> live == {})
      && (mounted && effectInterval.Some? ==> captured[effectInterval.value] == effectSnapshot)
    }

    /** What holds even between an effect's cleanup and the next install. */
    ghost predicate Consistent()
      reads this
    {
      && nextTimer >= 1
      && (forall i :: 0 <= i < |pending| ==> pending[i] in captured)
      && (forall t :: t in captured ==> t < nextTimer)
      && (effectInterval.Some? ==> effectInterval.value in captured)
      // every object URL the view holds or has captured was created by it
      && (RevocableSnapshot(snapshot) ==> snapshot.value in created)
      && (forall t :: t in captured && RevocableSnapshot(captured[t]) ==> captured[t].value in created)
      && (RevocableSnapshot(effectSnapshot) ==> effectSnapshot.value in created)
      // and only object URLs the view created are ever revoked
      && (forall i :: 0 <= i < |revoked| ==> IsBlobUrl(revoked[i]) && revoked[i] in created)
    }

    /** Object URLs created and never revoked: buffers still held. */
    function Held(): set<string>
      reads this
    {
      set u | u in created && u !in revoked
    }

    /** Mounting: `isRunning` is false, so the effect makes no interval. */
    constructor (id: int)
      ensures Valid()
      ensures cameraId == id && !isRunning && snapshot.None? && recognizedFaces == []
      ensures mounted && effectInterval.None? && live == {} && pending == []
      ensures created == [] && revoked == []
    {
      cameraId := id;
      isRunning := false;
      snapshot := None;
      recognizedFaces := [];
      mounted := true;
      effectInterval := None;
      effectSnapshot := None;
      live := {};
      captured := map[];
      pending := [];
      nextTimer := 1;
      created := [];
      revoked := [];
    }

    /** The installed effect's cleanup: clear its interval and revoke the
        snapshot it captured when that is an object URL. */
    method Cleanup()
      requires Valid() && mounted
      modifies this
      ensures live == {} && effectInterval.None?
      ensures revoked == old(revoked) + RevokeIfBlob(old(effectSnapshot))
      ensures cameraId == old(cameraId) && isRunning == old(isRunning) && snapshot == old(snapshot)
      ensures recognizedFaces == old(recognizedFaces) && mounted && effectSnapshot == old(effectSnapshot)
      ensures captured == old(captured) && pending == old(pending) && nextTimer == old(nextTimer)
      ensures created == old(created)
      ensures Consistent()
    {
      live := {};
      effectInterval := None;
      if RevocableSnapshot(effectSnapshot) {
        revoked := revoked + [effectSnapshot.value];
      }
    }

    /** Installs the effect for the current `isRunning` and `camera.id`: it
        captures the current `snapshot` and, when running, starts an interval. */
    method Install()
      requires Consistent() && mounted && live == {} && effectInterval.None?
      modifies this
      ensures Valid()
      ensures effectSnapshot == snapshot
      ensures isRunning ==> (effectInterval == Some(old(nextTimer)) && live == {old(nextTimer)}
        && captured == old(captured)[old(nextTimer) := snapshot] && nextTimer == old(nextTimer) + 1)
      ensures !isRunning ==> (effectInterval.None? && live == {} && captured == old(captured)
        && nextTimer == old(nextTimer))
      ensures cameraId == old(cameraId) && isRunning == old(isRunning) && snapshot == old(snapshot)
      ensures recognizedFaces == old(recognizedFaces) && mounted
      ensures pending == old(pending) && created == old(created) && revoked == old(revoked)
    {
      effectSnapshot := snapshot;
      if isRunning {
        var t := nextTimer;
        nextTimer := nextTimer + 1;
        captured := captured[t := snapshot];
        live := {t};
        effectInterval := Some(t);
      }
    }

    /** The start and stop buttons: a change of `isRunning` re-runs the effect. */
    method SetRunning(running: bool)
      requires Valid() && mounted
      modifies this
      ensures Valid() && isRunning == running
      ensures running == old(isRunning) ==> unchanged(this)
      ensures running != old(isRunning) ==>
        && revoked == old(revoked) + RevokeIfBlob(old(effectSnapshot))
        && effectSnapshot == snapshot
        && (running ==> live == {old(nextTimer)} && captured == old(captured)[old(nextTimer) := snapshot])
        && (!running ==> live == {} && captured == old(captured))
      ensures cameraId == old(cameraId) && snapshot == old(snapshot) && recognizedFaces == old(recognizedFaces)
      ensures pending == old(pending) && created == old(created) && mounted
    {
      if running == isRunning {
        return;
      }
      Cleanup();
      isRunning := running;
      Install();
    }

    /** The parent shows the view for another camera: a change of
        `camera.id` re-runs the effect. */
    method SetCamera(id: int)
      requires Valid() && mounted
      modifies this
      ensures Valid() && cameraId == id
      ensures id == old(cameraId) ==> unchanged(this)
      ensures id != old(cameraId) ==>
        && revoked == old(revoked) + RevokeIfBlob(old(effectSnapshot))
        && effectSnapshot == snapshot
        && (isRunning ==> live == {old(nextTimer)} && captured == old(captured)[old(nextTimer) := snapshot])
        && (!isRunning ==> live == {} && captured == old(captured))
      ensures isRunning == old(isRunning) && snapshot == old(snapshot) && recognizedFaces == old(recognizedFaces)
      ensures pending == old(pending) && created == old(created) && mounted
    {
      if id == cameraId {
        return;
      }
      Cleanup();
      cameraId := id;
      Install();
    }

    /** One firing of interval `t`: with no in-flight guard every tick begins
        a new round trip, whatever is already outstanding. */
    method Tick(t: nat)
      requires Valid() && t in live
      modifies this
      ensures Valid()
      ensures pending == old(pending) + [t] && |pending| == |old(pending)| + 1
      ensures cameraId == old(cameraId) && isRunning == old(isRunning) && snapshot == old(snapshot)
      ensures recognizedFaces == old(recognizedFaces) && mounted == old(mounted)
      ensures live == old(live) && captured == old(captured) && nextTimer == old(nextTimer)
      ensures effectInterval == old(effectInterval) && effectSnapshot == old(effectSnapshot)
      ensures created == old(created) && revoked == old(revoked)
    {
      pending := pending + [t];
    }

    /** The end of the k-th outstanding round trip (they may end in any
        order). A failure is logged and swallowed: the interval keeps running.
        An annotated frame replaces the display and revokes the snapshot that
        the interval's callback captured (not the one on screen); otherwise a
        new object URL for the raw snapshot is installed and nothing is
        revoked. Faces change only when the response carries the field. */
    method Complete(k: nat, outcome: RoundTrip<Face>)
      requires Valid() && k < |pending|
      modifies this
      ensures Valid()
      ensures pending == old(pending[..k] + pending[k + 1..])
      ensures outcome.Threw? ==> (snapshot == old(snapshot) && recognizedFaces == old(recognizedFaces)
        && created == old(created) && revoked == old(revoked))
      ensures outcome.Answered? ==>
        var r := outcome.result;
        var annotated := r.annotatedFrame.Some? && r.annotatedFrame.value != "";
        && snapshot == Some(ChooseFrame(r, BlobUrl(|old(created)|)))
        && (annotated ==> (created == old(created)
              && revoked == old(revoked) + RevokeIfBlob(old(captured)[old(pending)[k]])))
        && (!annotated ==> created == old(created) + [BlobUrl(|old(created)|)] && revoked == old(revoked))
        && recognizedFaces == (if r.recognizedFaces.Some? then r.recognizedFaces.value else old(recognizedFaces))
      ensures cameraId == old(cameraId) && isRunning == old(isRunning) && mounted == old(mounted)
      ensures live == old(live) && captured == old(captured) && nextTimer == old(nextTimer)
      ensures effectInterval == old(effectInterval) && effectSnapshot == old(effectSnapshot)
    {
      var t := Dequeue(k);
      match outcome {
        case Threw =>
        case Answered(r) =>
          Answer(t, r);
      }
    }

    /** The finished round trip leaves the outstanding list; `t` is the
        interval whose tick began it. */
    method Dequeue(k: nat) returns (t: nat)
      requires Valid() && k < |pending|
      modifies this`pending
      ensures Valid()
      ensures t == old(pending)[k] && t in captured
      ensures pending == old(pending[..k] + pending[k + 1..])
    {
      t := pending[k];
      var rest := pending[..k] + pending[k + 1..];
      forall i | 0 <= i < |rest| ensures rest[i] in captured {
        if i < k { assert rest[i] == pending[i]; } else { assert rest[i] == pending[i + 1]; }
      }
      pending := rest;
    }

    /** A response arrived for a tick of interval `t`. */
    method Answer(t: nat, r: RecognizeResult<Face>)
      requires Valid() && t in captured
      modifies this`snapshot, this`created, this`revoked, this`recognizedFaces
      ensures Valid()
      ensures var annotated := r.annotatedFrame.Some? && r.annotatedFrame.value != "";
        && snapshot == Some(ChooseFrame(r, BlobUrl(|old(created)|)))
        && (annotated ==> (created == old(created) && revoked == old(revoked) + RevokeIfBlob(captured[t])))
        && (!annotated ==> created == old(created) + [BlobUrl(|old(created)|)] && revoked == old(revoked))
        && recognizedFaces == (if r.recognizedFaces.Some? then r.recognizedFaces.value else old(recognizedFaces))
    {
      if r.annotatedFrame.Some? && r.annotatedFrame.value != "" {
        ShowAnnotated(t, ChooseFrame(r, BlobUrl(|created|)));
      } else {
        ShowRaw(ChooseFrame(r, BlobUrl(|created|)));
      }
      if r.recognizedFaces.Some? {
        recognizedFaces := r.recognizedFaces.value;
      }
    }

    /** An annotated frame goes on screen and the snapshot that interval `t`
        captured is revoked when it is an object URL. */
    method ShowAnnotated(t: nat, frame: string)
      requires Valid() && t in captured && !IsBlobUrl(frame)
      modifies this`snapshot, this`revoked
      ensures Valid()
      ensures snapshot == Some(frame) && revoked == old(revoked) + RevokeIfBlob(captured[t])
    {
      if RevocableSnapshot(captured[t]) {
        assert captured[t].value in created;
        revoked := revoked + [captured[t].value];
      }
      snapshot := Some(frame);
    }

    /** The raw snapshot goes on screen as a new object URL; nothing is revoked. */
    method ShowRaw(frame: string)
      requires Valid() && frame == BlobUrl(|created|)
      modifies this`snapshot, this`created
      ensures Valid()
      ensures snapshot == Some(frame) && created == old(created) + [frame]
    {
      created := created + [frame];
      snapshot := Some(frame);
    }

    /** Leaving the single-camera view runs the installed effect's cleanup. */
    method Unmount()
      requires Valid() && mounted
      modifies this
      ensures Valid() && !mounted && live == {}
      ensures revoked == old(revoked) + RevokeIfBlob(old(effectSnapshot))
      ensures snapshot == old(snapshot) && created == old(created) && pending == old(pending)
    {
      Cleanup();
      mounted := false;
    }
  }

  /** A running view whose next n ticks are each answered without an
      annotated frame creates n object URLs and revokes none of them: the
      fallback branch never revokes, so held buffers grow with every such
      response. */
  method FallbackLeaks<Face>(n: nat) returns (created: nat, revoked: nat)
    ensures created == n && revoked == 0
  {
    var v := new SingleCameraView<Face>(1);
    v.SetRunning(true);
    var t := v.effectInterval.value;
    var plain := Answered(RecognizeResult(None, Some([])));
    var i := 0;
    while i < n
      invariant 0 <= i <= n
      invariant v.Valid() && v.mounted && v.effectInterval == Some(t) && t in v.live
      invariant v.pending == [] && |v.created| == i && v.revoked == []
    {
      v.Tick(t);
      v.Complete(0, plain);
      i := i + 1;
    }
    created, revoked := |v.created|, |v.revoked|;
  }

  class CameraPreview {
    var cameraId: int
    var snapshot: Option<string>
    var mounted: bool
    /** Whether the installed effect's 2000 ms interval is still set. */
    var ticking: bool
    /** The `snapshot` the installed effect's cleanup will look at. */
    var effectSnapshot: Option<string>
    /** Refreshes begun and not yet finished. */
    var pending: nat
    var created: seq<string>
    var revoked: seq<string>

    ghost predicate Valid()
      reads this
    {
      && (ticking <==> mounted)
      && (snapshot.Some? ==> snapshot.value in created)
      && (effectSnapshot.Some? ==> effectSnapshot.value in created)
      && (forall i :: 0 <= i < |revoked| ==> revoked[i] in created)
    }

    /** Mounting runs the effect: one refresh at once, then the interval. */
    constructor (id: int)
      ensures Valid()
      ensures cameraId == id && snapshot.None? && mounted && ticking && pending == 1
      ensures created == [] && revoked == []
    {
      cameraId := id;
      snapshot := None;
      mounted := true;
      ticking := true;
      effectSnapshot := None;
      pending := 1;
      created := [];
      revoked := [];
    }

    /** The interval fires and begins a refresh. */
    method Tick()
      requires Valid() && ticking
      modifies this
      ensures Valid() && pending == old(pending) + 1
      ensures snapshot == old(snapshot) && created == old(created) && revoked == old(revoked)
      ensures cameraId == old(cameraId) && mounted == old(mounted) && ticking
      ensures effectSnapshot == old(effectSnapshot)
    {
      pending := pending + 1;
    }

    /** A refresh ends: a fetched blob becomes a new object URL on screen and
        the previous one is left unrevoked; a failure is only logged. */
    method Complete(fetched: bool)
      requires Valid() && pending > 0
      modifies this
      ensures Valid() && pending == old(pending) - 1
      ensures fetched ==> (created == old(created) + [BlobUrl(|old(created)|)]
        && snapshot == Some(BlobUrl(|old(created)|)))
      ensures !fetched ==> created == old(created) && snapshot == old(snapshot)
      ensures revoked == old(revoked)
      ensures cameraId == old(cameraId) && mounted == old(mounted) && ticking == old(ticking)
      ensures effectSnapshot == old(effectSnapshot)
    {
      pending := pending - 1;
      if fetched {
        var url := BlobUrl(|created|);
        created := created + [url];
        snapshot := Some(url);
      }
    }

    /** A change of `cameraId` runs the cleanup (clear the interval, revoke
        the captured snapshot if any) and then the effect again. */
    method SetCamera(id: int)
      requires Valid() && mounted
      modifies this
      ensures Valid() && cameraId == id
      ensures id == old(cameraId) ==> unchanged(this)
      ensures id != old(cameraId) ==>
        && revoked == old(revoked) + (if old(effectSnapshot).Some? then [old(effectSnapshot).value] else [])
        && effectSnapshot == snapshot && pending == old(pending) + 1
      ensures snapshot == old(snapshot) && created == old(created) && mounted && ticking
    {
      if id == cameraId {
        return;
      }
      if effectSnapshot.Some? {
        revoked := revoked + [effectSnapshot.value];
      }
      cameraId := id;
      effectSnapshot := snapshot;
      pending := pending + 1;
    }

    method Unmount()
      requires Valid() && mounted
      modifies this
      ensures Valid() && !mounted && !ticking
      ensures revoked == old(revoked) + (if old(effectSnapshot).Some? then [old(effectSnapshot).value] else [])
      ensures snapshot == old(snapshot) && created == old(created) && pending == old(pending)
    {
      if effectSnapshot.Some? {
        revoked := revoked + [effectSnapshot.value];
      }
      ticking := false;
      mounted := false;
    }
  }

  /** A preview that is mounted and then ticks n times, every refresh
      fetching a blob, creates n + 1 object URLs and revokes none of them. */
  method PreviewNeverRevokes(n: nat) returns (created: nat, revoked: nat)
    ensures created == n + 1 && revoked == 0
  {
    var p := new CameraPreview(7);
    p.Complete(true);
    var i := 0;
    while i < n
      invariant 0 <= i <= n
      invariant p.Valid() && p.ticking && p.pending == 0
      invariant |p.created| == i + 1 && p.revoked == []
    {
      p.Tick();
      p.Complete(true);
      i := i + 1;
    }
    created, revoked := |p.created|, |p.revoked|;
  }
}
