/** The LiveRecognition screen: a 300 ms polling loop that sends camera
    snapshots for recognition, with a per-start `isProcessing` flag that drops
    (never queues) a tick while a round trip is outstanding.

    JavaScript runs one callback at a time, so the component is a sequential
    state machine. Each method below is one event: the button handlers, one
    interval tick up to its first `await`, the end of a snapshot+recognize
    round trip, and unmounting. Interval ids stand for the values
    `setInterval` returns; the set `live` holds the intervals not yet cleared,
    and only those can tick. */
module LiveRecognition {
  import opened Common

  const NoCameraMessage := "Please select a camera."
  const DefaultErrorMessage := "Error during recognition."
  const FramePrefix := "data:image/jpeg;base64,"

  /** The JSON body of a successful recognize call, as the component reads
      it: either field may be missing. */
  datatype Response<Face> = Response(recognizedFaces: Option<seq<Face>>, annotatedFrame: Option<string>)

  /** How one snapshot+recognize round trip ended. */
  datatype Outcome<Face> = Succeeded(response: Response<Face>) | Failed(message: string)

  /** A template literal `${v}`: a missing field prints as "undefined". */
  function Interpolate(v: Option<string>): string
  {
    match v
    case Some(s) => s
    case None => "undefined"
  }

  /** The image source the component displays after a successful round trip. */
  function FrameUri<Face>(response: Response<Face>): (uri: string)
    ensures FramePrefix <= uri
    ensures response.annotatedFrame.Some? ==> uri[|FramePrefix|..] == response.annotatedFrame.value
    ensures response.annotatedFrame.None? ==> uri[|FramePrefix|..] == "undefined"
  {
    FramePrefix + Interpolate(response.annotatedFrame)
  }

  /** `err.message || "Error during recognition."` */
  function ErrorText(message: string): (text: string)
    ensures text != ""
    ensures message != "" ==> text == message
    ensures message == "" ==> text == DefaultErrorMessage
  {
    if message != "" then message else DefaultErrorMessage
  }

  /** The round trips that are still outstanding once interval `t`'s has ended. */
  function Without(inFlight: seq<nat>, t: nat): (rest: seq<nat>)
    ensures forall i :: 0 <= i < |rest| ==> rest[i] in inFlight && rest[i] != t
    ensures forall i :: 0 <= i < |inFlight| && inFlight[i] != t ==> inFlight[i] in rest
  {
    Filter(inFlight, x => x != t)
  }

  class Recognizer<Face> {
    var selectedCameraId: string
    var isRecognizing: bool
    /** `None` stands for `undefined`, written when a response lacks the field. */
    var recognizedFaces: Option<seq<Face>>
    var annotatedFrame: Option<string>
    var error: Option<string>
    /** `intervalRef.current`. */
    var interval: Option<nat>
    var mounted: bool
    /** Intervals created and not yet cleared: only these fire. */
    var live: set<nat>
    /** Intervals whose closure has its `isProcessing` flag set. */
    var processing: set<nat>
    /** Outstanding snapshot+recognize round trips, by the interval that began them. */
    var inFlight: seq<nat>
    /** The id the next `setInterval` returns; browsers start above 0. */
    var nextTimer: nat

    ghost predicate Valid()
      reads this
    {
      && nextTimer >= 1
      && (forall t :: t in live ==> 1 <= t < nextTimer)
      && (mounted && interval.Some? ==> interval.value in live)
      && (isRecognizing <==> interval.Some?)
      // the flag is set exactly while that interval's round trip is outstanding
      && (forall t :: t in processing <==> t in inFlight)
      // at most one round trip in flight per interval
      && Distinct(inFlight)
    }

    /** No interval is running except the one `intervalRef` points to. */
    ghost predicate NoStrayInterval()
      reads this
    {
      forall t :: t in live ==> interval == Some(t)
    }

    constructor ()
      ensures Valid() && NoStrayInterval()
      ensures selectedCameraId == "" && !isRecognizing && recognizedFaces == Some([])
      ensures annotatedFrame.None? && error.None? && interval.None? && mounted
      ensures live == {} && processing == {} && inFlight == []
    {
      selectedCameraId := "";
      isRecognizing := false;
      recognizedFaces := Some([]);
      annotatedFrame := None;
      error := None;
      interval := None;
      mounted := true;
      live := {};
      processing := {};
      inFlight := [];
      nextTimer := 1;
    }

    /** The camera picker's `onChange`. */
    method SelectCamera(id: string)
      requires Valid()
      modifies this
      ensures Valid()
      ensures selectedCameraId == id
      ensures isRecognizing == old(isRecognizing) && interval == old(interval) && live == old(live)
      ensures recognizedFaces == old(recognizedFaces) && annotatedFrame == old(annotatedFrame)
      ensures error == old(error) && processing == old(processing) && inFlight == old(inFlight)
      ensures nextTimer == old(nextTimer) && mounted == old(mounted)
    {
      selectedCameraId := id;
    }

    /** `startRecognition`: with no camera it only reports the error; otherwise
        it resets the display and schedules a fresh interval whose own
        `isProcessing` flag starts false. */
    method Start() returns (created: Option<nat>)
      requires Valid() && mounted
      modifies this
      ensures Valid()
      ensures old(selectedCameraId) == "" ==>
        && created.None? && error == Some(NoCameraMessage)
        && isRecognizing == old(isRecognizing) && interval == old(interval) && live == old(live)
        && recognizedFaces == old(recognizedFaces) && annotatedFrame == old(annotatedFrame)
        && nextTimer == old(nextTimer)
      ensures old(selectedCameraId) != "" ==>
        && created == Some(old(nextTimer)) && old(nextTimer) !in old(live)
        && isRecognizing && error.None? && recognizedFaces == Some([]) && annotatedFrame.None?
        && interval == created && live == old(live) + {old(nextTimer)}
        && nextTimer == old(nextTimer) + 1
      // the start button is disabled while recognizing; from there no interval leaks
      ensures !old(isRecognizing) && old(NoStrayInterval()) ==> NoStrayInterval()
      ensures selectedCameraId == old(selectedCameraId) && mounted
      ensures processing == old(processing) && inFlight == old(inFlight)
    {
      created := None;
      if selectedCameraId == "" {
        error := Some(NoCameraMessage);
        return;
      }
      isRecognizing := true;
      error := None;
      recognizedFaces := Some([]);
      annotatedFrame := None;
      var t := nextTimer;
      nextTimer := nextTimer + 1;
      live := live + {t};
      interval := Some(t);
      created := Some(t);
    }

    /** One firing of interval `t`, up to its first `await`. A tick that finds
        the flag set returns at once: it is dropped, not queued. */
    method Tick(t: nat) returns (began: bool)
      requires Valid() && t in live
      modifies this
      ensures Valid()
      ensures began <==> t !in old(processing)
      ensures began ==> processing == old(processing) + {t} && inFlight == old(inFlight) + [t]
      ensures !began ==> processing == old(processing) && inFlight == old(inFlight)
      ensures selectedCameraId == old(selectedCameraId) && isRecognizing == old(isRecognizing)
      ensures recognizedFaces == old(recognizedFaces) && annotatedFrame == old(annotatedFrame)
      ensures error == old(error) && interval == old(interval) && live == old(live)
      ensures nextTimer == old(nextTimer) && mounted == old(mounted)
    {
      if t in processing {
        return false;
      }
      processing := processing + {t};
      inFlight := inFlight + [t];
      began := true;
    }

    /** The end of interval `t`'s round trip. Success writes faces and frame
        without looking at `isRecognizing`, so a round trip that outlives a
        stop still updates the display. Failure records the message and
        stops. Either way the `finally` clears the flag. */
    method Complete(t: nat, outcome: Outcome<Face>)
      requires Valid() && t in inFlight
      modifies this
      ensures Valid()
      ensures t !in processing && processing == old(processing) - {t}
      ensures inFlight == Without(old(inFlight), t) && |inFlight| == |old(inFlight)| - 1
      ensures outcome.Succeeded? ==>
        && recognizedFaces == outcome.response.recognizedFaces
        && annotatedFrame == Some(FrameUri(outcome.response))
        && error == old(error) && isRecognizing == old(isRecognizing)
        && interval == old(interval) && live == old(live)
      ensures outcome.Failed? ==>
        && error == Some(ErrorText(outcome.message))
        && recognizedFaces == old(recognizedFaces) && annotatedFrame == old(annotatedFrame)
        && !isRecognizing && interval.None?
        && live == old(live) - (if old(interval).Some? then {old(interval).value} else {})
      ensures selectedCameraId == old(selectedCameraId) && nextTimer == old(nextTimer)
      ensures mounted == old(mounted)
      ensures old(NoStrayInterval()) ==> NoStrayInterval()
    {
      match outcome {
        case Succeeded(response) =>
          recognizedFaces := response.recognizedFaces;
          annotatedFrame := Some(FrameUri(response));
        case Failed(message) =>
          error := Some(ErrorText(message));
          Stop();
      }
      processing := processing - {t};
      WithoutOne(inFlight, t);
      inFlight := Without(inFlight, t);
    }

    /** `stopRecognition`: clears and nulls the interval only if there is one,
        so a second call changes nothing. */
    method Stop()
      requires Valid()
      modifies this
      ensures Valid()
      ensures !isRecognizing && interval.None?
      ensures live == old(live) - (if old(interval).Some? then {old(interval).value} else {})
      ensures old(interval).None? && !old(isRecognizing) ==> unchanged(this)
      ensures selectedCameraId == old(selectedCameraId) && error == old(error)
      ensures recognizedFaces == old(recognizedFaces) && annotatedFrame == old(annotatedFrame)
      ensures processing == old(processing) && inFlight == old(inFlight)
      ensures nextTimer == old(nextTimer) && mounted == old(mounted)
      ensures old(NoStrayInterval()) ==> NoStrayInterval() && live == {}
    {
      isRecognizing := false;
      if interval.Some? {
        live := live - {interval.value};
        interval := None;
      }
    }

    /** The mount effect's cleanup: clears the interval but leaves the ref. */
    method Unmount()
      requires Valid() && mounted
      modifies this
      ensures Valid() && !mounted
      ensures live == old(live) - (if old(interval).Some? then {old(interval).value} else {})
      ensures interval == old(interval) && isRecognizing == old(isRecognizing)
      ensures selectedCameraId == old(selectedCameraId) && error == old(error)
      ensures recognizedFaces == old(recognizedFaces) && annotatedFrame == old(annotatedFrame)
      ensures processing == old(processing) && inFlight == old(inFlight)
      ensures nextTimer == old(nextTimer)
      ensures old(NoStrayInterval()) ==> live == {}
    {
      if interval.Some? {
        live := live - {interval.value};
      }
      mounted := false;
    }
  }

  /** Removing the one entry of `t` from a list without repeats shortens it
      by one and keeps it without repeats. */
  lemma {:induction false} WithoutOne(s: seq<nat>, t: nat)
    requires Distinct(s) && t in s
    ensures Distinct(Without(s, t)) && |Without(s, t)| == |s| - 1
  {
    FilterDistinct(s, x => x != t);
    if s[0] == t {
      assert t !in s[1..];
      WithoutAbsent(s[1..], t);
    } else {
      WithoutOne(s[1..], t);
    }
  }

  lemma {:induction false} WithoutAbsent(s: seq<nat>, t: nat)
    requires t !in s
    ensures Without(s, t) == s
  {
    if s != [] {
      WithoutAbsent(s[1..], t);
    }
  }
}
