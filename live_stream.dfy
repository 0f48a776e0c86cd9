/** The backend's camera streams: `VideoStreamWidget`, a capture device with a
    bounded frame deque filled by a reader thread, and `LiveStreamService`, the
    registry that hands out camera ids.

    One pass of the reader thread's loop is one `UpdateStep` call; the
    capture device's answers (whether a frame was grabbed, and the frame)
    are its arguments. The deque is a sequence, oldest frame first. */
module LiveStream {
  import opened Common

  const DefaultQueueSize: nat := 128

  /** What the capture is opened on: a local device index or an address. */
  datatype Source = Device(index: nat) | Address(url: string)

  /** `int(stream_url) if stream_url.isdigit() else stream_url` */
  function ParseSource(streamUrl: string): (src: Source)
    ensures src.Device? <==> IsDigits(streamUrl)
    ensures src.Address? ==> src.url == streamUrl
  {
    if IsDigits(streamUrl) then Device(DigitsValue(streamUrl)) else Address(streamUrl)
  }

  /** The decimal spelling of a device index opens that device. */
  lemma DeviceIndexRoundTrip(n: nat)
    ensures ParseSource(NatToString(n)) == Device(n)
  {
    NatToStringRoundTrip(n);
  }

  /** The deque after `append` on a `deque(maxlen=m)` that drops its oldest
      frame when full (the caller has excluded the full, zero-length case). */
  function Pushed<Frame>(queue: seq<Frame>, maxlen: nat, frame: Frame): (r: seq<Frame>)
    requires |queue| <= maxlen && 0 < maxlen
    ensures |r| == if |queue| < maxlen then |queue| + 1 else maxlen
    ensures |r| <= maxlen && r[|r| - 1] == frame
    // the newest frames are kept: r is a suffix of queue + [frame]
    ensures r == (queue + [frame])[|queue| + 1 - |r|..]
  {
    if |queue| == maxlen then queue[1..] + [frame] else queue + [frame]
  }

  class VideoStreamWidget<Frame> {
    const source: Source
    const maxlen: nat
    /** `self.frame`: read once in `__init__`; the reader thread never sets it. */
    const initialFrame: Frame
    var grabbed: bool
    var started: bool
    /** Whether the reader thread is running its loop. */
    var pumping: bool
    var queue: seq<Frame>

    ghost predicate Valid()
      reads this
    {
      |queue| <= maxlen && (pumping ==> started)
    }

    /** `__init__`: the capture's first read gives `grabbed` and `frame`. */
    constructor (src: Source, firstGrabbed: bool, firstFrame: Frame, queueSize: nat)
      ensures Valid()
      ensures source == src && maxlen == queueSize && initialFrame == firstFrame
      ensures grabbed == firstGrabbed && !started && !pumping && queue == []
    {
      source := src;
      maxlen := queueSize;
      initialFrame := firstFrame;
      grabbed := firstGrabbed;
      started := false;
      pumping := false;
      queue := [];
    }

    /** `start`: a second call returns None and changes nothing. */
    method Start() returns (self: bool)
      requires Valid()
      modifies this
      ensures Valid()
      ensures self <==> !old(started)
      ensures !old(started) ==> started && pumping
      ensures old(started) ==> started == old(started) && pumping == old(pumping)
      ensures queue == old(queue) && grabbed == old(grabbed)
    {
      if started {
        return false;
      }
      started := true;
      pumping := true;
      self := true;
    }

    /** One pass of `update`'s loop. A grabbed frame is appended, the oldest
        dropped first when the deque is full; a failed grab only records the
        flag. With `maxlen == 0` the deque counts as full while empty, so
        `popleft` raises and the reader thread ends (`raised`). */
    method UpdateStep(grabbedNow: bool, frame: Frame) returns (raised: bool)
      requires Valid() && pumping
      modifies this
      ensures Valid()
      ensures grabbed == grabbedNow
      ensures raised <==> grabbedNow && maxlen == 0
      ensures grabbedNow && maxlen > 0 ==> queue == Pushed(old(queue), maxlen, frame)
      ensures !grabbedNow || maxlen == 0 ==> queue == old(queue)
      ensures pumping == !raised && started == old(started)
    {
      grabbed := grabbedNow;
      raised := false;
      if grabbedNow {
        if |queue| == maxlen {
          if queue == [] {
            raised := true;
            pumping := false;
            return;
          }
          queue := queue[1..];
        }
        queue := queue + [frame];
      }
    }

    /** `read`: pops the NEWEST queued frame (last in, first out); with an
        empty deque it returns the frame read in `__init__`. */
    method Read() returns (ok: bool, frame: Frame)
      requires Valid()
      modifies this
      ensures Valid()
      ensures ok == grabbed
      ensures old(queue) != [] ==> frame == old(queue)[|old(queue)| - 1] && queue == old(queue)[..|old(queue)| - 1]
      ensures old(queue) == [] ==> frame == initialFrame && queue == []
      ensures grabbed == old(grabbed) && started == old(started) && pumping == old(pumping)
    {
      ok := grabbed;
      if queue != [] {
        frame := queue[|queue| - 1];
        queue := queue[..|queue| - 1];
      } else {
        frame := initialFrame;
      }
    }

    /** `stop`: clears the flag and waits for the reader thread to finish. */
    method Stop()
      requires Valid()
      modifies this
      ensures Valid() && !started && !pumping
      ensures queue == old(queue) && grabbed == old(grabbed)
    {
      started := false;
      pumping := false;
    }
  }

  class LiveStreamService<Frame> {
    var streams: map<nat, VideoStreamWidget<Frame>>
    /** The keys of `streams` in insertion order, as `list(dict.keys())` gives them. */
    var order: seq<nat>
    var nextCameraId: nat

    ghost predicate Valid()
      reads this, streams.Values
    {
      Keyed() && Running()
    }

    ghost predicate Keyed()
      reads this
    {
      Registry(streams, order, nextCameraId)
    }

    /** Every registered widget has been started and not stopped. */
    ghost predicate Running()
      reads this, streams.Values
    {
      forall id :: id in streams ==> streams[id].Valid() && streams[id].started
    }

    constructor ()
      ensures Valid() && streams == map[] && order == [] && nextCameraId == 1
    {
      streams := map[];
      order := [];
      nextCameraId := 1;
    }

    /** `add_camera`: the id is taken and the counter advanced before the
        stream is opened, so a failed open (`opening` says what the capture
        does: raise, or read its first frame) still uses up the id. */
    method AddCamera(streamUrl: string, opening: Result<(bool, Frame), string>) returns (id: Option<nat>)
      requires Valid()
      modifies this
      ensures Valid()
      ensures nextCameraId == old(nextCameraId) + 1
      ensures opening.Err? ==> id.None? && streams == old(streams) && order == old(order)
      ensures opening.Ok? ==>
        && id == Some(old(nextCameraId))
        && old(nextCameraId) !in old(streams)
        && old(nextCameraId) in streams
        && streams == old(streams)[old(nextCameraId) := streams[old(nextCameraId)]]
        && fresh(streams[old(nextCameraId)])
        && streams[old(nextCameraId)].source == ParseSource(streamUrl)
        && streams[old(nextCameraId)].maxlen == DefaultQueueSize
        && streams[old(nextCameraId)].queue == []
        && order == old(order) + [old(nextCameraId)]
    {
      var cameraId := nextCameraId;
      nextCameraId := nextCameraId + 1;
      var src := ParseSource(streamUrl);
      match opening {
        case Err(_) =>
          id := None;
        case Ok((firstGrabbed, firstFrame)) =>
          var widget := new VideoStreamWidget(src, firstGrabbed, firstFrame, DefaultQueueSize);
          var _ := widget.Start();
          AddKeepsRegistry(streams, order, cameraId, widget);
          ghost var before := streams;
          streams := streams[cameraId := widget];
          order := order + [cameraId];
          id := Some(cameraId);
          forall k | k in streams ensures streams[k].Valid() && streams[k].started {
            if k != cameraId {
              assert streams[k] == before[k];
            }
          }
      }
    }

    /** `remove_camera`: stops and deletes exactly that camera; an unknown id
        changes nothing. */
    method RemoveCamera(cameraId: nat) returns (removed: bool)
      requires Valid()
      modifies this, (if cameraId in streams then {streams[cameraId]} else {})
      ensures Valid()
      ensures removed <==> cameraId in old(streams)
      ensures streams == old(streams) - {cameraId}
      ensures order == Drop(old(order), cameraId)
      ensures removed ==> !old(streams[cameraId]).started
      ensures nextCameraId == old(nextCameraId)
    {
      if cameraId !in streams {
        DropAbsent(order, cameraId);
        assert streams - {cameraId} == streams;
        return false;
      }
      Unregister(cameraId);
      removed := true;
    }

    /** Stopping and deleting a registered camera. */
    method Unregister(cameraId: nat)
      requires Valid() && cameraId in streams
      modifies this, streams[cameraId]
      ensures Valid()
      ensures streams == old(streams) - {cameraId} && order == Drop(old(order), cameraId)
      ensures !old(streams[cameraId]).started && nextCameraId == old(nextCameraId)
    {
      var stopped := streams[cameraId];
      ghost var before := streams;
      DropKeepsRegistry(before, order, nextCameraId, cameraId);
      stopped.Stop();
      streams, order := streams - {cameraId}, Drop(order, cameraId);
      forall k | k in streams ensures streams[k].Valid() && streams[k].started {
        assert streams[k] == before[k] && before[k] != stopped;
      }
    }

    /** `get_frame`: the newest queued frame of that camera when its last grab
        succeeded. The deque is popped even when the grab flag is false. */
    method GetFrame(cameraId: nat) returns (frame: Option<Frame>)
      requires Valid()
      modifies (if cameraId in streams then {streams[cameraId]} else {})
      ensures Valid()
      ensures cameraId !in streams ==> frame.None?
      ensures cameraId in streams ==>
        var w := streams[cameraId];
        && (frame.Some? <==> w.grabbed)
        && (old(w.queue) != [] ==>
              && w.queue == old(w.queue)[..|old(w.queue)| - 1]
              && (frame.Some? ==> frame.value == old(w.queue)[|old(w.queue)| - 1]))
        && (old(w.queue) == [] ==> w.queue == [] && (frame.Some? ==> frame.value == w.initialFrame))
    {
      frame := None;
      if cameraId in streams {
        var ok, f := streams[cameraId].Read();
        if ok {
          frame := Some(f);
        }
      }
    }

    /** One pass of a camera's reader thread. */
    method Pump(cameraId: nat, grabbedNow: bool, f: Frame) returns (raised: bool)
      requires Valid() && cameraId in streams && streams[cameraId].pumping
      modifies streams[cameraId]
      ensures Valid()
      ensures var w := streams[cameraId];
        && w.grabbed == grabbedNow
        && (grabbedNow && w.maxlen > 0 ==> w.queue == Pushed(old(w.queue), w.maxlen, f))
        && (!grabbedNow ==> w.queue == old(w.queue))
    {
      raised := streams[cameraId].UpdateStep(grabbedNow, f);
    }

    /** `get_all_cameras`: every registered id once, in ascending order
        (insertion order, since ids only grow). */
    method GetAllCameras() returns (ids: seq<nat>)
      requires Valid()
      ensures forall id :: id in ids <==> id in streams
      ensures forall i, j :: 0 <= i < j < |ids| ==> ids[i] < ids[j]
      ensures |ids| == |streams|
    {
      ids := order;
      SortedKeysCount(order, streams.Keys);
    }
  }

  /** Dropping a value that is not there leaves the list as it was. */
  lemma {:induction false} DropAbsent(s: seq<nat>, x: nat)
    requires x !in s
    ensures Drop(s, x) == s
  {
    if s != [] {
      DropAbsent(s[1..], x);
    }
  }

  /** The registry's bookkeeping: ids are below the counter, `order` lists
      exactly the keys in ascending order, and no widget is registered twice. */
  ghost predicate Registry<W>(streams: map<nat, W>, order: seq<nat>, nextCameraId: nat)
  {
    && nextCameraId >= 1
    && (forall id :: id in streams ==> 1 <= id < nextCameraId)
    && (forall i :: 0 <= i < |order| ==> order[i] in streams)
    && (forall id :: id in streams ==> id in order)
    && Increasing(order)
    && (forall a, b :: a in streams && b in streams && a != b ==> streams[a] != streams[b])
  }

  /** `order` once camera `id` is deleted from the dict. */
  function Drop(order: seq<nat>, id: nat): (r: seq<nat>)
    ensures |r| <= |order|
  {
    if order == [] then []
    else (if order[0] != id then [order[0]] else []) + Drop(order[1..], id)
  }

  /** Deleting keeps exactly the other entries. */
  lemma {:induction false} DropMembers(order: seq<nat>, id: nat)
    ensures forall i :: 0 <= i < |Drop(order, id)| ==> Drop(order, id)[i] in order && Drop(order, id)[i] != id
    ensures forall i :: 0 <= i < |order| && order[i] != id ==> order[i] in Drop(order, id)
  {
    if order != [] {
      DropMembers(order[1..], id);
      assert order == [order[0]] + order[1..];
    }
  }

  /** Deleting a registered camera keeps the bookkeeping. */
  lemma DropKeepsRegistry<W>(streams: map<nat, W>, order: seq<nat>, next: nat, id: nat)
    requires Registry(streams, order, next) && id in streams
    ensures Registry(streams - {id}, Drop(order, id), next)
  {
    DropKeepsOrder(order, id);
    DropMembers(order, id);
    var r := Drop(order, id);
    forall k | k in streams - {id} ensures k in r {
      var i :| 0 <= i < |order| && order[i] == k;
    }
  }

  /** Registering a fresh widget under the next id keeps the bookkeeping. */
  lemma AddKeepsRegistry<W>(streams: map<nat, W>, order: seq<nat>, next: nat, w: W)
    requires Registry(streams, order, next)
    requires forall k :: k in streams ==> streams[k] != w
    ensures next !in streams
    ensures Registry(streams[next := w], order + [next], next + 1)
  {
    AppendKeepsOrder(order, next);
  }

  predicate Increasing(s: seq<nat>)
  {
    forall i, j :: 0 <= i < j < |s| ==> s[i] < s[j]
  }

  /** Deleting a key from a strictly increasing list keeps it strictly
      increasing. */
  lemma {:induction false} DropKeepsOrder(s: seq<nat>, x: nat)
    requires Increasing(s)
    ensures Increasing(Drop(s, x))
  {
    if s != [] {
      var r := Drop(s[1..], x);
      DropKeepsOrder(s[1..], x);
      DropMembers(s[1..], x);
      forall i | 0 <= i < |r| ensures s[0] < r[i] {
        var j :| 0 <= j < |s[1..]| && s[1..][j] == r[i];
        assert s[j + 1] == r[i];
      }
    }
  }

  /** Appending a value above every entry keeps a list strictly increasing. */
  lemma AppendKeepsOrder(s: seq<nat>, x: nat)
    requires Increasing(s) && forall i :: 0 <= i < |s| ==> s[i] < x
    ensures Increasing(s + [x])
  {
  }

  /** A strictly increasing list of exactly the keys has one entry per key. */
  lemma {:induction false} SortedKeysCount(s: seq<nat>, keys: set<nat>)
    requires forall i, j :: 0 <= i < j < |s| ==> s[i] < s[j]
    requires forall k :: k in s <==> k in keys
    ensures |s| == |keys|
    decreases |s|
  {
    if s != [] {
      assert s[0] !in s[1..];
      SortedKeysCount(s[1..], keys - {s[0]});
    } else {
      assert keys == {};
    }
  }
}
