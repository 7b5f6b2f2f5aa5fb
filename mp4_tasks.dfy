/** The supervisor side of MP4 capture: routing Start/Stop events to encode
    tasks (`manage_mp4_task`) and feeding each task the latest captured
    frame (`send_frame_to_mp4_tasks`).

    A task is its tracking id, the configuration its worker captured, the
    messages sent on its channel so far, and whether the worker still holds
    the receiving end (a send fails once it does not). */
module Mp4Tasks {
  import opened Common
  import opened Mp4Worker

  type TrackingId = nat

  datatype CaptureKind = Start | Stop

  /** An `Mp4Capture` event. */
  datatype Mp4Capture = Mp4Capture(trackingId: TrackingId, kind: CaptureKind, path: Option<string>)

  /** What a resolved image asset gives: its size and bytes per pixel. */
  datatype ImageInfo = ImageInfo(width: u32, height: u32, pixelSize: nat)

  /** One captured frame of a recorder's frame list. */
  datatype FrameEntry = FrameEntry(frameTime: nat, texture: seq<byte>)

  /** An active recorder: the image it captures and its captured frames,
      oldest first. */
  datatype ActiveRecorder = ActiveRecorder(targetHandle: ImageHandle, frames: seq<FrameEntry>)

  /** A registered `Mp4Task`. */
  datatype Mp4Task = Mp4Task(trackingId: TrackingId, config: WorkerConfig, mailbox: seq<Payload>, receiverOpen: bool)

  /** The image an event's recorder targets, when the tracking id has a
      recorder and its target image resolves. */
  function ResolveTarget(id: TrackingId, recorders: map<TrackingId, ActiveRecorder>,
                         images: map<ImageHandle, ImageInfo>): Option<ImageInfo>
  {
    if id in recorders && recorders[id].targetHandle in images
    then Some(images[recorders[id].targetHandle])
    else None
  }

  /** The task a Start event spawns: a fresh channel, and a worker that
      captured the target's size and format and the event's path. */
  function NewTask(e: Mp4Capture, info: ImageInfo): Mp4Task
  {
    Mp4Task(e.trackingId, WorkerConfig(info.width, info.height, info.pixelSize, e.path), [], true)
  }

  /** The first task registered under `id`, as `tasks.iter().find(...)`. */
  function FindTask(tasks: seq<Mp4Task>, id: TrackingId): (r: Option<nat>)
    ensures r.Some? ==> r.value < |tasks| && tasks[r.value].trackingId == id
    ensures r.Some? ==> forall k | 0 <= k < r.value :: tasks[k].trackingId != id
    ensures r.None? ==> forall k | 0 <= k < |tasks| :: tasks[k].trackingId != id
  {
    if tasks == [] then None
    else if tasks[0].trackingId == id then Some(0)
    else match FindTask(tasks[1..], id)
      case None => None
      case Some(j) => Some(j + 1)
  }

  // ---------------------------------------------------------------------
  // Routing events

  /** The state of one pass of `manage_mp4_task`: the tasks that existed
      when it started (the only ones its task query sees), and the tasks it
      has spawned, which are registered only when its commands are applied. */
  datatype Routing = Routing(existing: seq<Mp4Task>, spawned: seq<Mp4Task>)

  /** One event. None: a Terminate could not be sent and the system panicked. */
  function RouteEvent(r: Routing, e: Mp4Capture, recorders: map<TrackingId, ActiveRecorder>,
                      images: map<ImageHandle, ImageInfo>): Option<Routing>
  {
    match ResolveTarget(e.trackingId, recorders, images)
    case None => Some(r)
    case Some(info) =>
      match e.kind
      case Start => Some(r.(spawned := r.spawned + [NewTask(e, info)]))
      case Stop =>
        match FindTask(r.existing, e.trackingId)
        case None => Some(r)
        case Some(j) =>
          var t := r.existing[j];
          if t.receiverOpen
          then Some(r.(existing := r.existing[j := t.(mailbox := t.mailbox + [Terminate])]))
          else None
  }

  /** All drained events, in order. */
  function RouteAll(r: Routing, events: seq<Mp4Capture>, recorders: map<TrackingId, ActiveRecorder>,
                    images: map<ImageHandle, ImageInfo>): Option<Routing>
  {
    if events == [] then Some(r)
    else match RouteAll(r, events[..|events| - 1], recorders, images)
      case None => None
      case Some(r') => RouteEvent(r', events[|events| - 1], recorders, images)
  }

  /** An event whose tracking id has no recorder, or whose target image
      does not resolve, spawns nothing and sends nothing. */
  lemma UnresolvedEventIgnored(r: Routing, e: Mp4Capture, recorders: map<TrackingId, ActiveRecorder>,
                               images: map<ImageHandle, ImageInfo>)
    requires e.trackingId !in recorders || recorders[e.trackingId].targetHandle !in images
    ensures RouteEvent(r, e, recorders, images) == Some(r)
  {
  }

  /** A resolvable Start spawns exactly one task with the event's tracking
      id, whether or not a task with that id exists already. Its worker
      captured the target image's size and bytes per pixel and the event's
      path. */
  lemma StartSpawnsOneTask(r: Routing, e: Mp4Capture, recorders: map<TrackingId, ActiveRecorder>,
                           images: map<ImageHandle, ImageInfo>)
    requires e.kind == Start && ResolveTarget(e.trackingId, recorders, images).Some?
    ensures var r' := RouteEvent(r, e, recorders, images);
      && r'.Some? && r'.value.existing == r.existing
      && |r'.value.spawned| == |r.spawned| + 1
      && r'.value.spawned[..|r.spawned|] == r.spawned
      && r'.value.spawned[|r.spawned|].trackingId == e.trackingId
      && r'.value.spawned[|r.spawned|].mailbox == []
      && var img := images[recorders[e.trackingId].targetHandle];
         r'.value.spawned[|r.spawned|].config == WorkerConfig(img.width, img.height, img.pixelSize, e.path)
  {
  }

  /** A resolvable Stop sends Terminate to the first task with its id and
      to no other; with no such task it changes nothing. */
  lemma StopSignalsFirstMatch(r: Routing, e: Mp4Capture, recorders: map<TrackingId, ActiveRecorder>,
                              images: map<ImageHandle, ImageInfo>)
    requires e.kind == Stop && ResolveTarget(e.trackingId, recorders, images).Some?
    ensures FindTask(r.existing, e.trackingId).None? ==> RouteEvent(r, e, recorders, images) == Some(r)
    ensures forall j | 0 <= j < |r.existing| && r.existing[j].trackingId == e.trackingId
                       && (forall k | 0 <= k < j :: r.existing[k].trackingId != e.trackingId) ::
      var r' := RouteEvent(r, e, recorders, images);
      && (r'.Some? <==> r.existing[j].receiverOpen)
      && (r'.Some? ==>
           && r'.value.spawned == r.spawned
           && |r'.value.existing| == |r.existing|
           && r'.value.existing[j] == r.existing[j].(mailbox := r.existing[j].mailbox + [Terminate])
           && forall k | 0 <= k < |r.existing| && k != j :: r'.value.existing[k] == r.existing[k])
  {
  }

  /** The tasks spawned for a run of events: one per resolvable Start, in
      event order. */
  function SpawnsFor(events: seq<Mp4Capture>, recorders: map<TrackingId, ActiveRecorder>,
                     images: map<ImageHandle, ImageInfo>): seq<Mp4Task>
  {
    if events == [] then []
    else
      var e := events[|events| - 1];
      SpawnsFor(events[..|events| - 1], recorders, images) +
        match ResolveTarget(e.trackingId, recorders, images)
        case Some(info) => if e.kind == Start then [NewTask(e, info)] else []
        case None => []
  }

  /** Once a pass has panicked, the remaining events do not undo it. */
  lemma {:induction false} AbortIsFinal(r: Routing, events: seq<Mp4Capture>, n: nat,
                                        recorders: map<TrackingId, ActiveRecorder>, images: map<ImageHandle, ImageInfo>)
    requires n <= |events| && RouteAll(r, events[..n], recorders, images).None?
    ensures RouteAll(r, events, recorders, images).None?
  {
    if n < |events| {
      assert events[..|events| - 1][..n] == events[..n];
      AbortIsFinal(r, events[..|events| - 1], n, recorders, images);
    } else {
      assert events[..n] == events;
    }
  }

  /** A pass spawns exactly one task per resolvable Start event, in order,
      each with an empty channel: a Stop in the same pass never reaches a
      task started in that pass. */
  lemma {:induction false} SpawnedAreTheStarts(r: Routing, events: seq<Mp4Capture>,
                                               recorders: map<TrackingId, ActiveRecorder>, images: map<ImageHandle, ImageInfo>)
    requires RouteAll(r, events, recorders, images).Some?
    ensures RouteAll(r, events, recorders, images).value.spawned == r.spawned + SpawnsFor(events, recorders, images)
  {
    if events != [] {
      SpawnedAreTheStarts(r, events[..|events| - 1], recorders, images);
    }
  }

  /** `after` is `before` with zero or more Terminate messages sent to it. */
  predicate OnlyTerminatesAdded(before: Mp4Task, after: Mp4Task)
  {
    && after.trackingId == before.trackingId
    && after.config == before.config
    && after.receiverOpen == before.receiverOpen
    && |before.mailbox| <= |after.mailbox|
    && after.mailbox[..|before.mailbox|] == before.mailbox
    && forall i | |before.mailbox| <= i < |after.mailbox| :: after.mailbox[i] == Terminate
  }

  /** Routing never removes, reorders or reconfigures an existing task, and
      sends it nothing but Terminate. */
  lemma {:induction false} ExistingOnlyTerminated(r: Routing, events: seq<Mp4Capture>,
                                                  recorders: map<TrackingId, ActiveRecorder>, images: map<ImageHandle, ImageInfo>)
    requires RouteAll(r, events, recorders, images).Some?
    ensures var r' := RouteAll(r, events, recorders, images).value;
      && |r'.existing| == |r.existing|
      && forall j | 0 <= j < |r.existing| :: OnlyTerminatesAdded(r.existing[j], r'.existing[j])
  {
    if events != [] {
      var mid := RouteAll(r, events[..|events| - 1], recorders, images).value;
      ExistingOnlyTerminated(r, events[..|events| - 1], recorders, images);
      var r' := RouteAll(r, events, recorders, images).value;
      forall j | 0 <= j < |r.existing| ensures OnlyTerminatesAdded(r.existing[j], r'.existing[j]) {
        var a, b, c := r.existing[j], mid.existing[j], r'.existing[j];
        assert OnlyTerminatesAdded(b, c) by {
          if b != c {
            assert c.mailbox == b.mailbox + [Terminate];
          }
        }
        assert c.mailbox[..|a.mailbox|] == c.mailbox[..|b.mailbox|][..|a.mailbox|];
        forall i | |a.mailbox| <= i < |c.mailbox| ensures c.mailbox[i] == Terminate {
          if i < |b.mailbox| {
            assert c.mailbox[i] == c.mailbox[..|b.mailbox|][i];
          }
        }
      }
    }
  }

  // ---------------------------------------------------------------------
  // Feeding tasks

  /** What `send_frame_to_mp4_tasks` does to one task: send the latest
      frame of its recorder, if the recorder exists and has a frame; a send
      to a closed channel is dropped. */
  function FeedTask(t: Mp4Task, recorders: map<TrackingId, ActiveRecorder>): (r: Mp4Task)
    ensures r.trackingId == t.trackingId && r.config == t.config && r.receiverOpen == t.receiverOpen
    ensures |t.mailbox| <= |r.mailbox| <= |t.mailbox| + 1 && r.mailbox[..|t.mailbox|] == t.mailbox
    ensures |r.mailbox| == |t.mailbox| + 1 <==>
      t.receiverOpen && t.trackingId in recorders && recorders[t.trackingId].frames != []
    ensures |r.mailbox| == |t.mailbox| + 1 ==>
      var frames := recorders[t.trackingId].frames;
      r.mailbox[|t.mailbox|] == Data(frames[|frames| - 1].frameTime, frames[|frames| - 1].texture)
  {
    if t.trackingId in recorders && recorders[t.trackingId].frames != [] && t.receiverOpen then
      var back := recorders[t.trackingId].frames[|recorders[t.trackingId].frames| - 1];
      t.(mailbox := t.mailbox + [Data(back.frameTime, back.texture)])
    else t
  }

  // ---------------------------------------------------------------------
  // The task registry

  /** The registered MP4 tasks, in spawn order, which is taken as query order. */
  class TaskRegistry {
    var tasks: seq<Mp4Task>

    constructor ()
      ensures tasks == []
    {
      tasks := [];
    }

    /** `manage_mp4_task`: drain the events in order. Returns false when a
        Terminate could not be sent, which panics the system. */
    method Manage(events: seq<Mp4Capture>, recorders: map<TrackingId, ActiveRecorder>,
                  images: map<ImageHandle, ImageInfo>) returns (ok: bool)
      modifies this
      ensures ok <==> RouteAll(Routing(old(tasks), []), events, recorders, images).Some?
      ensures ok ==>
        var r := RouteAll(Routing(old(tasks), []), events, recorders, images).value;
        tasks == r.existing + r.spawned
    {
      var existing := tasks;
      var spawned: seq<Mp4Task> := [];
      var i := 0;
      while i < |events|
        invariant i <= |events|
        invariant tasks == old(tasks)
        invariant RouteAll(Routing(tasks, []), events[..i], recorders, images) == Some(Routing(existing, spawned))
      {
        var e := events[i];
        assert events[..i + 1][..i] == events[..i];
        if e.trackingId in recorders && recorders[e.trackingId].targetHandle in images {
          var info := images[recorders[e.trackingId].targetHandle];
          match e.kind {
            case Start =>
              spawned := spawned + [NewTask(e, info)];
            case Stop =>
              var found := FindTask(existing, e.trackingId);
              if found.Some? {
                var j := found.value;
                if !existing[j].receiverOpen {
                  // send(Terminate).expect(...) panics
                  ok := false;
                  AbortIsFinal(Routing(tasks, []), events, i + 1, recorders, images);
                  return;
                }
                existing := existing[j := existing[j].(mailbox := existing[j].mailbox + [Terminate])];
              }
          }
        }
        i := i + 1;
      }
      assert events[..i] == events;
      tasks := existing + spawned;
      ok := true;
    }

    /** `send_frame_to_mp4_tasks`: feed every task its recorder's latest frame. */
    method Feed(recorders: map<TrackingId, ActiveRecorder>)
      modifies this
      ensures |tasks| == |old(tasks)|
      ensures forall j | 0 <= j < |tasks| :: tasks[j] == FeedTask(old(tasks)[j], recorders)
    {
      var j := 0;
      while j < |tasks|
        invariant j <= |tasks| == |old(tasks)|
        invariant forall k | 0 <= k < j :: tasks[k] == FeedTask(old(tasks)[k], recorders)
        invariant forall k | j <= k < |tasks| :: tasks[k] == old(tasks)[k]
      {
        var t := tasks[j];
        if t.trackingId in recorders {
          var frames := recorders[t.trackingId].frames;
          if frames != [] {
            var back := frames[|frames| - 1];
            if t.receiverOpen {
              tasks := tasks[j := t.(mailbox := t.mailbox + [Data(back.frameTime, back.texture)])];
            }
            // a failed send is ignored
          }
        }
        j := j + 1;
      }
    }
  }
}
