# MP4 capture path of bevy_capture_media, modelled in Dafny

This project models how frames move through the MP4 capture path of
bevy_capture_media. Each render tick, the GPU readback step ("smuggling")
copies each recorder's target image into a host buffer. A feed stage sends
the latest captured frame of each recording to that recording's encode
task. A supervisor starts and stops encode tasks when capture events
arrive. Each encode worker turns its stream of `Data(duration, bytes)` and
`Terminate` messages into calls on a video encoder.

Modules:

- `Common` (common.dfy): `Option`, `byte`, `u32`, and `AsU32`, which is
  truncation to 32 bits.
- `Mp4Worker` (mp4_worker.dfy): the worker task.
  - Even-width padding and the frame-length check.
  - The pixel conversion.
  - The position that accumulates frame durations.
  - How the receive loop ends.
  - The external encoder is a class whose only state is the log of calls
    made on it (`Encode(frame, position)` and `Finish`).
  - The channel is the finite sequence of messages the worker will
    receive. Reaching its end means the channel closed.
- `Mp4Tasks` (mp4_tasks.dfy): `manage_mp4_task` and
  `send_frame_to_mp4_tasks`.
  - The task registry is a class holding a sequence of tasks. Each task
    has a tracking id, the configuration its worker captured, the messages
    sent to it, and whether its worker still holds the receiving end.
- `Render` (render.dfy): `layout_data` and `smuggle_frame`.
  - The wgpu copy, map and poll are one abstract readback function. It
    returns the mapped bytes, or nothing when mapping fails.
  - The shared recorder map is a class field that the step updates in
    place.
- `Pipeline` (pipeline.dfy): how the two halves fit. A buffer read back for
  an image passes the length check of a worker started for that image.

Modelling choices that follow the code:

- u32 arithmetic wraps, as it does in a release build.
  - The length check compares `width * height * pixel_size` and the
    frame's length, both truncated to `u32`.
  - The readback buffer size and the row stride are also truncated.
  - Lemmas give the exact values when the products fit in 32 bits.
- Bounds of the pixel conversion. The conversion reads channel `c` of
  pixel `(h, w)` at `w*ps + ps*h*width + c`, where `ps` is the pixel size.
  A read past the end of the frame panics the task. The model records this
  as the `IndexPanic` exit, with no encode and no finish. It happens in two
  cases:
  - a pixel format with fewer than three bytes per pixel;
  - a frame that passed the check only because of the 32-bit truncation.
- Finalisation. On a length mismatch the worker returns before calling
  `finish()`; the model records no `Finish` call. `Finish` is called only
  after `Terminate` or after the channel closes.
- Deferred spawns. `manage_mp4_task` spawns tasks through bevy `Commands`,
  which are applied only after the system returns. Its task query
  therefore sees only tasks that existed before the pass. `Routing` keeps
  these `existing` tasks apart from the `spawned` ones. As a result, a Stop
  never reaches a task started earlier in the same batch of events.
- Query order. The registry keeps tasks in spawn order, and the task query
  is modelled as visiting them in that order. Reaping finished tasks,
  which can reorder the query, is not modelled; the order decides which
  task gets `Terminate` when two tasks share a tracking id.
- Stop on a finished worker. Stop sends `Terminate` with `.expect(...)`.
  If the worker has already dropped its receiver, that send fails and the
  system panics. `Manage` returns `false` in this case. The feed stage
  ignores failed sends.
- Order of `smuggle_frame`. It iterates a hash map, so the model visits
  recorders in an arbitrary order. If mapping fails for one recorder, every
  recorder either keeps its old value or holds its new frame. The one that
  failed is unchanged.

## Model

| member | source | states |
|---|---|---|
| `Mp4Worker.EvenWidth` | src/formats/mp4.rs:66 | the padded width is even, at least `width`, at most `width + 1`, and equals `width` exactly when `width` is even |
| `Mp4Worker.EvenWidthIsCeilingPair` | src/formats/mp4.rs:66 | the padded width is `ceil(width / 2) * 2` |
| `Mp4Worker.SizeMatchesExactly` | src/formats/mp4.rs:83-84 | when neither side wraps, the length check passes exactly when the length is `width * height * pixel_size` |
| `Mp4Worker.SizeCheckAdmitsWrappedLength` | src/formats/mp4.rs:83-84 | because both sides are truncated to u32, a frame 2^32 bytes longer than expected passes the check |
| `Mp4Worker.ReadsInBoundsMeaning` | src/formats/mp4.rs:96-98 | the closed-form bound holds exactly when every index the conversion reads for `h < height`, `w < width`, `c < 3` is inside the frame |
| `Mp4Worker.CheckedFrameReadsInBounds` | src/formats/mp4.rs:83-98 | a frame that passes the length check is read only in bounds when `pixel_size >= 3` and the expected size fits a u32 |
| `Mp4Worker.NarrowPixelsReadOutOfBounds` | src/formats/mp4.rs:96-98 | with fewer than 3 bytes per pixel, a correctly sized non-empty frame makes the conversion read past its end |
| `Mp4Worker.ConvertFrame` | src/formats/mp4.rs:90-101 | the converted frame has shape `(height, even_width, 3)` |
| `Mp4Worker.ConvertFrameLayout` | src/formats/mp4.rs:92-100 | padding columns `w >= width` are zero; every other pixel is the first three bytes of source pixel `(h, w)` in row-major order |
| `Mp4Worker.ConvertFrameKeepsEveryPixel` | src/formats/mp4.rs:92-100 | the reverse direction: channel `c < 3` of the p-th source pixel appears at row `p / width`, column `p % width` |
| `Mp4Worker.StopIndex` | src/formats/mp4.rs:81-101 | the worker encodes exactly the messages before the first one that is not a well-sized, readable `Data` |
| `Mp4Worker.PositionStartsAtZero` | src/formats/mp4.rs:80 | the first frame is encoded at position zero |
| `Mp4Worker.PositionAdvancesByDuration` | src/formats/mp4.rs:106-107 | frame k+1 is encoded at frame k's position plus frame k's duration |
| `Mp4Worker.PositionsNonDecreasing` | src/formats/mp4.rs:102-107 | encode positions never go backwards |
| `Mp4Worker.MismatchStopsEncoding` | src/formats/mp4.rs:83-89 | a frame of the wrong length is not encoded and neither is anything after it; if the loop reaches it, the worker exits without `Finish` |
| `Mp4Worker.TerminateStopsEncoding` | src/formats/mp4.rs:81-109 | nothing at or after a `Terminate` is encoded; reaching it ends the loop as Terminated and the last encoder call is `Finish` |
| `Mp4Worker.FinishOnlyAtTheEnd` | src/formats/mp4.rs:81-109 | `Finish` is called exactly when the loop ends through `Terminate` or channel close, and only as the last call |
| `Mp4Worker.LaterMessagesIgnored` | src/formats/mp4.rs:81-88 | messages after the one that ends the loop change neither the encoder calls (frames, positions, `Finish`) nor the exit |
| `Mp4Worker.Encoder.constructor` | src/formats/mp4.rs:74-77 | a new encoder has the even width and the height, and no calls |
| `Mp4Worker.Encoder.Encode` | src/formats/mp4.rs:102-104 | encoding appends one `Encode(frame, position)` call; frames must have the encoder's shape |
| `Mp4Worker.Encoder.Finish` | src/formats/mp4.rs:109 | finishing appends one `Finish` call |
| `Mp4Worker.RunWorker` | src/formats/mp4.rs:65-110 | the worker's encoder calls are one `Encode` per accepted message at the running position, plus `Finish` only on a clean exit; its exit is the one the first unaccepted message decides |
| `Mp4Tasks.FindTask` | src/formats/mp4.rs:115 | finds the first task with the id, or reports that no task has it |
| `Mp4Tasks.UnresolvedEventIgnored` | src/formats/mp4.rs:51-59 | an event without a recorder or a resolvable image spawns nothing and sends nothing |
| `Mp4Tasks.StartSpawnsOneTask` | src/formats/mp4.rs:51-113 | a resolvable Start adds exactly one task, with the event's id and an empty channel, even when the id already has a task; its worker captured the target image's width, height and bytes per pixel and the event's path |
| `Mp4Tasks.StopSignalsFirstMatch` | src/formats/mp4.rs:114-120 | a resolvable Stop appends `Terminate` to the first task with the id and to no other; with no match it changes nothing; a closed receiver panics |
| `Mp4Tasks.AbortIsFinal` | src/formats/mp4.rs:116-118 | once a failed Terminate send panics the pass, later events do not undo it |
| `Mp4Tasks.SpawnedAreTheStarts` | src/formats/mp4.rs:50-113 | a pass spawns exactly one task per resolvable Start, in event order, each with an empty channel |
| `Mp4Tasks.ExistingOnlyTerminated` | src/formats/mp4.rs:50-122 | a pass never removes, reorders or reconfigures an existing task, and only appends `Terminate` to its channel |
| `Mp4Tasks.TaskRegistry.Manage` | src/formats/mp4.rs:42-124 | draining the events leaves the existing tasks, as routed, followed by the spawned ones; returns false exactly when a Terminate send panics |
| `Mp4Tasks.FeedTask` | src/formats/mp4.rs:127-137 | a task gets at most one new message, and gets one exactly when its receiver is open and its recorder exists with a frame; that message is `Data` of the latest frame's time and bytes; nothing else changes |
| `Mp4Tasks.TaskRegistry.Feed` | src/formats/mp4.rs:126-139 | every task, in order, is fed as `FeedTask` says; the task list keeps its length |
| `Render.LayoutData` | src/render.rs:16-26 | the offset is zero, rows-per-image is absent, and a row stride is present only for images taller than one row and is then non-zero |
| `Render.LayoutRowStride` | src/render.rs:18-22 | when `width * pixel_size` fits a u32, the stride is that product for images taller than one row with a non-zero product, and absent otherwise |
| `Render.DestinationSize` | src/render.rs:43 | the readback buffer size is a u32, and it equals `width * height * pixel_size` when that product fits |
| `Render.LayoutCoversDestination` | src/render.rs:41-67 | the copy's rows (stride times height) exactly fill the destination buffer |
| `Render.SmuggleOne` | src/render.rs:36-83 | an unresolved target leaves the recorder unchanged; a resolved one gets `last_frame` set to the whole mapped buffer, whose size is the destination size; a mapping failure is a panic with no write |
| `Render.Smuggler.SmuggleFrame` | src/render.rs:28-86 | all recorders keep their keys; on success every recorder is updated as `SmuggleOne` says; on a mapping panic each recorder is either unchanged or updated, and the failing one is unchanged |
| `Pipeline.ReadbackFrameAccepted` | src/render.rs:43 | a buffer read back for an image passes the worker's length check for that image, and the worker encodes it when pixels have at least 3 bytes and the size fits a u32 |

## Left out

- src/lib.rs: plugin and system registration only.
- src/data.rs is not part of this model. The recorder records, `CaptureFrame` and the shared-map types are modelled from the fields that the core reads and writes.
- src/management.rs is not part of this model. This leaves out:
  - reaping finished tasks (`clean_unmonitored_tasks`, `Mp4Task::is_done`), and with it any reordering of the task query: query order is modelled as spawn order;
  - moving `last_frame` into a recorder's frame list.
- Concurrency:
  - Spawning on the async compute pool, the threading of the crossbeam channel, and polling for completion are not modelled.
  - The channel is the finite sequence of messages a worker receives.
  - Whether a worker still holds its receiver is the input flag `receiverOpen`.
- The default output file name is derived from the wall clock. The optional path is passed through as an opaque value, and `None` stands for that default.
- video_rs is not modelled:
  - Codec behaviour is not modelled.
  - Failures of `Encoder::new`, `encode` and `finish` are not modelled. Their `expect` panics are treated as never firing.
  - `Time::aligned_with(...).add()` is modelled as adding a natural-number duration, without time-base rounding.
  - What video_rs does when an unfinished encoder is dropped (including on a panic) is not modelled.
- `even_width` uses `f64` ceiling. It is modelled in integers, which is exact for every u32 width.
- A debug build panics on u32 overflow. This is not modelled: arithmetic wraps as in a release build.
- render.rs casts the render image size from floating point to u32. The model takes the sizes as u32 inputs.
- wgpu is not modelled:
  - buffer creation and command encoding;
  - `map_async` and `device.poll`;
  - wgpu's own validation of the copy layout, such as row-stride alignment.
- The mutex lock and its poisoning are not modelled. The recorder map is owned by the step for its duration.
- The event queue itself is not modelled. `Manage` receives the drained events as a sequence.
- Logging (`log::error!`).
- `Mp4Tasks.TaskRegistry.Manage`: after a failed Terminate send, the system panics and the application stops. The contract therefore says nothing about the task list in that case.
