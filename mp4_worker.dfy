/** The MP4 encode worker: the body of the task that `manage_mp4_task`
    spawns on a Start event. It receives `Data(duration, bytes)` and
    `Terminate` messages, converts each raw frame to a 3-channel frame of
    even width, hands it to the encoder at the current position, and
    advances the position by the frame's duration.

    The channel is modelled as the finite sequence of messages the worker
    will receive; running off its end is the channel closing. The external
    video encoder is modelled as the log of calls made on it. */
module Mp4Worker {
  import opened Common

  /** A message on a worker's channel (`Mp4TaskPayload`). Durations are
      natural numbers of an abstract time unit. */
  datatype Payload = Data(frameTime: nat, bytes: seq<byte>) | Terminate

  /** What the worker captures when it is spawned: the target's size and
      bytes per pixel, and the output path (None: the time-derived default). */
  datatype WorkerConfig = WorkerConfig(width: u32, height: u32, pixelSize: nat, path: Option<string>)

  /** A frame as the encoder takes it: rows, then columns, then channels. */
  type Frame = seq<seq<seq<byte>>>

  /** One call made on the encoder. */
  datatype EncoderCall = Encode(frame: Frame, position: nat) | Finish

  /** How the worker's loop ended. */
  datatype Exit =
    | ChannelClosed   // every sender was dropped: leave the loop, then finish
    | Terminated      // a Terminate message: leave the loop, then finish
    | SizeRejected    // a frame of the wrong length: log and return without finishing
    | IndexPanic      // the conversion indexed past the frame's bytes: the task panics

  /** The loop's exits after which `finish` is called. */
  predicate Finalizes(exit: Exit)
  {
    exit == ChannelClosed || exit == Terminated
  }

  predicate HasShape(frame: Frame, rows: nat, cols: nat, channels: nat)
  {
    && |frame| == rows
    && forall h | 0 <= h < rows ::
         |frame[h]| == cols && forall w | 0 <= w < cols :: |frame[h][w]| == channels
  }

  // ---------------------------------------------------------------------
  // Even width

  /** The width handed to the encoder: the next even number at or above
      `width`, as the source computes `ceil(width / 2) * 2` in floating
      point (exact for every `u32`). */
  function EvenWidth(width: nat): (even: nat)
    ensures even % 2 == 0
    ensures width <= even <= width + 1
    ensures even == width <==> width % 2 == 0
  {
    width + width % 2
  }

  /** EvenWidth is the source's ceiling formula, taken in integers. */
  lemma EvenWidthIsCeilingPair(width: nat)
    ensures EvenWidth(width) == ((width + 1) / 2) * 2
  {
  }

  // ---------------------------------------------------------------------
  // The length check and the pixel conversion

  /** The worker's length check: the expected size and the frame's length
      are both taken as `u32`, so both sides wrap modulo 2^32. */
  predicate SizeMatches(len: nat, width: u32, height: u32, pixelSize: nat)
  {
    AsU32(width * height * pixelSize) == AsU32(len)
  }

  /** When neither side wraps, the check is exact equality. */
  lemma SizeMatchesExactly(len: nat, width: u32, height: u32, pixelSize: nat)
    requires len < U32_MODULUS && width * height * pixelSize < U32_MODULUS
    ensures SizeMatches(len, width, height, pixelSize) <==> len == width * height * pixelSize
  {
  }

  /** The truncation lets a frame exactly 2^32 bytes too long through. */
  lemma SizeCheckAdmitsWrappedLength(width: u32, height: u32, pixelSize: nat)
    ensures SizeMatches(width * height * pixelSize + U32_MODULUS, width, height, pixelSize)
  {
    var n := width * height * pixelSize;
    assert (n + U32_MODULUS) % U32_MODULUS == n % U32_MODULUS;
  }

  /** The index the conversion reads for cell (h, w, c), written as the
      source writes it. */
  function SourceIndex(width: nat, pixelSize: nat, h: nat, w: nat, c: nat): nat
  {
    w * pixelSize + pixelSize * h * width + c
  }

  /** Where pixel (h, w) starts in the tightly packed, row-major frame. */
  function PixelOffset(width: nat, pixelSize: nat, h: nat, w: nat): nat
  {
    (h * width + w) * pixelSize
  }

  /** The furthest byte the conversion reads (channel 2 of the last pixel)
      lies inside a frame of `len` bytes. */
  predicate ReadsInBounds(len: nat, width: nat, height: nat, pixelSize: nat)
  {
    width == 0 || height == 0 || (height * width - 1) * pixelSize + 2 < len
  }

  lemma SourceIndexIsOffset(width: nat, pixelSize: nat, h: nat, w: nat, c: nat)
    ensures SourceIndex(width, pixelSize, h, w, c) == PixelOffset(width, pixelSize, h, w) + c
  {
    calc {
      SourceIndex(width, pixelSize, h, w, c);
      w * pixelSize + pixelSize * (h * width) + c;
      { assert pixelSize * (h * width) == (h * width) * pixelSize; }
      (h * width) * pixelSize + w * pixelSize + c;
      { assert (h * width) * pixelSize + w * pixelSize == (h * width + w) * pixelSize; }
      PixelOffset(width, pixelSize, h, w) + c;
    }
  }

  lemma SourceIndexBelowLast(width: nat, height: nat, pixelSize: nat, h: nat, w: nat, c: nat)
    requires h < height && w < width && c < 3
    ensures SourceIndex(width, pixelSize, h, w, c) <= (height * width - 1) * pixelSize + 2
  {
    SourceIndexIsOffset(width, pixelSize, h, w, c);
    MulMonotone(h + 1, height, width);
    assert (h + 1) * width == h * width + width;
    MulMonotone(h * width + w, height * width - 1, pixelSize);
  }

  lemma MulMonotone(a: nat, b: nat, k: nat)
    requires a <= b
    ensures a * k <= b * k
  {
  }

  /** ReadsInBounds says exactly that every index the conversion reads
      lies inside the frame. */
  lemma ReadsInBoundsMeaning(len: nat, width: nat, height: nat, pixelSize: nat)
    ensures ReadsInBounds(len, width, height, pixelSize) <==>
      forall h, w, c | 0 <= h < height && 0 <= w < width && 0 <= c < 3 ::
        SourceIndex(width, pixelSize, h, w, c) < len
  {
    if width > 0 && height > 0 {
      SourceIndexIsOffset(width, pixelSize, height - 1, width - 1, 2);
      assert (height - 1) * width + (width - 1) == height * width - 1;
      if ReadsInBounds(len, width, height, pixelSize) {
        forall h, w, c | 0 <= h < height && 0 <= w < width && 0 <= c < 3
          ensures SourceIndex(width, pixelSize, h, w, c) < len
        {
          SourceIndexBelowLast(width, height, pixelSize, h, w, c);
        }
      }
    }
  }

  /** A frame that passes the length check is read only in bounds, as long
      as a pixel has at least three bytes and the expected size fits a `u32`. */
  lemma CheckedFrameReadsInBounds(len: nat, width: u32, height: u32, pixelSize: nat)
    requires SizeMatches(len, width, height, pixelSize)
    requires pixelSize >= 3 && width * height * pixelSize < U32_MODULUS
    ensures ReadsInBounds(len, width, height, pixelSize)
  {
    var n := width * height * pixelSize;
    assert len % U32_MODULUS == n;
    assert n <= len;
    if width > 0 && height > 0 {
      assert (height * width - 1) * pixelSize + 2 == n - pixelSize + 2;
    }
  }

  /** With fewer than three bytes per pixel, a correctly sized, non-empty
      frame always makes the conversion read past its end. */
  lemma NarrowPixelsReadOutOfBounds(width: u32, height: u32, pixelSize: nat)
    requires pixelSize < 3 && width > 0 && height > 0
    ensures !ReadsInBounds(width * height * pixelSize, width, height, pixelSize)
  {
    assert (height * width - 1) * pixelSize + 2 == width * height * pixelSize - pixelSize + 2;
  }

  /** One cell of the converted frame: zero in a padding column, otherwise
      channel `c` of pixel (h, w). */
  function Cell(data: seq<byte>, width: nat, height: nat, pixelSize: nat, h: nat, w: nat, c: nat): byte
    requires ReadsInBounds(|data|, width, height, pixelSize)
    requires h < height && c < 3
  {
    if w >= width then 0
    else
      SourceIndexBelowLast(width, height, pixelSize, h, w, c);
      data[SourceIndex(width, pixelSize, h, w, c)]
  }

  /** The conversion `Array3::from_shape_fn((height, even_width, 3), ...)`. */
  function ConvertFrame(data: seq<byte>, width: nat, height: nat, pixelSize: nat): (frame: Frame)
    requires ReadsInBounds(|data|, width, height, pixelSize)
    ensures HasShape(frame, height, EvenWidth(width), 3)
  {
    seq(height, h requires 0 <= h < height =>
      seq(EvenWidth(width), w requires 0 <= w < EvenWidth(width) =>
        seq(3, c requires 0 <= c < 3 => Cell(data, width, height, pixelSize, h, w, c))))
  }

  /** The converted frame keeps the first three bytes of every source pixel
      in place and fills the padding columns with zero. */
  lemma ConvertFrameLayout(data: seq<byte>, width: nat, height: nat, pixelSize: nat, h: nat, w: nat)
    requires ReadsInBounds(|data|, width, height, pixelSize)
    requires h < height && w < EvenWidth(width)
    ensures w >= width ==> ConvertFrame(data, width, height, pixelSize)[h][w] == [0, 0, 0]
    ensures w < width ==>
      PixelOffset(width, pixelSize, h, w) + 3 <= |data| &&
      ConvertFrame(data, width, height, pixelSize)[h][w] ==
        data[PixelOffset(width, pixelSize, h, w)..PixelOffset(width, pixelSize, h, w) + 3]
  {
    var pixel := ConvertFrame(data, width, height, pixelSize)[h][w];
    if w < width {
      var o := PixelOffset(width, pixelSize, h, w);
      SourceIndexBelowLast(width, height, pixelSize, h, w, 2);
      SourceIndexIsOffset(width, pixelSize, h, w, 2);
      forall c | 0 <= c < 3 ensures pixel[c] == data[o + c] {
        SourceIndexIsOffset(width, pixelSize, h, w, c);
      }
    }
  }

  /** Conversely, no kept byte is lost: channel c < 3 of the p-th pixel in
      row-major order appears in the converted frame, at row p / width and
      column p % width. */
  lemma ConvertFrameKeepsEveryPixel(data: seq<byte>, width: nat, height: nat, pixelSize: nat, p: nat, c: nat)
    requires ReadsInBounds(|data|, width, height, pixelSize)
    requires p < width * height && c < 3
    ensures width > 0 && p / width < height && p * pixelSize + c < |data|
    ensures ConvertFrame(data, width, height, pixelSize)[p / width][p % width][c] == data[p * pixelSize + c]
  {
    var h, w := p / width, p % width;
    RowOfPixel(p, width, height);
    SourceIndexBelowLast(width, height, pixelSize, h, w, c);
    SourceIndexIsOffset(width, pixelSize, h, w, c);
    assert PixelOffset(width, pixelSize, h, w) == p * pixelSize;
  }

  lemma RowOfPixel(p: nat, width: nat, height: nat)
    requires p < width * height
    ensures width > 0 && p / width < height && p == (p / width) * width + p % width
  {
    if p / width >= height {
      MulMonotone(height, p / width, width);
    }
  }

  // ---------------------------------------------------------------------
  // The worker loop, as a specification over the message sequence

  /** A message the loop encodes: frame data that passes the length check
      and that the conversion can read without panicking. */
  predicate Accepted(m: Payload, cfg: WorkerConfig)
  {
    && m.Data?
    && SizeMatches(|m.bytes|, cfg.width, cfg.height, cfg.pixelSize)
    && ReadsInBounds(|m.bytes|, cfg.width, cfg.height, cfg.pixelSize)
  }

  /** The number of messages the worker encodes: the index of the first
      message it does not encode, or the length of the inbox. */
  function StopIndex(inbox: seq<Payload>, cfg: WorkerConfig): (n: nat)
    ensures n <= |inbox|
    ensures forall k | 0 <= k < n :: Accepted(inbox[k], cfg)
    ensures n < |inbox| ==> !Accepted(inbox[n], cfg)
  {
    if inbox == [] || !Accepted(inbox[0], cfg) then 0
    else 1 + StopIndex(inbox[1..], cfg)
  }

  /** How the loop ends, decided by the message at StopIndex. */
  function ExitOf(inbox: seq<Payload>, cfg: WorkerConfig): Exit
  {
    var n := StopIndex(inbox, cfg);
    if n == |inbox| then ChannelClosed
    else match inbox[n]
      case Terminate => Terminated
      case Data(_, bytes) =>
        if SizeMatches(|bytes|, cfg.width, cfg.height, cfg.pixelSize) then IndexPanic else SizeRejected
  }

  function DurationOf(m: Payload): nat
  {
    if m.Data? then m.frameTime else 0
  }

  /** The total duration carried by a run of messages. */
  function SumDurations(msgs: seq<Payload>): nat
  {
    if msgs == [] then 0 else SumDurations(msgs[..|msgs| - 1]) + DurationOf(msgs[|msgs| - 1])
  }

  /** The position at which the k-th message is encoded: the durations of
      the messages before it, added up from zero. */
  function Position(inbox: seq<Payload>, k: nat): nat
    requires k <= |inbox|
  {
    SumDurations(inbox[..k])
  }

  lemma PositionStartsAtZero(inbox: seq<Payload>)
    ensures Position(inbox, 0) == 0
  {
  }

  /** Each encoded frame moves the position on by its own duration. */
  lemma PositionAdvancesByDuration(inbox: seq<Payload>, k: nat)
    requires k < |inbox|
    ensures Position(inbox, k + 1) == Position(inbox, k) + DurationOf(inbox[k])
  {
    assert inbox[..k + 1][..k] == inbox[..k];
  }

  /** Encoding positions never go backwards. */
  lemma {:induction false} PositionsNonDecreasing(inbox: seq<Payload>, j: nat, k: nat)
    requires j <= k <= |inbox|
    ensures Position(inbox, j) <= Position(inbox, k)
  {
    if j < k {
      PositionsNonDecreasing(inbox, j, k - 1);
      PositionAdvancesByDuration(inbox, k - 1);
    }
  }

  /** The calls the worker makes on the encoder: one Encode per accepted
      frame at its position, then Finish when the loop was left normally. */
  function ExpectedCalls(inbox: seq<Payload>, cfg: WorkerConfig): seq<EncoderCall>
  {
    EncodedPrefix(inbox, cfg, StopIndex(inbox, cfg))
    + (if Finalizes(ExitOf(inbox, cfg)) then [Finish] else [])
  }

  /** The Encode calls for the first n messages, all of them accepted. */
  function EncodedPrefix(inbox: seq<Payload>, cfg: WorkerConfig, n: nat): seq<EncoderCall>
    requires n <= StopIndex(inbox, cfg)
  {
    seq(n, k requires 0 <= k < n =>
      Encode(ConvertFrame(inbox[k].bytes, cfg.width, cfg.height, cfg.pixelSize), Position(inbox, k)))
  }

  /** A frame of the wrong length is not encoded and nothing after it is;
      if it is the first message the loop does not encode, the worker
      returns without finishing the encoder. */
  lemma MismatchStopsEncoding(inbox: seq<Payload>, cfg: WorkerConfig, k: nat)
    requires k < |inbox| && inbox[k].Data?
    requires !SizeMatches(|inbox[k].bytes|, cfg.width, cfg.height, cfg.pixelSize)
    ensures StopIndex(inbox, cfg) <= k
    ensures StopIndex(inbox, cfg) == k ==>
      ExitOf(inbox, cfg) == SizeRejected && Finish !in ExpectedCalls(inbox, cfg)
  {
    if StopIndex(inbox, cfg) == k {
      var calls := ExpectedCalls(inbox, cfg);
      assert forall i | 0 <= i < |calls| :: calls[i].Encode?;
    }
  }

  /** No message at or after a Terminate is encoded; when the Terminate is
      reached, the encoder is finished. */
  lemma TerminateStopsEncoding(inbox: seq<Payload>, cfg: WorkerConfig, k: nat)
    requires k < |inbox| && inbox[k] == Terminate
    ensures StopIndex(inbox, cfg) <= k
    ensures StopIndex(inbox, cfg) == k ==>
      && ExitOf(inbox, cfg) == Terminated
      && ExpectedCalls(inbox, cfg)[|ExpectedCalls(inbox, cfg)| - 1] == Finish
  {
  }

  /** Finish is called at most once, as the last call, and exactly when the
      loop was left through Terminate or the channel closing. */
  lemma FinishOnlyAtTheEnd(inbox: seq<Payload>, cfg: WorkerConfig)
    ensures var calls := ExpectedCalls(inbox, cfg);
      && (Finish in calls <==> Finalizes(ExitOf(inbox, cfg)))
      && forall i | 0 <= i < |calls| - 1 :: calls[i].Encode?
  {
  }

  /** Whatever follows the message that ends the loop is never looked at. */
  lemma {:induction false} LaterMessagesIgnored(inbox: seq<Payload>, rest: seq<Payload>, cfg: WorkerConfig)
    requires StopIndex(inbox, cfg) < |inbox|
    ensures StopIndex(inbox + rest, cfg) == StopIndex(inbox, cfg)
    ensures ExitOf(inbox + rest, cfg) == ExitOf(inbox, cfg)
    ensures ExpectedCalls(inbox + rest, cfg) == ExpectedCalls(inbox, cfg)
  {
    if Accepted(inbox[0], cfg) {
      assert (inbox + rest)[1..] == inbox[1..] + rest;
      LaterMessagesIgnored(inbox[1..], rest, cfg);
    }
    forall k | 0 <= k < StopIndex(inbox, cfg)
      ensures Position(inbox + rest, k) == Position(inbox, k)
    {
      assert (inbox + rest)[..k] == inbox[..k];
    }
  }

  // ---------------------------------------------------------------------
  // The encoder and the worker

  /** The external video encoder, reduced to the calls made on it. */
  class Encoder {
    const path: Option<string>
    const width: nat
    const height: nat
    var calls: seq<EncoderCall>

    /** `Encoder::new(path, preset_h264_yuv420p(width, height, false))`. */
    constructor (path: Option<string>, width: nat, height: nat)
      ensures this.path == path && this.width == width && this.height == height
      ensures calls == []
    {
      this.path := path;
      this.width := width;
      this.height := height;
      calls := [];
    }

    /** `encode(&frame, position)`: frames must match the encoder's size. */
    method Encode(frame: Frame, position: nat)
      requires HasShape(frame, height, width, 3)
      modifies this
      ensures calls == old(calls) + [EncoderCall.Encode(frame, position)]
    {
      calls := calls + [EncoderCall.Encode(frame, position)];
    }

    /** `finish()`: closes the output container. */
    method Finish()
      modifies this
      ensures calls == old(calls) + [EncoderCall.Finish]
    {
      calls := calls + [EncoderCall.Finish];
    }
  }

  /** The worker task: receive messages until Terminate, the channel
      closing, a length mismatch or a conversion panic, encoding each
      accepted frame at the running position. Returns the calls made on the
      encoder and how the loop ended. */
  method RunWorker(cfg: WorkerConfig, inbox: seq<Payload>) returns (calls: seq<EncoderCall>, exit: Exit)
    ensures exit == ExitOf(inbox, cfg)
    ensures calls == ExpectedCalls(inbox, cfg)
  {
    var evenWidth := EvenWidth(cfg.width);
    var encoder := new Encoder(cfg.path, evenWidth, cfg.height);
    var position := 0;
    var i := 0;
    exit := ChannelClosed;
    while i < |inbox|
      invariant i <= StopIndex(inbox, cfg)
      invariant position == Position(inbox, i)
      invariant encoder.width == evenWidth && encoder.height == cfg.height
      invariant encoder.calls == EncodedPrefix(inbox, cfg, i)
      decreases |inbox| - i
    {
      match inbox[i] {
        case Terminate =>
          exit := Terminated;
          break;
        case Data(frameTime, bytes) =>
          if !SizeMatches(|bytes|, cfg.width, cfg.height, cfg.pixelSize) {
            // log::error! and return before calling finish(): no Finish call is recorded
            calls, exit := encoder.calls, SizeRejected;
            return;
          }
          if !ReadsInBounds(|bytes|, cfg.width, cfg.height, cfg.pixelSize) {
            calls, exit := encoder.calls, IndexPanic;
            return;
          }
          var frame := ConvertFrame(bytes, cfg.width, cfg.height, cfg.pixelSize);
          encoder.Encode(frame, position);
          assert encoder.calls == EncodedPrefix(inbox, cfg, i + 1);
          position := position + frameTime;
          PositionAdvancesByDuration(inbox, i);
          i := i + 1;
      }
    }
    encoder.Finish();
    calls := encoder.calls;
  }
}
