/** The GPU readback step (`render.rs`): once per render tick, every
    recorder whose target image resolves gets that image's pixels copied
    into a buffer of exactly width * height * pixel-size bytes, and the
    buffer becomes the recorder's `last_frame`.

    The GPU copy, submission, `map_async` and `poll` are one abstract
    readback function: given the target, the copy layout and the buffer
    size, it yields the mapped bytes or fails. */
module Render {
  import opened Common

  type RecorderId = nat

  /** wgpu's `ImageDataLayout`. */
  datatype ImageDataLayout = ImageDataLayout(offset: nat, bytesPerRow: Option<u32>, rowsPerImage: Option<u32>)

  /** A render image as the readback sees it: its size and bytes per pixel. */
  datatype RenderImage = RenderImage(width: u32, height: u32, pixelSize: nat)

  /** A recorder of the shared smuggler map: its target and the last frame
      read back for it. */
  datatype SmuggledRecorder = SmuggledRecorder(targetHandle: ImageHandle, lastFrame: Option<seq<byte>>)

  /** The GPU round trip: texture, layout and buffer size to mapped bytes,
      or None when mapping fails. */
  type Readback = (ImageHandle, ImageDataLayout, nat) -> Option<seq<byte>>

  /** A successful mapping yields the whole buffer. */
  ghost predicate FillsBuffer(readback: Readback)
  {
    forall handle, layout, size ::
      readback(handle, layout, size).Some? ==> |readback(handle, layout, size).value| == size
  }

  /** `NonZeroU32::new`. */
  function NonZero(x: u32): Option<u32>
  {
    if x == 0 then None else Some(x)
  }

  /** `layout_data`: a row stride only for images of more than one row,
      none when the stride is zero, and never a rows-per-image count. */
  function LayoutData(width: u32, height: u32, pixelSize: nat): (layout: ImageDataLayout)
    ensures layout.offset == 0 && layout.rowsPerImage == None
    ensures layout.bytesPerRow.Some? ==> height > 1 && layout.bytesPerRow.value > 0
  {
    ImageDataLayout(0, if height > 1 then NonZero(AsU32(width * pixelSize)) else None, None)
  }

  /** When the row stride fits a `u32`, it is exactly width * pixel-size
      bytes for a multi-row image with non-empty rows, and absent otherwise. */
  lemma LayoutRowStride(width: u32, height: u32, pixelSize: nat)
    requires width * pixelSize < U32_MODULUS
    ensures LayoutData(width, height, pixelSize).bytesPerRow ==
      if height > 1 && width * pixelSize > 0 then Some(width * pixelSize) else None
  {
  }

  /** The size of the readback buffer: the `u32` product of the sides and
      the bytes per pixel. */
  function DestinationSize(image: RenderImage): (size: nat)
    ensures size < U32_MODULUS
    ensures image.width * image.height * image.pixelSize < U32_MODULUS ==>
      size == image.width * image.height * image.pixelSize
  {
    AsU32(image.width * image.height * image.pixelSize)
  }

  /** The copy's rows exactly fill the destination buffer. */
  lemma LayoutCoversDestination(image: RenderImage)
    requires image.height > 1 && image.width * image.pixelSize > 0
    requires image.width * image.height * image.pixelSize < U32_MODULUS
    ensures var layout := LayoutData(image.width, image.height, image.pixelSize);
      layout.bytesPerRow.Some? && layout.bytesPerRow.value * image.height == DestinationSize(image)
  {
    var w, h, p := image.width, image.height, image.pixelSize;
    assert w * p <= w * h * p by {
      assert w * h * p == (w * p) * h;
      MulAtLeastOne(w * p, h);
    }
    LayoutRowStride(w, h, p);
    assert (w * p) * h == w * h * p;
  }

  lemma MulAtLeastOne(a: nat, k: nat)
    requires k >= 1
    ensures a <= a * k
  {
  }

  /** One recorder's turn in `smuggle_frame`. None: mapping failed and the
      system panics. A recorder whose target does not resolve is left as it
      is; otherwise its last frame becomes the whole mapped buffer. */
  function SmuggleOne(rec: SmuggledRecorder, images: map<ImageHandle, RenderImage>, readback: Readback)
    : (r: Option<SmuggledRecorder>)
    requires FillsBuffer(readback)
    ensures rec.targetHandle !in images ==> r == Some(rec)
    ensures r.Some? ==> r.value.targetHandle == rec.targetHandle
    ensures rec.targetHandle in images ==>
      var image := images[rec.targetHandle];
      var mapped := readback(rec.targetHandle, LayoutData(image.width, image.height, image.pixelSize),
                             DestinationSize(image));
      && (r.Some? <==> mapped.Some?)
      && (r.Some? ==> r.value.lastFrame == mapped && |mapped.value| == DestinationSize(image))
  {
    if rec.targetHandle !in images then Some(rec)
    else
      var image := images[rec.targetHandle];
      var size := DestinationSize(image);
      match readback(rec.targetHandle, LayoutData(image.width, image.height, image.pixelSize), size)
      case None => None
      case Some(bytes) => Some(rec.(lastFrame := Some(bytes)))
  }

  /** The recorder map shared with the main world (`SharedDataSmuggler`),
      held under its lock for the whole step. */
  class Smuggler {
    var recorders: map<RecorderId, SmuggledRecorder>

    constructor (recorders: map<RecorderId, SmuggledRecorder>)
      ensures this.recorders == recorders
    {
      this.recorders := recorders;
    }

    /** `smuggle_frame`: visit every recorder, in the map's unspecified
        order. Returns false when a mapping failed (a panic); recorders
        visited before it keep their new frame, the rest are untouched. */
    method SmuggleFrame(images: map<ImageHandle, RenderImage>, readback: Readback) returns (ok: bool)
      requires FillsBuffer(readback)
      modifies this
      ensures recorders.Keys == old(recorders).Keys
      ensures ok <==> forall id | id in old(recorders) :: SmuggleOne(old(recorders)[id], images, readback).Some?
      ensures forall id | id in recorders ::
        recorders[id] == old(recorders)[id] || Some(recorders[id]) == SmuggleOne(old(recorders)[id], images, readback)
      ensures ok ==> forall id | id in recorders :: Some(recorders[id]) == SmuggleOne(old(recorders)[id], images, readback)
    {
      var remaining := recorders.Keys;
      while remaining != {}
        invariant remaining <= recorders.Keys == old(recorders).Keys
        invariant forall id | id in recorders && id !in remaining ::
          Some(recorders[id]) == SmuggleOne(old(recorders)[id], images, readback)
        invariant forall id | id in remaining :: recorders[id] == old(recorders)[id]
        decreases remaining
      {
        var id :| id in remaining;
        var rec := recorders[id];
        if rec.targetHandle in images {
          var image := images[rec.targetHandle];
          var size := DestinationSize(image);
          var layout := LayoutData(image.width, image.height, image.pixelSize);
          var mapped := readback(rec.targetHandle, layout, size);
          if mapped.None? {
            // map_async's callback panics
            ok := false;
            return;
          }
          recorders := recorders[id := rec.(lastFrame := Some(mapped.value))];
        }
        remaining := remaining - {id};
      }
      ok := true;
    }
  }
}
