/** How the readback step and the encode worker fit together: a frame read
    back for an image is sized so that a worker started for the same image
    accepts it. (The hand-over from `last_frame` to a recorder's frame list
    happens in src/management.rs, which is not part of this model.) */
module Pipeline {
  import opened Common
  import Render
  import Mp4Worker

  /** A buffer read back for an image passes the worker's length check for
      that image, overflow or not, since both sides truncate the same
      product to `u32`. When a pixel has at least three bytes and the
      product fits a `u32`, the worker encodes such a frame. */
  lemma ReadbackFrameAccepted(image: Render.RenderImage, bytes: seq<byte>, frameTime: nat, path: Option<string>)
    requires |bytes| == Render.DestinationSize(image)
    ensures Mp4Worker.SizeMatches(|bytes|, image.width, image.height, image.pixelSize)
    ensures image.pixelSize >= 3 && image.width * image.height * image.pixelSize < U32_MODULUS ==>
      Mp4Worker.Accepted(Mp4Worker.Data(frameTime, bytes),
                         Mp4Worker.WorkerConfig(image.width, image.height, image.pixelSize, path))
  {
    if image.pixelSize >= 3 && image.width * image.height * image.pixelSize < U32_MODULUS {
      Mp4Worker.CheckedFrameReadsInBounds(|bytes|, image.width, image.height, image.pixelSize);
    }
  }
}
