/** What the pipelines see of OpenCV: a matrix is either empty or holds an
    image. Capture, JPEG encoding and decoding are oracles supplied by the
    caller; only their possible outcomes matter here. */
module Media {
  import opened Bytes

  datatype Mat = EmptyMat | Image(pixels: seq<byte>)

  /** The life of one pipeline stage (a thread body): not yet entered,
      inside its loop, or returned. */
  datatype Stage = NotStarted | Running | Exited
}
