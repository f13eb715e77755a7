/** Pixels as OpenCV stores them for `imread` and `VideoCapture` frames. */
module Color {
  /** An `unsigned char` channel value. */
  type Byte = x: int | 0 <= x < 256

  /** A `Vec3b` pixel: channel 0 is blue, 1 is green and 2 is red (BGR order). */
  datatype Vec3b = Vec3b(blue: Byte, green: Byte, red: Byte)

  /** A row-major pixel grid; row 0 is the top of the image. */
  type Grid = seq<seq<Vec3b>>

  /** Every row of g has width pixels. */
  predicate Rectangular(g: Grid, width: nat) {
    forall y :: 0 <= y < |g| ==> |g[y]| == width
  }
}
