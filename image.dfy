/** The in-memory pixel grid the codec reads from and writes into.
    Row 0 is the top of the picture; each pixel holds red, green and blue. */
module Images {
  import opened ByteOrder

  datatype Color = Color(r: byte, g: byte, b: byte)

  /** The fill colour of a freshly allocated decoded image. */
  const Black: Color := Color(0, 0, 0)

  /** A grid of `height` rows of `width` pixels each, addressed row first. */
  datatype Image = Image(width: nat, height: nat, pixels: seq<seq<Color>>) {
    predicate Valid() {
      |pixels| == height && forall y :: 0 <= y < height ==> |pixels[y]| == width
    }
  }

  /** A `width` by `height` image every pixel of which is `fill`. */
  function Filled(width: nat, height: nat, fill: Color): (img: Image)
    ensures img.Valid() && img.width == width && img.height == height
    ensures forall y, x :: 0 <= y < height && 0 <= x < width ==> img.pixels[y][x] == fill
  {
    Image(width, height, seq(height, _ => seq(width, _ => fill)))
  }
}
