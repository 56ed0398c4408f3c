/** Pixel values shared by the initial canvas and the background repaint of a drawing. */
module Pixels {

  /** One channel of a uint8 image. */
  type Byte = x: int | 0 <= x < 256

  /** An RGB colour as the GauGAN colour table stores it (R, G, B). */
  datatype Rgb = Rgb(r: Byte, g: Byte, b: Byte) {

    /** Channel k of the colour, in R, G, B order (index k of a numpy pixel). */
    function Channel(k: int): Byte
      requires 0 <= k < 3
    {
      if k == 0 then r else if k == 1 then g else b
    }
  }

  const Black := Rgb(0, 0, 0)

  /** The canvas is CanvasSide x CanvasSide pixels. */
  const CanvasSide := 512

  /** Rows above this index show the sky, the others the sea. */
  const SkyRows := 300

  /** The background colour of row i: the Sky colour for the upper rows, the Sea colour below. */
  function Background(i: int, sky: Rgb, sea: Rgb): Rgb
  {
    if i < SkyRows then sky else sea
  }

  /** The pixel (i, j) of a height x width x 3 image buffer. */
  function PixelAt(a: array3<Byte>, i: int, j: int): Rgb
    requires a.Length2 == 3 && 0 <= i < a.Length0 && 0 <= j < a.Length1
    reads a
  {
    Rgb(a[i, j, 0], a[i, j, 1], a[i, j, 2])
  }
}
