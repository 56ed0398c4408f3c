/** The initial drawing canvas: a 512 x 512 x 3 image, Sky colour above row 300 and Sea colour below. */
module Canvas {
  import opened Pixels

  /** The assignment img[i, 0:width] = c: every pixel of row i becomes c. */
  method FillRow(img: array3<Byte>, i: nat, c: Rgb)
    requires i < img.Length0 && img.Length2 == 3
    modifies img
    ensures forall j, k | 0 <= j < img.Length1 && 0 <= k < 3 :: img[i, j, k] == c.Channel(k)
    ensures forall x, y, k | 0 <= x < img.Length0 && 0 <= y < img.Length1 && 0 <= k < 3 && x != i ::
      img[x, y, k] == old(img[x, y, k])
  {
    for j := 0 to img.Length1
      invariant forall y, k | 0 <= y < j && 0 <= k < 3 :: img[i, y, k] == c.Channel(k)
      invariant forall x, y, k | 0 <= x < img.Length0 && 0 <= y < img.Length1 && 0 <= k < 3 && (x != i || j <= y) ::
        img[x, y, k] == old(img[x, y, k])
    {
      img[i, j, 0], img[i, j, 1], img[i, j, 2] := c.r, c.g, c.b;
    }
  }

  /** The slice assignment img[lo:hi, 0:width] = c: every pixel of rows lo..hi-1 becomes c. */
  method FillRows(img: array3<Byte>, lo: nat, hi: nat, c: Rgb)
    requires lo <= hi <= img.Length0 && img.Length2 == 3
    modifies img
    ensures forall i, j, k | lo <= i < hi && 0 <= j < img.Length1 && 0 <= k < 3 :: img[i, j, k] == c.Channel(k)
    ensures forall i, j, k | 0 <= i < img.Length0 && 0 <= j < img.Length1 && 0 <= k < 3 && !(lo <= i < hi) ::
      img[i, j, k] == old(img[i, j, k])
  {
    for i := lo to hi
      invariant forall x, y, k | lo <= x < i && 0 <= y < img.Length1 && 0 <= k < 3 :: img[x, y, k] == c.Channel(k)
      invariant forall x, y, k | 0 <= x < img.Length0 && 0 <= y < img.Length1 && 0 <= k < 3 && !(lo <= x < i) ::
        img[x, y, k] == old(img[x, y, k])
    {
      FillRow(img, i, c);
    }
  }

  /**
   * make_canvas: a fresh zero image of 512 x 512 x 3 whose rows 0..299 are then set
   * to the Sky colour and rows 300..511 to the Sea colour.
   */
  method MakeCanvas(sky: Rgb, sea: Rgb) returns (img: array3<Byte>)
    ensures fresh(img)
    ensures img.Length0 == CanvasSide && img.Length1 == CanvasSide && img.Length2 == 3
    ensures forall i, j | 0 <= i < SkyRows && 0 <= j < CanvasSide :: PixelAt(img, i, j) == sky
    ensures forall i, j | SkyRows <= i < CanvasSide && 0 <= j < CanvasSide :: PixelAt(img, i, j) == sea
    ensures forall i, j | 0 <= i < CanvasSide && 0 <= j < CanvasSide :: PixelAt(img, i, j) == Background(i, sky, sea)
  {
    img := new Byte[CanvasSide, CanvasSide, 3]((i, j, k) => 0);
    FillRows(img, 0, SkyRows, sky);
    FillRows(img, SkyRows, CanvasSide, sea);
    forall i, j | 0 <= i < CanvasSide && 0 <= j < CanvasSide
      ensures PixelAt(img, i, j) == Background(i, sky, sea)
    {
      var bg := Background(i, sky, sea);
      assert img[i, j, 0] == bg.Channel(0) && img[i, j, 1] == bg.Channel(1) && img[i, j, 2] == bg.Channel(2);
    }
  }
}
