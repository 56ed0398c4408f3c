/**
 * The background repaint applied to a saved drawing. The canvas widget returns the
 * strokes without the background, so every black pixel is replaced by the background
 * colour of its row and every 255 channel of any other pixel by that channel of the
 * background colour.
 */
module Repaint {
  import opened Pixels

  /** One channel of a non-black pixel: a 255 channel takes the background's value. */
  function RepaintChannel(v: Byte, background: Byte): Byte
  {
    if v == 255 then background else v
  }

  /** The colour a pixel p of row i has after the repaint. */
  function RepaintPixel(p: Rgb, i: int, sky: Rgb, sea: Rgb): Rgb
  {
    var bg := Background(i, sky, sea);
    if p == Black then bg
    else Rgb(RepaintChannel(p.r, bg.r), RepaintChannel(p.g, bg.g), RepaintChannel(p.b, bg.b))
  }

  /** The rule channel by channel: a black pixel takes the background; otherwise only 255 channels change. */
  lemma RepaintPixelChannel(p: Rgb, i: int, sky: Rgb, sea: Rgb, k: int)
    requires 0 <= k < 3
    ensures p == Black ==> RepaintPixel(p, i, sky, sea) == Background(i, sky, sea)
    ensures p != Black && p.Channel(k) == 255 ==>
      RepaintPixel(p, i, sky, sea).Channel(k) == Background(i, sky, sea).Channel(k)
    ensures p != Black && p.Channel(k) != 255 ==> RepaintPixel(p, i, sky, sea).Channel(k) == p.Channel(k)
  {
  }

  /** After the repaint a channel is 255 only where the row's background channel is 255. */
  lemma RepaintLeavesNoWhite(p: Rgb, i: int, sky: Rgb, sea: Rgb, k: int)
    requires 0 <= k < 3
    requires RepaintPixel(p, i, sky, sea).Channel(k) == 255
    ensures Background(i, sky, sea).Channel(k) == 255
  {
  }

  /** A stroke colour with no 255 channel survives the repaint unchanged. */
  lemma RepaintKeepsStrokes(p: Rgb, i: int, sky: Rgb, sea: Rgb)
    requires p != Black && p.r != 255 && p.g != 255 && p.b != 255
    ensures RepaintPixel(p, i, sky, sea) == p
  {
  }

  /** The initial canvas is left as it is: the background colour of a row repaints to itself. */
  lemma RepaintKeepsBackground(i: int, sky: Rgb, sea: Rgb)
    ensures RepaintPixel(Background(i, sky, sea), i, sky, sea) == Background(i, sky, sea)
  {
  }

  /**
   * The body of the column loop for pixel (i, j): a black pixel is overwritten as a whole,
   * otherwise each channel equal to 255 is overwritten by the background channel. Each
   * test reads only the channel it rewrites, so the result depends only on the old pixel.
   */
  method RepaintPixelAt(a: array3<Byte>, i: nat, j: nat, sky: Rgb, sea: Rgb)
    requires a.Length2 == 3 && i < a.Length0 && j < a.Length1
    modifies a
    ensures PixelAt(a, i, j) == RepaintPixel(old(PixelAt(a, i, j)), i, sky, sea)
    ensures forall x, y, k | 0 <= x < a.Length0 && 0 <= y < a.Length1 && 0 <= k < 3 && (x != i || y != j) ::
      a[x, y, k] == old(a[x, y, k])
  {
    if [a[i, j, 0], a[i, j, 1], a[i, j, 2]] != [0, 0, 0] {
      ghost var bg := Background(i, sky, sea);
      for k := 0 to 3
        invariant forall c | 0 <= c < k :: a[i, j, c] == RepaintChannel(old(a[i, j, c]), bg.Channel(c))
        invariant forall c | k <= c < 3 :: a[i, j, c] == old(a[i, j, c])
        invariant forall x, y, c | 0 <= x < a.Length0 && 0 <= y < a.Length1 && 0 <= c < 3 && (x != i || y != j) ::
          a[x, y, c] == old(a[x, y, c])
      {
        if a[i, j, k] == 255 {
          a[i, j, k] := if i < SkyRows then sky.Channel(k) else sea.Channel(k);
        }
      }
    } else {
      var bg := if i < SkyRows then sky else sea;
      a[i, j, 0], a[i, j, 1], a[i, j, 2] := bg.r, bg.g, bg.b;
    }
  }

  /**
   * The nested loop of draw over a height x width x 3 buffer: after it every pixel
   * is the repaint of its original value for its row, and the shape is unchanged.
   */
  method RepaintBackground(a: array3<Byte>, sky: Rgb, sea: Rgb)
    requires a.Length2 == 3
    modifies a
    ensures forall i, j | 0 <= i < a.Length0 && 0 <= j < a.Length1 ::
      PixelAt(a, i, j) == RepaintPixel(old(PixelAt(a, i, j)), i, sky, sea)
    ensures forall i, j | 0 <= i < a.Length0 && 0 <= j < a.Length1 && old(PixelAt(a, i, j)) == Black ::
      PixelAt(a, i, j) == Background(i, sky, sea)
    ensures forall i, j, k | 0 <= i < a.Length0 && 0 <= j < a.Length1 && 0 <= k < 3 && old(PixelAt(a, i, j)) != Black ::
      a[i, j, k] == (if old(a[i, j, k]) == 255 then Background(i, sky, sea).Channel(k) else old(a[i, j, k]))
  {
    var i := 0;
    while i < a.Length0
      invariant 0 <= i <= a.Length0
      invariant forall x, y | 0 <= x < i && 0 <= y < a.Length1 ::
        PixelAt(a, x, y) == RepaintPixel(old(PixelAt(a, x, y)), x, sky, sea)
      invariant forall x, y, c | i <= x < a.Length0 && 0 <= y < a.Length1 && 0 <= c < 3 :: a[x, y, c] == old(a[x, y, c])
    {
      var j := 0;
      while j < a.Length1
        invariant 0 <= j <= a.Length1
        invariant forall x, y | 0 <= x < i && 0 <= y < a.Length1 ::
          PixelAt(a, x, y) == RepaintPixel(old(PixelAt(a, x, y)), x, sky, sea)
        invariant forall y | 0 <= y < j :: PixelAt(a, i, y) == RepaintPixel(old(PixelAt(a, i, y)), i, sky, sea)
        invariant forall y, c | j <= y < a.Length1 && 0 <= c < 3 :: a[i, y, c] == old(a[i, y, c])
        invariant forall x, y, c | i < x < a.Length0 && 0 <= y < a.Length1 && 0 <= c < 3 :: a[x, y, c] == old(a[x, y, c])
      {
        RepaintPixelAt(a, i, j, sky, sea);
        j := j + 1;
      }
      i := i + 1;
    }
    forall i, j, k | 0 <= i < a.Length0 && 0 <= j < a.Length1 && 0 <= k < 3
      ensures old(PixelAt(a, i, j)) != Black ==>
        a[i, j, k] == (if old(a[i, j, k]) == 255 then Background(i, sky, sea).Channel(k) else old(a[i, j, k]))
    {
      RepaintPixelChannel(old(PixelAt(a, i, j)), i, sky, sea, k);
    }
  }
}
