/** scaleImageToWidth (main.go:432-468): nearest-neighbour downscaling to a
    target width, never upscaling. The float64 arithmetic of the source is
    modelled exactly: the scale is the rational targetWidth / srcWidth, so
    the source offset of destination index i is floor(i * srcWidth /
    targetWidth) and the height is floor(srcHeight * targetWidth /
    srcWidth), truncated as `int(...)` truncates. */
module Resample {
  import opened Raster
  import opened Arith

  /** `int(float64(i) / scale)` (main.go:452-453) in exact arithmetic. */
  function ExactOffset(i: nat, srcWidth: nat, targetWidth: int): nat
    requires targetWidth > 0
  {
    i * srcWidth / targetWidth
  }

  /** `int(float64(srcHeight) * scale)` (main.go:444) in exact arithmetic. */
  function ScaledHeight(img: Picture, targetWidth: int): nat
    requires img.Valid() && 0 < targetWidth < img.Width()
  {
    img.Height() * targetWidth / img.Width()
  }

  /** The pixel written at (x, y) by main.go:452-463, with both clamps. */
  function ScaledPixel(img: Picture, targetWidth: int, x: nat, y: nat): Rgba8
    requires img.Valid() && 0 < targetWidth < img.Width()
    requires x < targetWidth && y < ScaledHeight(img, targetWidth)
  {
    var srcWidth, srcHeight := img.Width(), img.Height();
    var srcX := ExactOffset(x, srcWidth, targetWidth);
    var srcY := ExactOffset(y, srcWidth, targetWidth);
    var clampedX := if srcX >= srcWidth then srcWidth - 1 else srcX;
    var clampedY := if srcY >= srcHeight then srcHeight - 1 else srcY;
    Narrow(img.At(img.bounds.minX + clampedX, img.bounds.minY + clampedY))
  }

  /** The image scaleImageToWidth builds when it does scale: a buffer with
      origin (0, 0), the target width and the truncated height, read back
      through image.Image. */
  function Scaled(img: Picture, targetWidth: int): Picture
    requires img.Valid() && 0 < targetWidth < img.Width()
  {
    var th := ScaledHeight(img, targetWidth);
    Picture(Rect(0, 0, targetWidth, th),
            seq(th, i requires 0 <= i < th =>
              seq(targetWidth, j requires 0 <= j < targetWidth => Widen(ScaledPixel(img, targetWidth, j, i)))))
  }

  /** scaleImageToWidth: returns the input itself when it is no wider than
      the target, and otherwise fills a new RGBA buffer row by row. */
  method ScaleImageToWidth(img: Picture, targetWidth: int) returns (r: Picture)
    requires img.Valid() && targetWidth > 0
    ensures r == if img.Width() <= targetWidth then img else Scaled(img, targetWidth)
  {
    var bounds := img.bounds;
    var srcWidth := bounds.maxX - bounds.minX;
    var srcHeight := bounds.maxY - bounds.minY;
    if srcWidth <= targetWidth {
      return img;
    }
    var targetHeight := srcHeight * targetWidth / srcWidth;
    assert targetHeight == ScaledHeight(img, targetWidth);
    var scaled := new RgbaImage(Rect(0, 0, targetWidth, targetHeight));
    var y := 0;
    while y < targetHeight
      invariant 0 <= y <= targetHeight
      invariant forall i, j :: 0 <= i < y && 0 <= j < targetWidth ==>
                  scaled.pix[i, j] == ScaledPixel(img, targetWidth, j, i)
    {
      ScaleRow(img, targetWidth, scaled, y);
      y := y + 1;
    }
    r := scaled.Snapshot();
    assert forall i, j :: 0 <= i < targetHeight && 0 <= j < targetWidth ==>
             r.pix[i][j] == Widen(ScaledPixel(img, targetWidth, j, i));
    ScaledFrom(img, targetWidth, r);
  }

  /** A picture over the scaled bounds whose every pixel is the widened
      scaled pixel is the scaled image. */
  lemma ScaledFrom(img: Picture, targetWidth: int, r: Picture)
    requires img.Valid() && 0 < targetWidth < img.Width()
    requires r.Valid() && r.bounds == Rect(0, 0, targetWidth, ScaledHeight(img, targetWidth))
    requires forall i, j :: 0 <= i < ScaledHeight(img, targetWidth) && 0 <= j < targetWidth ==>
               r.pix[i][j] == Widen(ScaledPixel(img, targetWidth, j, i))
    ensures r == Scaled(img, targetWidth)
  {
    SamePixels(r, Scaled(img, targetWidth));
  }

  /** One pass of the inner loop (main.go:451-464): fills row y of the
      buffer and leaves the other rows as they were. */
  method ScaleRow(img: Picture, targetWidth: int, scaled: RgbaImage, y: int)
    requires img.Valid() && 0 < targetWidth < img.Width()
    requires scaled.Valid() && scaled.rect == Rect(0, 0, targetWidth, ScaledHeight(img, targetWidth))
    requires 0 <= y < ScaledHeight(img, targetWidth)
    modifies scaled.pix
    ensures forall j :: 0 <= j < targetWidth ==> scaled.pix[y, j] == ScaledPixel(img, targetWidth, j, y)
    ensures forall i, j :: 0 <= i < scaled.pix.Length0 && 0 <= j < scaled.pix.Length1 && i != y ==>
              scaled.pix[i, j] == old(scaled.pix[i, j])
  {
    var bounds := img.bounds;
    var srcWidth := bounds.maxX - bounds.minX;
    var srcHeight := bounds.maxY - bounds.minY;
    var x := 0;
    while x < targetWidth
      invariant 0 <= x <= targetWidth
      invariant forall j :: 0 <= j < x ==> scaled.pix[y, j] == ScaledPixel(img, targetWidth, j, y)
      invariant forall i, j :: 0 <= i < scaled.pix.Length0 && 0 <= j < scaled.pix.Length1 && i != y ==>
                  scaled.pix[i, j] == old(scaled.pix[i, j])
    {
      var srcX := ExactOffset(x, srcWidth, targetWidth);
      var srcY := ExactOffset(y, srcWidth, targetWidth);
      if srcX >= srcWidth {
        srcX := srcWidth - 1;
      }
      if srcY >= srcHeight {
        srcY := srcHeight - 1;
      }
      scaled.Set(x, y, Narrow(img.At(bounds.minX + srcX, bounds.minY + srcY)));
      assert scaled.pix[y, x] == ScaledPixel(img, targetWidth, x, y);
      x := x + 1;
    }
  }

  /** The height is srcHeight * targetWidth / srcWidth truncated: it
      undershoots the exact proportional height by less than one row, and
      never exceeds the source height. */
  lemma {:induction false} ScaledHeightIsTruncation(img: Picture, targetWidth: int)
    requires img.Valid() && 0 < targetWidth < img.Width()
    ensures var th, w, h := ScaledHeight(img, targetWidth), img.Width(), img.Height();
      th * w <= h * targetWidth < (th + 1) * w && th <= h
  {
    var th, w, h := ScaledHeight(img, targetWidth), img.Width(), img.Height();
    assert h * targetWidth == th * w + (h * targetWidth) % w;
    MulMonotone(targetWidth, w, h);
    assert h * targetWidth <= h * w;
    DivBelow(h * targetWidth, h + 1, w);
  }

  /** In exact arithmetic the clamps of main.go:456-461 never fire: every
      destination pixel maps to a source offset already inside the source. */
  lemma {:induction false} ClampsNeverFire(img: Picture, targetWidth: int, x: nat, y: nat)
    requires img.Valid() && 0 < targetWidth < img.Width()
    requires x < targetWidth && y < ScaledHeight(img, targetWidth)
    ensures ExactOffset(x, img.Width(), targetWidth) < img.Width()
    ensures ExactOffset(y, img.Width(), targetWidth) < img.Height()
  {
    var w, h, th := img.Width(), img.Height(), ScaledHeight(img, targetWidth);
    MulMonotone(x + 1, targetWidth, w);
    MulSucc(x, w);
    assert x * w < w * targetWidth;
    DivBelow(x * w, w, targetWidth);
    ScaledHeightIsTruncation(img, targetWidth);
    MulMonotone(y + 1, th, w);
    MulSucc(y, w);
    assert y * w < h * targetWidth;
    DivBelow(y * w, h, targetWidth);
  }

  /** The scaled image has origin (0, 0), exactly the target width and the
      truncated height, and its pixel (x, y) is the high bytes of source
      pixel (minX + x * srcWidth / targetWidth, minY + y * srcWidth / targetWidth). */
  lemma {:induction false} ScaledSamplesNearestNeighbour(img: Picture, targetWidth: int, x: nat, y: nat)
    requires img.Valid() && 0 < targetWidth < img.Width()
    requires x < targetWidth && y < ScaledHeight(img, targetWidth)
    ensures var s := Scaled(img, targetWidth);
      var srcX, srcY := x * img.Width() / targetWidth, y * img.Width() / targetWidth;
      && s.Valid()
      && s.bounds == Rect(0, 0, targetWidth, img.Height() * targetWidth / img.Width())
      && img.bounds.Contains(img.bounds.minX + srcX, img.bounds.minY + srcY)
      && s.At(x, y) == Widen(Narrow(img.At(img.bounds.minX + srcX, img.bounds.minY + srcY)))
  {
    ClampsNeverFire(img, targetWidth, x, y);
  }

  /** A wide image is never upscaled: the result is exactly the target
      width, and no taller than the source. */
  lemma {:induction false} ScalingShrinks(img: Picture, targetWidth: int)
    requires img.Valid() && 0 < targetWidth < img.Width()
    ensures Scaled(img, targetWidth).Valid()
    ensures Scaled(img, targetWidth).Width() == targetWidth
    ensures Scaled(img, targetWidth).Height() <= img.Height()
  {
    ScaledHeightIsTruncation(img, targetWidth);
  }
}
