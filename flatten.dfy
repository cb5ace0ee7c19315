/** The alpha flattening of convertPNGToOptimalJPEG (main.go:611-638): a
    new RGBA buffer with the source's bounds is first filled with opaque
    white, then every source pixel whose alpha is non-zero is blended onto
    white and written opaque. The blend is the source's: Color.RGBA()
    returns premultiplied channels, and main.go:631-634 weights their high
    bytes by alpha once more, computed here in exact arithmetic and
    truncated as the uint8 conversion truncates. */
module Flatten {
  import opened Raster
  import opened Arith

  const MaxAlpha: int := 0xFFFF

  /** `uint8(float64(ch>>8)*alpha + 255*(1-alpha))` with alpha = a/65535,
      exactly: a weighted mean of the channel's high byte and white, so it
      lies between the two and fits a byte. */
  function Blend(high: Byte, a: Channel16): (v: Byte)
    ensures high <= v
  {
    BlendBounds(high, a);
    (high * a + 255 * (MaxAlpha - a)) / MaxAlpha
  }

  lemma BlendBounds(high: Byte, a: Channel16)
    ensures high * MaxAlpha <= high * a + 255 * (MaxAlpha - a) <= 255 * MaxAlpha
  {
    var rest := MaxAlpha - a;
    MulMonotone(high, 255, rest);
    Distributes(high, a, rest);
    Distributes(255, a, rest);
  }

  /** The pixel the two loops leave at one position, given the source
      colour there: always opaque, white where the source is transparent,
      and otherwise never darker than the source's high bytes. */
  function FlattenPixel(c: Color): (p: Rgba8)
    ensures p.a == 255
    ensures c.a == 0 ==> p == White
    ensures c.a > 0 ==> c.r / 256 <= p.r && c.g / 256 <= p.g && c.b / 256 <= p.b
  {
    if c.a > 0 then Rgba8(Blend(c.r / 256, c.a), Blend(c.g / 256, c.a), Blend(c.b / 256, c.a), 255)
    else White
  }

  /** The flattened buffer read back through image.Image. */
  function Flattened(img: Picture): Picture
    requires img.Valid()
  {
    var h, w := img.Height(), img.Width();
    Picture(img.bounds,
            seq(h, i requires 0 <= i < h =>
              seq(w, j requires 0 <= j < w => Widen(FlattenPixel(img.pix[i][j])))))
  }

  /** The two nested loop pairs of main.go:614-638: paint the buffer
      white, then write the blended colour of every pixel whose alpha is
      not zero. */
  method FlattenOntoWhite(img: Picture) returns (r: Picture)
    requires img.Valid()
    ensures r == Flattened(img)
  {
    var bounds := img.bounds;
    var rgbImg := new RgbaImage(bounds);
    var height := bounds.maxY - bounds.minY;

    var y := bounds.minY;
    while y < bounds.maxY
      invariant bounds.minY <= y <= bounds.maxY
      invariant forall i, j :: 0 <= i < y - bounds.minY && 0 <= j < rgbImg.pix.Length1 ==> rgbImg.pix[i, j] == White
    {
      PaintRowWhite(rgbImg, y - bounds.minY);
      y := y + 1;
    }

    y := bounds.minY;
    while y < bounds.maxY
      invariant bounds.minY <= y <= bounds.maxY
      invariant forall i, j :: 0 <= i < y - bounds.minY && 0 <= j < rgbImg.pix.Length1 ==>
                  rgbImg.pix[i, j] == FlattenPixel(img.pix[i][j])
      invariant forall i, j :: y - bounds.minY <= i < height && 0 <= j < rgbImg.pix.Length1 ==> rgbImg.pix[i, j] == White
    {
      BlendRow(img, rgbImg, y - bounds.minY);
      y := y + 1;
    }

    r := rgbImg.Snapshot();
    SamePixels(r, Flattened(img));
  }

  /** One pass of the first inner loop (main.go:617-621): buffer row `row`
      turns white, the other rows stay as they were. */
  method PaintRowWhite(rgbImg: RgbaImage, row: int)
    requires rgbImg.Valid() && 0 <= row < rgbImg.pix.Length0
    modifies rgbImg.pix
    ensures forall j :: 0 <= j < rgbImg.pix.Length1 ==> rgbImg.pix[row, j] == White
    ensures forall i, j :: 0 <= i < rgbImg.pix.Length0 && 0 <= j < rgbImg.pix.Length1 && i != row ==>
              rgbImg.pix[i, j] == old(rgbImg.pix[i, j])
  {
    var bounds := rgbImg.rect;
    var y := bounds.minY + row;
    var x := bounds.minX;
    while x < bounds.maxX
      invariant bounds.minX <= x <= bounds.maxX
      invariant forall j :: 0 <= j < x - bounds.minX ==> rgbImg.pix[row, j] == White
      invariant forall i, j :: 0 <= i < rgbImg.pix.Length0 && 0 <= j < rgbImg.pix.Length1 && i != row ==>
                  rgbImg.pix[i, j] == old(rgbImg.pix[i, j])
    {
      rgbImg.Set(x, y, White);
      x := x + 1;
    }
  }

  /** One pass of the second inner loop (main.go:624-637): on a white
      buffer row `row`, every pixel with a non-zero alpha gets its blended
      colour and the others stay white; the other rows stay as they were. */
  method BlendRow(img: Picture, rgbImg: RgbaImage, row: int)
    requires img.Valid() && rgbImg.Valid() && rgbImg.rect == img.bounds
    requires 0 <= row < rgbImg.pix.Length0
    requires forall j :: 0 <= j < rgbImg.pix.Length1 ==> rgbImg.pix[row, j] == White
    modifies rgbImg.pix
    ensures forall j :: 0 <= j < rgbImg.pix.Length1 ==> rgbImg.pix[row, j] == FlattenPixel(img.pix[row][j])
    ensures forall i, j :: 0 <= i < rgbImg.pix.Length0 && 0 <= j < rgbImg.pix.Length1 && i != row ==>
              rgbImg.pix[i, j] == old(rgbImg.pix[i, j])
  {
    var bounds := img.bounds;
    var y := bounds.minY + row;
    var x := bounds.minX;
    while x < bounds.maxX
      invariant bounds.minX <= x <= bounds.maxX
      invariant forall j :: 0 <= j < x - bounds.minX ==> rgbImg.pix[row, j] == FlattenPixel(img.pix[row][j])
      invariant forall j :: x - bounds.minX <= j < rgbImg.pix.Length1 ==> rgbImg.pix[row, j] == White
      invariant forall i, j :: 0 <= i < rgbImg.pix.Length0 && 0 <= j < rgbImg.pix.Length1 && i != row ==>
                  rgbImg.pix[i, j] == old(rgbImg.pix[i, j])
    {
      var c := img.At(x, y);
      if c.a > 0 {
        rgbImg.Set(x, y, Rgba8(Blend(c.r / 256, c.a), Blend(c.g / 256, c.a), Blend(c.b / 256, c.a), 255));
      }
      x := x + 1;
    }
  }

  /** The flattened image keeps the source's bounds and is fully opaque. */
  lemma FlattenedIsOpaque(img: Picture, x: int, y: int)
    requires img.Valid() && img.bounds.Contains(x, y)
    ensures Flattened(img).Valid() && Flattened(img).bounds == img.bounds
    ensures Flattened(img).At(x, y).a == MaxAlpha
  {
  }

  /** A fully transparent source pixel comes out pure opaque white; a fully
      opaque one keeps the high bytes of its channels; any other keeps a
      blend between its high bytes and white. */
  lemma FlattenedEndCases(img: Picture, x: int, y: int)
    requires img.Valid() && img.bounds.Contains(x, y)
    ensures var c, f := img.At(x, y), Narrow(Flattened(img).At(x, y));
      && (c.a == 0 ==> f == White)
      && (c.a == MaxAlpha ==> f == Rgba8(c.r / 256, c.g / 256, c.b / 256, 255))
      && (c.r / 256 <= f.r && c.g / 256 <= f.g && c.b / 256 <= f.b)
  {
    var c := img.At(x, y);
    NarrowWiden(FlattenPixel(c));
    if c.a == MaxAlpha {
      assert (c.r / 256) * MaxAlpha / MaxAlpha == c.r / 256;
      assert (c.g / 256) * MaxAlpha / MaxAlpha == c.g / 256;
      assert (c.b / 256) * MaxAlpha / MaxAlpha == c.b / 256;
    }
  }

  /** Alpha-over of a premultiplied colour onto white: the channel plus
      white scaled by the uncovered fraction. */
  function OverWhite(high: Byte, a: Channel16): int {
    high + 255 * (MaxAlpha - a) / MaxAlpha
  }

  /** Where the source differs from alpha-over: half-transparent pure red
      (premultiplied channels 0x8080, 0, 0, 0x8080) flattens to red 191,
      where compositing over white would give full red 255. */
  lemma MidAlphaIsNotAlphaOver()
    ensures FlattenPixel(Color(0x8080, 0, 0, 0x8080)).r == 191
    ensures OverWhite(0x8080 / 256, 0x8080) == 255
  {
  }
}
