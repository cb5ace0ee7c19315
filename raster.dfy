/** Rasters as the pipeline sees them: Go's image.Rectangle, the 16-bit
    alpha-premultiplied colour that Color.RGBA() reports, decoded source
    images as values, and the mutable image.RGBA buffer that the resampler
    and the alpha flattener fill pixel by pixel. */
module Raster {

  type Channel16 = x: int | 0 <= x <= 0xFFFF
  type Byte = x: int | 0 <= x <= 0xFF

  /** The half-open rectangle [minX, maxX) x [minY, maxY). */
  datatype Rect = Rect(minX: int, minY: int, maxX: int, maxY: int) {
    predicate WellFormed() {
      minX <= maxX && minY <= maxY
    }

    function Width(): nat
      requires WellFormed()
    {
      maxX - minX
    }

    function Height(): nat
      requires WellFormed()
    {
      maxY - minY
    }

    predicate Contains(x: int, y: int) {
      minX <= x < maxX && minY <= y < maxY
    }
  }

  /** A colour as Color.RGBA() returns it: four 16-bit channels, the colour
      channels premultiplied by alpha. */
  datatype Color = Color(r: Channel16, g: Channel16, b: Channel16, a: Channel16)

  /** One pixel of an image.RGBA buffer. */
  datatype Rgba8 = Rgba8(r: Byte, g: Byte, b: Byte, a: Byte)

  const Transparent: Rgba8 := Rgba8(0, 0, 0, 0)
  const White: Rgba8 := Rgba8(255, 255, 255, 255)

  /** color.RGBAModel.Convert: the high byte of each 16-bit channel; this is
      what image.RGBA.Set stores. */
  function Narrow(c: Color): Rgba8 {
    Rgba8(c.r / 256, c.g / 256, c.b / 256, c.a / 256)
  }

  /** color.RGBA.RGBA(): each byte repeated into 16 bits; this is what
      image.RGBA.At reports. */
  function Widen(p: Rgba8): Color {
    Color(p.r * 0x101, p.g * 0x101, p.b * 0x101, p.a * 0x101)
  }

  /** Storing a colour read back from an RGBA buffer changes nothing. */
  lemma NarrowWiden(p: Rgba8)
    ensures Narrow(Widen(p)) == p
  {
  }

  /** A decoded image: its bounds and its rows of colours, `pix[y - minY][x - minX]`
      being the colour at (x, y). */
  datatype Picture = Picture(bounds: Rect, pix: seq<seq<Color>>) {
    predicate Valid() {
      && bounds.WellFormed()
      && |pix| == bounds.Height()
      && forall i :: 0 <= i < |pix| ==> |pix[i]| == bounds.Width()
    }

    function Width(): nat
      requires Valid()
    {
      bounds.Width()
    }

    function Height(): nat
      requires Valid()
    {
      bounds.Height()
    }

    /** image.Image.At for a point inside the bounds. */
    function At(x: int, y: int): Color
      requires Valid() && bounds.Contains(x, y)
    {
      pix[y - bounds.minY][x - bounds.minX]
    }
  }

  /** Two valid pictures over the same bounds that agree at every position
      are the same picture. */
  lemma SamePixels(p: Picture, q: Picture)
    requires p.Valid() && q.Valid() && p.bounds == q.bounds
    requires forall i, j :: 0 <= i < |p.pix| && 0 <= j < p.bounds.Width() ==> p.pix[i][j] == q.pix[i][j]
    ensures p == q
  {
    forall i | 0 <= i < |p.pix|
      ensures p.pix[i] == q.pix[i]
    {
      assert forall j :: 0 <= j < |p.pix[i]| ==> p.pix[i][j] == q.pix[i][j];
    }
  }

  /** image.RGBA: a buffer of 8-bit pixels over a rectangle, `pix[y - minY, x - minX]`
      holding the pixel at (x, y). */
  class RgbaImage {
    const rect: Rect
    const pix: array2<Rgba8>

    ghost predicate Valid()
      reads this
    {
      rect.WellFormed() && pix.Length0 == rect.Height() && pix.Length1 == rect.Width()
    }

    /** image.NewRGBA: every pixel transparent black. */
    constructor (r: Rect)
      requires r.WellFormed()
      ensures rect == r && Valid() && fresh(pix)
      ensures forall i, j :: 0 <= i < pix.Length0 && 0 <= j < pix.Length1 ==> pix[i, j] == Transparent
    {
      rect := r;
      pix := new Rgba8[r.Height(), r.Width()]((i, j) => Transparent);
    }

    /** image.RGBA.Set with a colour already in the RGBA model: writes the
        pixel at (x, y) when the point is inside the rectangle, and does
        nothing otherwise. */
    method Set(x: int, y: int, c: Rgba8)
      requires Valid()
      modifies pix
      ensures rect.Contains(x, y) ==> pix[y - rect.minY, x - rect.minX] == c
      ensures forall i, j :: 0 <= i < pix.Length0 && 0 <= j < pix.Length1 && (i != y - rect.minY || j != x - rect.minX) ==>
                pix[i, j] == old(pix[i, j])
    {
      if rect.Contains(x, y) {
        pix[y - rect.minY, x - rect.minX] := c;
      }
    }

    /** The buffer seen through the image.Image interface. */
    function Snapshot(): (p: Picture)
      reads this, pix
      requires Valid()
      ensures p.Valid() && p.bounds == rect
      ensures forall i, j :: 0 <= i < pix.Length0 && 0 <= j < pix.Length1 ==> p.pix[i][j] == Widen(pix[i, j])
    {
      Picture(rect, seq(pix.Length0, i reads pix requires 0 <= i < pix.Length0 =>
                      seq(pix.Length1, j reads pix requires 0 <= j < pix.Length1 => Widen(pix[i, j]))))
    }
  }
}
