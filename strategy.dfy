/** The compression-strategy selector of main.go:551-581: a total, ordered
    decision table over the pixel count of the resampled image, the byte
    size of the original file and the lower-cased extension of its path. */
module Strategy {
  import opened Paths

  const KeepOriginal: string := "keep_original"
  const OptimizeJpeg: string := "optimize_jpeg"
  const ConvertPngToJpeg: string := "convert_png_to_jpeg"

  const KiB: int := 1024

  predicate IsJpegExt(ext: string) {
    ext == ".jpg" || ext == ".jpeg"
  }

  /** Rule 3 of the table: a large, pixel-rich PNG is a photo worth turning
      into a JPEG. */
  predicate IsPhotoPng(totalPixels: int, originalSize: int, ext: string) {
    ext == ".png" && totalPixels > 100000 && originalSize > 500 * KiB
  }

  /** determineCompressionStrategy; the first rule that matches wins. It
      returns one of the three names the caller's switch knows, so the
      switch's default branch (main.go:527) is never taken. */
  function DetermineCompressionStrategy(totalPixels: int, originalSize: int, imagePath: string): (s: string)
    ensures s == KeepOriginal || s == OptimizeJpeg || s == ConvertPngToJpeg
  {
    var ext := ToLower(Ext(imagePath));
    if originalSize < 50 * KiB then KeepOriginal
    else if IsJpegExt(ext) && originalSize < 200 * KiB then KeepOriginal
    else if IsPhotoPng(totalPixels, originalSize, ext) then ConvertPngToJpeg
    else if IsJpegExt(ext) && originalSize > 300 * KiB then OptimizeJpeg
    else if originalSize > 400 * KiB then OptimizeJpeg
    else KeepOriginal
  }

  /** The table read as three disjoint regions: a file is converted exactly
      when it is a photo-sized PNG, optimised exactly when it is a JPEG over
      300 KiB or any other non-photo file over 400 KiB, and kept otherwise. */
  lemma StrategyRegions(totalPixels: int, originalSize: int, imagePath: string)
    ensures var s := DetermineCompressionStrategy(totalPixels, originalSize, imagePath);
      var ext := ToLower(Ext(imagePath));
      && (s == ConvertPngToJpeg <==> IsPhotoPng(totalPixels, originalSize, ext))
      && (s == OptimizeJpeg <==>
            (IsJpegExt(ext) && originalSize > 300 * KiB)
            || (!IsPhotoPng(totalPixels, originalSize, ext) && originalSize > 400 * KiB))
      && (s == KeepOriginal <==>
            !IsPhotoPng(totalPixels, originalSize, ext)
            && originalSize <= 400 * KiB
            && !(IsJpegExt(ext) && originalSize > 300 * KiB))
  {
  }

  /** Files under 50 KiB are always kept, whatever their size in pixels or
      their format; JPEG files are kept up to 300 KiB. */
  lemma SmallFilesAreKept(totalPixels: int, originalSize: int, imagePath: string)
    ensures originalSize < 50 * KiB ==> DetermineCompressionStrategy(totalPixels, originalSize, imagePath) == KeepOriginal
    ensures IsJpegFile(imagePath) && originalSize <= 300 * KiB ==>
              DetermineCompressionStrategy(totalPixels, originalSize, imagePath) == KeepOriginal
  {
  }

  /** Only PNG files are ever flattened, and JPEG files are never flattened. */
  lemma OnlyPngIsConverted(totalPixels: int, originalSize: int, imagePath: string)
    ensures DetermineCompressionStrategy(totalPixels, originalSize, imagePath) == ConvertPngToJpeg ==>
              ToLower(Ext(imagePath)) == ".png" && !IsJpegFile(imagePath)
  {
  }

  /** The strategy ignores the case of the extension. */
  lemma StrategyIgnoresExtensionCase(totalPixels: int, originalSize: int, p: string, q: string)
    requires ToLower(Ext(p)) == ToLower(Ext(q))
    ensures DetermineCompressionStrategy(totalPixels, originalSize, p) == DetermineCompressionStrategy(totalPixels, originalSize, q)
  {
  }

  /** For a fixed format and pixel count, a bigger file never moves from
      being re-encoded back to being kept. */
  lemma {:induction false} KeepIsDownwardClosed(totalPixels: int, small: int, large: int, imagePath: string)
    requires small <= large
    requires DetermineCompressionStrategy(totalPixels, large, imagePath) == KeepOriginal
    ensures DetermineCompressionStrategy(totalPixels, small, imagePath) == KeepOriginal
  {
    StrategyRegions(totalPixels, large, imagePath);
    StrategyRegions(totalPixels, small, imagePath);
  }

  /** A 600 KiB, 300000-pixel PNG (in any case) is flattened to JPEG. */
  lemma PhotoPngExample()
    ensures DetermineCompressionStrategy(300000, 600 * KiB, "scans/page.PNG") == ConvertPngToJpeg
  {
    ExtOfDotted("scans/page", ".PNG");
    assert "scans/page" + ".PNG" == "scans/page.PNG";
    assert ToLower(".PNG") == ".png";
  }

  /** A 600 KiB PNG with few pixels is re-encoded, not flattened. */
  lemma SmallPngExample()
    ensures DetermineCompressionStrategy(50000, 600 * KiB, "icon.png") == OptimizeJpeg
  {
    ExtOfDotted("icon", ".png");
    assert "icon" + ".png" == "icon.png";
    assert ToLower(".png") == ".png";
  }

  /** At 350 KiB a JPEG is re-encoded... */
  lemma MidSizeJpegExample()
    ensures DetermineCompressionStrategy(480000, 350 * KiB, "photo.jpeg") == OptimizeJpeg
  {
    ExtOfDotted("photo", ".jpeg");
    assert "photo" + ".jpeg" == "photo.jpeg";
    assert ToLower(".jpeg") == ".jpeg";
  }

  /** ...while a GIF of the same size is kept. */
  lemma MidSizeGifExample()
    ensures DetermineCompressionStrategy(480000, 350 * KiB, "photo.gif") == KeepOriginal
  {
    ExtOfDotted("photo", ".gif");
    assert "photo" + ".gif" == "photo.gif";
    assert ToLower(".gif") == ".gif";
  }
}
