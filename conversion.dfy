/** The per-image conversions: convertToEfficientCompression
    (main.go:471-548) with compressToOptimalJPEG and convertPNGToOptimalJPEG,
    and the size-targeted convertToJPEG (main.go:253-289). Opening and
    decoding the source is the parameter `decoded` (None when either
    fails); jpeg.Encode is the parameter `encode` (the size written, or
    None when creating or encoding the file failed); copyFile is the
    parameter `copyOk`. */
module Conversion {
  import opened Outcomes
  import opened Paths
  import opened Raster
  import opened Strategy
  import opened Quality
  import Resample
  import Flatten
  import SizeSearch

  /** Every source image is scaled to this width (main.go:267, main.go:485). */
  const TargetWidth: int := 800

  /** The image after scaleImageToWidth, as a value. */
  function Prepared(img: Picture): (p: Picture)
    requires img.Valid()
    ensures p.Valid() && p.Width() <= TargetWidth && p.Height() <= img.Height()
  {
    if img.Width() <= TargetWidth then img
    else
      Resample.ScalingShrinks(img, TargetWidth);
      Resample.Scaled(img, TargetWidth)
  }

  function PixelCount(img: Picture): nat
    requires img.Valid()
  {
    img.Width() * img.Height()
  }

  /** The path a converted file is written to (main.go:500-530): the
      original base name for a kept file, the stem plus ".jpg" for a
      re-encoded one. */
  function OutputPath(strategy: string, imagePath: string, outputDir: string): (o: string)
    ensures |outputDir| <= |o| && o[..|outputDir|] == outputDir
    ensures strategy == OptimizeJpeg || strategy == ConvertPngToJpeg ==> IsSuffix(".jpg", o)
    ensures strategy != OptimizeJpeg && strategy != ConvertPngToJpeg ==> IsSuffix(Base(imagePath), o)
  {
    if strategy == OptimizeJpeg || strategy == ConvertPngToJpeg then
      var name := Stem(imagePath) + ".jpg";
      assert name[|name| - 4..] == ".jpg";
      SuffixTransitive(".jpg", name, Join(outputDir, name));
      Join(outputDir, name)
    else Join(outputDir, Base(imagePath))
  }

  /** What convertToEfficientCompression returns. */
  function EfficientCompression(imagePath: string, outputDir: string, decoded: Option<Picture>, originalSize: int,
                                copyOk: bool, encode: (Picture, int) -> Option<nat>): (r: Result<string>)
    requires decoded.Some? ==> decoded.value.Valid()
    ensures r == Failure(DecodeFailed) <==> decoded.None?
    ensures r.Failure? ==> r.error == DecodeFailed || r.error == WriteFailed
    ensures r.Success? ==> |outputDir| <= |r.value| && r.value[..|outputDir|] == outputDir
  {
    if decoded.None? then Failure(DecodeFailed)
    else
      var img := Prepared(decoded.value);
      var totalPixels := PixelCount(img);
      var strategy := DetermineCompressionStrategy(totalPixels, originalSize, imagePath);
      var written :=
        if strategy == OptimizeJpeg then encode(img, OptimalJpegQuality(totalPixels)).Some?
        else if strategy == ConvertPngToJpeg then encode(Flatten.Flattened(img), PngJpegQuality(totalPixels)).Some?
        else copyOk;
      if written then Success(OutputPath(strategy, imagePath, outputDir)) else Failure(WriteFailed)
  }

  /** compressToOptimalJPEG: one encode at the banded quality; true when
      the file was written. */
  method CompressToOptimalJpeg(encode: (Picture, int) -> Option<nat>, img: Picture, totalPixels: int) returns (ok: bool)
    ensures ok <==> encode(img, OptimalJpegQuality(totalPixels)).Some?
  {
    var quality := OptimalJpegQuality(totalPixels);
    var size := encode(img, quality);
    ok := size.Some?;
  }

  /** convertPNGToOptimalJPEG: flatten onto white, then one encode of the
      flattened buffer at the PNG quality. */
  method ConvertPngToOptimalJpeg(encode: (Picture, int) -> Option<nat>, img: Picture, totalPixels: int) returns (ok: bool)
    requires img.Valid()
    ensures ok <==> encode(Flatten.Flattened(img), PngJpegQuality(totalPixels)).Some?
  {
    var rgbImg := Flatten.FlattenOntoWhite(img);
    var quality := PngJpegQuality(totalPixels);
    var size := encode(rgbImg, quality);
    ok := size.Some?;
  }

  /** convertToEfficientCompression. */
  method ConvertToEfficientCompression(imagePath: string, outputDir: string, decoded: Option<Picture>, originalSize: int,
                                       copyOk: bool, encode: (Picture, int) -> Option<nat>)
    returns (r: Result<string>)
    requires decoded.Some? ==> decoded.value.Valid()
    ensures r == EfficientCompression(imagePath, outputDir, decoded, originalSize, copyOk, encode)
  {
    if decoded.None? {
      return Failure(DecodeFailed);
    }
    var img := Resample.ScaleImageToWidth(decoded.value, TargetWidth);
    assert img == Prepared(decoded.value);
    var totalPixels := img.Width() * img.Height();
    var strategy := DetermineCompressionStrategy(totalPixels, originalSize, imagePath);
    var baseName := Stem(imagePath);
    var outputPath: string;
    var ok: bool;
    if strategy == KeepOriginal {
      outputPath := Join(outputDir, Base(imagePath));
      ok := copyOk;
    } else if strategy == OptimizeJpeg {
      outputPath := Join(outputDir, baseName + ".jpg");
      ok := CompressToOptimalJpeg(encode, img, totalPixels);
    } else if strategy == ConvertPngToJpeg {
      outputPath := Join(outputDir, baseName + ".jpg");
      ok := ConvertPngToOptimalJpeg(encode, img, totalPixels);
    } else {
      outputPath := Join(outputDir, Base(imagePath));
      ok := copyOk;
    }
    if !ok {
      return Failure(WriteFailed);
    }
    r := Success(outputPath);
  }

  lemma ExtOfJoin(dir: string, name: string)
    requires name != [] && Separator !in name
    ensures Ext(Join(dir, name)) == Ext(name)
    decreases |name|
  {
    if dir != [] {
      var p := Join(dir, name);
      assert p == dir + [Separator] + name;
      if |name| == 1 {
        assert p[..|p| - 1] == dir + [Separator];
      } else {
        var init := name[..|name| - 1];
        assert name[|name| - 1] in name;
        assert p[..|p| - 1] == Join(dir, init);
        ExtOfJoin(dir, init);
        assert name[..|name| - 1] == init;
      }
    }
  }

  /** Every output path lies in the output directory: re-encoded images
      get a ".jpg" name built from the original stem, kept images keep
      their base name. */
  lemma OutputPathNaming(strategy: string, imagePath: string, outputDir: string)
    requires outputDir != [] && outputDir[|outputDir| - 1] != Separator
    requires imagePath != [] && imagePath[|imagePath| - 1] != Separator
    ensures Dir(OutputPath(strategy, imagePath, outputDir)) == outputDir
    ensures strategy == OptimizeJpeg || strategy == ConvertPngToJpeg ==> IsJpegFile(OutputPath(strategy, imagePath, outputDir))
    ensures strategy == KeepOriginal ==> OutputPath(strategy, imagePath, outputDir) == Join(outputDir, LastElement(imagePath))
  {
    if strategy == OptimizeJpeg || strategy == ConvertPngToJpeg {
      JpegOutputNaming(imagePath, outputDir);
    } else {
      KeptOutputNaming(imagePath, outputDir);
    }
  }

  lemma {:induction false} JpegOutputNaming(imagePath: string, outputDir: string)
    requires outputDir != [] && outputDir[|outputDir| - 1] != Separator
    requires imagePath != [] && imagePath[|imagePath| - 1] != Separator
    ensures Dir(Join(outputDir, Stem(imagePath) + ".jpg")) == outputDir
    ensures IsJpegFile(Join(outputDir, Stem(imagePath) + ".jpg"))
  {
    PlainPathBase(imagePath);
    StemHasNoSeparator(imagePath);
    JpegNameInDir(Stem(imagePath), outputDir);
  }

  lemma {:induction false} JpegNameInDir(stem: string, outputDir: string)
    requires outputDir != [] && outputDir[|outputDir| - 1] != Separator
    requires Separator !in stem
    ensures Dir(Join(outputDir, stem + ".jpg")) == outputDir
    ensures IsJpegFile(Join(outputDir, stem + ".jpg"))
  {
    var name := stem + ".jpg";
    assert Separator !in name;
    DirOfJoin(outputDir, name);
    ExtOfJoin(outputDir, name);
    ExtOfDotted(stem, ".jpg");
    JpgIsLower();
  }

  lemma JpgIsLower()
    ensures ToLower(".jpg") == ".jpg"
  {
  }

  lemma {:induction false} KeptOutputNaming(imagePath: string, outputDir: string)
    requires outputDir != [] && outputDir[|outputDir| - 1] != Separator
    requires imagePath != [] && imagePath[|imagePath| - 1] != Separator
    ensures Base(imagePath) == LastElement(imagePath)
    ensures Dir(Join(outputDir, Base(imagePath))) == outputDir
  {
    PlainPathBase(imagePath);
    DirOfJoin(outputDir, Base(imagePath));
  }

  /** The base name of a path that does not end in a separator is its
      final element, which is not empty. */
  lemma PlainPathBase(imagePath: string)
    requires imagePath != [] && imagePath[|imagePath| - 1] != Separator
    ensures TrimTrailingSeparators(imagePath) == imagePath
    ensures LastElement(imagePath) != [] && Base(imagePath) == LastElement(imagePath)
  {
    assert imagePath[|imagePath| - 1] in LastElement(imagePath);
  }

  /** A successful conversion returns the output path of the strategy the
      selector chose for the scaled image. */
  lemma ConvertedPath(imagePath: string, outputDir: string, img: Picture, originalSize: int,
                      copyOk: bool, encode: (Picture, int) -> Option<nat>)
    requires img.Valid()
    ensures var r := EfficientCompression(imagePath, outputDir, Some(img), originalSize, copyOk, encode);
      var strategy := DetermineCompressionStrategy(PixelCount(Prepared(img)), originalSize, imagePath);
      r == Success(OutputPath(strategy, imagePath, outputDir)) || r == Failure(WriteFailed)
  {
  }

  /** Every successful conversion writes into the output directory. */
  lemma EfficientOutputInDir(imagePath: string, outputDir: string, decoded: Option<Picture>, originalSize: int,
                             copyOk: bool, encode: (Picture, int) -> Option<nat>)
    requires outputDir != [] && outputDir[|outputDir| - 1] != Separator
    requires imagePath != [] && imagePath[|imagePath| - 1] != Separator
    requires decoded.Some? ==> decoded.value.Valid()
    ensures var r := EfficientCompression(imagePath, outputDir, decoded, originalSize, copyOk, encode);
      r.Success? ==> Dir(r.value) == outputDir
  {
    if decoded.Some? {
      var img := decoded.value;
      ConvertedPath(imagePath, outputDir, img, originalSize, copyOk, encode);
      OutputPathNaming(DetermineCompressionStrategy(PixelCount(Prepared(img)), originalSize, imagePath), imagePath, outputDir);
    }
  }

  /** The scratch directory is flat while the walk is recursive, so two
      different images can be given the same output path, and the later
      write replaces the earlier file: a re-encoded "x.png" and a kept
      "x.jpg"... */
  lemma {:induction false} ReencodedMeetsKept(stem: string, outputDir: string)
    requires stem != [] && Separator !in stem
    ensures OutputPath(OptimizeJpeg, stem + ".png", outputDir) == OutputPath(KeepOriginal, stem + ".jpg", outputDir)
  {
    StemOfDotted(stem, ".png");
    JpgNameIsPlain(stem);
  }

  lemma {:induction false} JpgNameIsPlain(stem: string)
    requires stem != [] && Separator !in stem
    ensures Base(stem + ".jpg") == stem + ".jpg"
  {
    var jpg := stem + ".jpg";
    assert Separator !in jpg by {
      assert forall k :: 0 <= k < |stem| ==> jpg[k] == stem[k];
      assert jpg[|stem|..] == ".jpg";
    }
    PlainName(jpg);
  }

  /** ...or two kept files of the same name from different folders. */
  lemma {:induction false} KeptNamesMeet(dirA: string, dirB: string, name: string, outputDir: string)
    requires name != [] && Separator !in name
    ensures OutputPath(KeepOriginal, dirA + [Separator] + name, outputDir)
            == OutputPath(KeepOriginal, dirB + [Separator] + name, outputDir)
  {
    var a, b := dirA + [Separator] + name, dirB + [Separator] + name;
    assert a[|a| - 1] == name[|name| - 1] && b[|b| - 1] == name[|name| - 1];
    assert name[|name| - 1] in name;
    PlainPathBase(a);
    PlainPathBase(b);
    LastElementOfJoin(dirA, name);
    LastElementOfJoin(dirB, name);
  }

  /** A readable file under 50 KiB is copied under its own name whatever
      its pixels; only the copy can make it fail. */
  lemma SmallFileIsCopied(imagePath: string, outputDir: string, img: Picture, originalSize: int,
                          copyOk: bool, encode: (Picture, int) -> Option<nat>)
    requires img.Valid() && originalSize < 50 * KiB
    ensures EfficientCompression(imagePath, outputDir, Some(img), originalSize, copyOk, encode)
            == if copyOk then Success(Join(outputDir, Base(imagePath))) else Failure(WriteFailed)
  {
    SmallFilesAreKept(PixelCount(Prepared(img)), originalSize, imagePath);
  }

  /** What convertToJPEG returns: the size-targeted search from the
      adaptive quality of the scaled image, writing stem + ".jpg". */
  function ToJpeg(imagePath: string, outputDir: string, decoded: Option<Picture>, encode: (Picture, int) -> Option<nat>): (r: Result<string>)
    requires decoded.Some? ==> decoded.value.Valid()
    ensures r.Success? ==> r.value == Join(outputDir, Stem(imagePath) + ".jpg")
    ensures r.Failure? ==> r.error == DecodeFailed || r.error == WriteFailed
  {
    if decoded.None? then Failure(DecodeFailed)
    else
      var img := Prepared(decoded.value);
      var trace := SizeSearch.Attempts(encode, img, AdaptiveQuality(PixelCount(img)), SizeSearch.MaxAttempts);
      SizeSearch.Outcome(trace, Join(outputDir, Stem(imagePath) + ".jpg"))
  }

  /** convertToJPEG (main.go:253-289). */
  method ConvertToJpeg(imagePath: string, outputDir: string, decoded: Option<Picture>, encode: (Picture, int) -> Option<nat>)
    returns (r: Result<string>)
    requires decoded.Some? ==> decoded.value.Valid()
    ensures r == ToJpeg(imagePath, outputDir, decoded, encode)
  {
    if decoded.None? {
      return Failure(DecodeFailed);
    }
    var img := Resample.ScaleImageToWidth(decoded.value, TargetWidth);
    assert img == Prepared(decoded.value);
    var baseName := Stem(imagePath);
    var outputPath := Join(outputDir, baseName + ".jpg");
    var totalPixels := img.Width() * img.Height();
    var quality := AdaptiveQuality(totalPixels);
    ghost var trace;
    r, trace := SizeSearch.CompressImageWithTargetSize(encode, img, outputPath, quality);
  }

  /** convertToJPEG starts its search at a quality in [75, 90] and, when no
      write fails, always yields the ".jpg" path. */
  lemma {:induction false} ToJpegAlwaysYieldsPath(imagePath: string, outputDir: string, img: Picture, encode: (Picture, int) -> Option<nat>)
    requires img.Valid()
    requires forall q :: encode(Prepared(img), q).Some?
    ensures ToJpeg(imagePath, outputDir, Some(img), encode) == Success(Join(outputDir, Stem(imagePath) + ".jpg"))
    ensures 75 <= AdaptiveQuality(PixelCount(Prepared(img))) <= 90
  {
    var p := Prepared(img);
    AdaptiveClampNeverFires(PixelCount(p));
    SizeSearch.SearchAlwaysReturnsPath(encode, p, Join(outputDir, Stem(imagePath) + ".jpg"), AdaptiveQuality(PixelCount(p)));
  }
}
