/** calculateAverageImageSize (main.go:189-224) and the page geometry of
    main.go:96-99. Means are exact rationals (`real`), where the source
    uses float64. */
module Geometry {
  import opened Outcomes
  import opened Arith

  const Dpi: real := 200.0
  const PointsPerInch: real := 72.0

  /** The width and height image.DecodeConfig reports. */
  datatype Dimensions = Dimensions(width: nat, height: nat)

  datatype Average = Average(width: real, height: real)

  /** The page size in points. */
  datatype PageGeometry = PageGeometry(width: real, height: real)

  /** The dimensions of the files that could be opened and decoded, in
      order; `config(p)` is None when opening or decoding `p` fails. */
  function Readable(files: seq<string>, config: string -> Option<Dimensions>): seq<Dimensions> {
    if files == [] then []
    else
      var init := Readable(files[..|files| - 1], config);
      match config(files[|files| - 1])
      case Some(d) => init + [d]
      case None => init
  }

  function SumWidths(ds: seq<Dimensions>): nat {
    if ds == [] then 0 else SumWidths(ds[..|ds| - 1]) + ds[|ds| - 1].width
  }

  function SumHeights(ds: seq<Dimensions>): nat {
    if ds == [] then 0 else SumHeights(ds[..|ds| - 1]) + ds[|ds| - 1].height
  }

  /** The result calculateAverageImageSize returns. */
  function AverageOf(files: seq<string>, config: string -> Option<Dimensions>): Result<Average> {
    var ok := Readable(files, config);
    if files == [] then Failure(NoImageFilesProvided)
    else if ok == [] then Failure(NoValidImagesFound)
    else Success(Average(SumWidths(ok) as real / |ok| as real, SumHeights(ok) as real / |ok| as real))
  }

  /** The accumulator loop of main.go:194-221. */
  method CalculateAverageImageSize(files: seq<string>, config: string -> Option<Dimensions>) returns (r: Result<Average>)
    ensures r == AverageOf(files, config)
  {
    if |files| == 0 {
      return Failure(NoImageFilesProvided);
    }
    var totalWidth, totalHeight, validImages := 0, 0, 0;
    for i := 0 to |files|
      invariant totalWidth == SumWidths(Readable(files[..i], config))
      invariant totalHeight == SumHeights(Readable(files[..i], config))
      invariant validImages == |Readable(files[..i], config)|
    {
      assert files[..i + 1][..i] == files[..i];
      match config(files[i]) {
        case None =>
          continue;
        case Some(d) =>
          totalWidth := totalWidth + d.width;
          totalHeight := totalHeight + d.height;
          validImages := validImages + 1;
      }
    }
    assert files[..|files|] == files;
    if validImages == 0 {
      return Failure(NoValidImagesFound);
    }
    r := Success(Average(totalWidth as real / validImages as real, totalHeight as real / validImages as real));
  }

  /** main.go:96-99: pixels at 200 DPI converted to points; converting the
      page back at 200 DPI recovers the mean pixel size. */
  function PageSize(avg: Average): (page: PageGeometry)
    ensures page.width * Dpi / PointsPerInch == avg.width
    ensures page.height * Dpi / PointsPerInch == avg.height
  {
    PageGeometry(avg.width * PointsPerInch / Dpi, avg.height * PointsPerInch / Dpi)
  }

  /** The error cases: an empty list, or a list none of whose files can be
      read; otherwise a mean over the readable files only. */
  lemma {:induction false} AverageErrors(files: seq<string>, config: string -> Option<Dimensions>)
    ensures AverageOf(files, config).Failure? <==> files == [] || forall k :: 0 <= k < |files| ==> config(files[k]).None?
    ensures files == [] ==> AverageOf(files, config) == Failure(NoImageFilesProvided)
  {
    ReadableEmpty(files, config);
  }

  lemma {:induction false} ReadableEmpty(files: seq<string>, config: string -> Option<Dimensions>)
    ensures Readable(files, config) == [] <==> forall k :: 0 <= k < |files| ==> config(files[k]).None?
  {
    if files != [] {
      var init := files[..|files| - 1];
      ReadableEmpty(init, config);
      assert forall k :: 0 <= k < |init| ==> init[k] == files[k];
    }
  }

  /** A bound on every readable width bounds the mean width, whatever the
      heights; and likewise for heights. */
  lemma {:induction false} SumWidthsBounded(ds: seq<Dimensions>, maxWidth: nat)
    requires forall k :: 0 <= k < |ds| ==> ds[k].width <= maxWidth
    ensures SumWidths(ds) <= |ds| * maxWidth
  {
    if ds != [] {
      var init := ds[..|ds| - 1];
      assert forall k :: 0 <= k < |init| ==> init[k] == ds[k];
      SumWidthsBounded(init, maxWidth);
      assert SumWidths(ds) == SumWidths(init) + ds[|ds| - 1].width;
      MulSucc(|init|, maxWidth);
    }
  }

  lemma {:induction false} SumHeightsBounded(ds: seq<Dimensions>, maxHeight: nat)
    requires forall k :: 0 <= k < |ds| ==> ds[k].height <= maxHeight
    ensures SumHeights(ds) <= |ds| * maxHeight
  {
    if ds != [] {
      var init := ds[..|ds| - 1];
      assert forall k :: 0 <= k < |init| ==> init[k] == ds[k];
      SumHeightsBounded(init, maxHeight);
      assert SumHeights(ds) == SumHeights(init) + ds[|ds| - 1].height;
      MulSucc(|init|, maxHeight);
    }
  }

  /** Every collected dimension is one the header reader reported. */
  lemma {:induction false} ReadableFromConfig(files: seq<string>, config: string -> Option<Dimensions>, k: int)
    requires 0 <= k < |Readable(files, config)|
    ensures exists i :: 0 <= i < |files| && config(files[i]) == Some(Readable(files, config)[k])
  {
    var init, last := files[..|files| - 1], files[|files| - 1];
    assert forall i :: 0 <= i < |init| ==> init[i] == files[i];
    if k < |Readable(init, config)| {
      ReadableFromConfig(init, config, k);
      assert Readable(files, config)[k] == Readable(init, config)[k];
    } else {
      assert config(files[|files| - 1]) == Some(Readable(files, config)[k]);
    }
  }

  lemma {:induction false} MeanWidthBounded(files: seq<string>, config: string -> Option<Dimensions>, maxWidth: nat)
    requires forall p :: p in files && config(p).Some? ==> config(p).value.width <= maxWidth
    requires AverageOf(files, config).Success?
    ensures AverageOf(files, config).value.width <= maxWidth as real
  {
    var ok := Readable(files, config);
    forall k | 0 <= k < |ok|
      ensures ok[k].width <= maxWidth
    {
      ReadableFromConfig(files, config, k);
    }
    SumWidthsBounded(ok, maxWidth);
    MeanOfBounded(SumWidths(ok), |ok|, maxWidth);
  }

  lemma {:induction false} MeanHeightBounded(files: seq<string>, config: string -> Option<Dimensions>, maxHeight: nat)
    requires forall p :: p in files && config(p).Some? ==> config(p).value.height <= maxHeight
    requires AverageOf(files, config).Success?
    ensures AverageOf(files, config).value.height <= maxHeight as real
  {
    var ok := Readable(files, config);
    forall k | 0 <= k < |ok|
      ensures ok[k].height <= maxHeight
    {
      ReadableFromConfig(files, config, k);
    }
    SumHeightsBounded(ok, maxHeight);
    MeanOfBounded(SumHeights(ok), |ok|, maxHeight);
  }

  lemma MeanOfBounded(sum: nat, n: nat, bound: nat)
    requires n > 0 && sum <= n * bound
    ensures sum as real / n as real <= bound as real
  {
    assert (n * bound) as real == n as real * bound as real;
    RealMeanBounded(sum as real, n as real, bound as real);
  }

  lemma RealMeanBounded(sum: real, n: real, bound: real)
    requires n > 0.0 && sum <= n * bound
    ensures sum / n <= bound
  {
    assert sum / n * n == sum;
  }

  /** Two images of 800x600 and 800x1000 pixels average to 800x800 pixels,
      a page of 288x288 points at 200 DPI. */
  lemma AverageExample(config: string -> Option<Dimensions>)
    requires config("a.jpg") == Some(Dimensions(800, 600)) && config("b.jpg") == Some(Dimensions(800, 1000))
    ensures AverageOf(["a.jpg", "b.jpg"], config) == Success(Average(800.0, 800.0))
    ensures PageSize(Average(800.0, 800.0)) == PageGeometry(288.0, 288.0)
  {
    var files := ["a.jpg", "b.jpg"];
    assert files[..1] == ["a.jpg"] && files[1] == "b.jpg";
    assert files[..1][..0] == [] && files[..1][0] == "a.jpg";
    var one := Readable(files[..1], config);
    assert Readable(files[..1][..0], config) == [];
    assert one == Readable(files[..1][..0], config) + [Dimensions(800, 600)];
    var ok := Readable(files, config);
    assert ok == one + [Dimensions(800, 1000)];
    assert ok[..1] == one && one[..0] == [];
    assert SumWidths(one) == 800 && SumHeights(one) == 600;
    assert SumWidths(ok) == 1600 && SumHeights(ok) == 1600;
  }
}
