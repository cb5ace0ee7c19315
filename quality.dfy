/** The JPEG quality bands: step functions of the pixel count. */
module Quality {

  const MinQuality: int := 60
  const MaxQuality: int := 95

  /** The banded starting quality of calculateAdaptiveQuality before its
      clamp (main.go:334-345). */
  function AdaptiveBand(totalPixels: int): int {
    if totalPixels > 4000000 then 75
    else if totalPixels > 2000000 then 80
    else if totalPixels > 1000000 then 85
    else 90
  }

  /** The clamp of main.go:348-352. */
  function ClampQuality(q: int): (c: int)
    ensures MinQuality <= c <= MaxQuality
    ensures MinQuality <= q <= MaxQuality ==> c == q
  {
    if q > MaxQuality then MaxQuality else if q < MinQuality then MinQuality else q
  }

  /** calculateAdaptiveQuality (main.go:333-355). */
  function AdaptiveQuality(totalPixels: int): (q: int)
    ensures MinQuality <= q <= MaxQuality
  {
    ClampQuality(AdaptiveBand(totalPixels))
  }

  /** Every band already lies inside [60, 95], so the clamp never changes
      the banded value, and the result is one of four qualities. */
  lemma AdaptiveClampNeverFires(totalPixels: int)
    ensures AdaptiveQuality(totalPixels) == AdaptiveBand(totalPixels)
    ensures AdaptiveQuality(totalPixels) in {75, 80, 85, 90}
  {
  }

  /** More pixels never raise the adaptive quality. */
  lemma AdaptiveQualityNonIncreasing(p1: int, p2: int)
    requires p1 <= p2
    ensures AdaptiveQuality(p2) <= AdaptiveQuality(p1)
  {
  }

  /** The quality chosen inside compressToOptimalJPEG (main.go:586-595). */
  function OptimalJpegQuality(totalPixels: int): (q: int)
    ensures q in {65, 70, 75, 80}
  {
    if totalPixels > 2000000 then 65
    else if totalPixels > 1000000 then 70
    else if totalPixels < 300000 then 80
    else 75
  }

  lemma OptimalJpegQualityNonIncreasing(p1: int, p2: int)
    requires p1 <= p2
    ensures OptimalJpegQuality(p2) <= OptimalJpegQuality(p1)
  {
  }

  /** The quality chosen inside convertPNGToOptimalJPEG (main.go:641-644). */
  function PngJpegQuality(totalPixels: int): (q: int)
    ensures q == 82 || q == 88
  {
    if totalPixels > 2000000 then 82 else 88
  }

  lemma PngJpegQualityNonIncreasing(p1: int, p2: int)
    requires p1 <= p2
    ensures PngJpegQuality(p2) <= PngJpegQuality(p1)
  {
  }

  /** At every pixel count a flattened PNG is encoded at a higher quality
      than an optimised JPEG of the same size. */
  lemma PngQualityExceedsJpegQuality(totalPixels: int)
    ensures OptimalJpegQuality(totalPixels) < PngJpegQuality(totalPixels)
  {
  }
}
