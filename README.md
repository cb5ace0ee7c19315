# Image folder to PDF: compression core

This project models the core of a small command-line tool, `main.go`. The tool takes a
directory of images and produces one PDF with one image per page. For that it:

- walks the directory for files with a supported image extension, and sorts their paths by name;
- writes an optimised copy of each image into a scratch directory, `temp_optimized_images`, under the output directory;
- averages the pixel size of the copies to choose the page size at 200 DPI;
- removes the scratch directory once the run ends, but only when at least one image was converted: the cleanup takes the directory from the first converted file (main.go:316-322).

Each image wider than 800 pixels is first scaled down, with nearest neighbour, to a width of
800 pixels; narrower images are used as decoded (main.go:438). The scaled picture only feeds the
pixel count and the re-encodes: a kept file is copied byte for byte from the original
(main.go:507-508). A decision table on the pixel count, the file's size in bytes and its
extension decides one of three things:

- the file is copied unchanged;
- it is re-encoded as JPEG at a banded quality;
- a large PNG is flattened onto a white background and then encoded as JPEG.

A second, size-targeted conversion, `convertToJPEG` (main.go:253-289), is defined in the
program but never called by the run. It starts at an adaptive quality and retries at lower
qualities. Its 500 KiB ceiling is best effort: the search also stops after four encodes or once
the quality has reached 50, and then returns the path of a file that may still be larger
(main.go:362, 387, 401).

The model is written in the program's own form:

- **The pure parts are Dafny functions with lemmas.** These are the decision table, the quality bands, path handling, the averaging and the run's control flow.
- **The loops are methods whose postconditions tie them to those functions.** These are:
  - the resampler;
  - the alpha-flattening loops;
  - the encode-and-retry search;
  - the directory-walk callback;
  - the batch loop;
  - the averaging loop.
- **The `image.RGBA` buffer the loops fill is a class over a two-dimensional array.**

The outside world enters as parameters:

| source call | parameter |
|---|---|
| file-system checks (`os.Stat`, `os.MkdirAll`) | booleans |
| the walk | a sequence of entries |
| decoding | an optional picture |
| `image.DecodeConfig` | a function from path to dimensions |
| `jpeg.Encode` | a function from picture and quality to the size written, if any |

Modules:

- `Outcomes`: the error kinds and the `Result` and `Option` types.
- `Paths`: the `filepath` and `strings` helpers the program uses, the list of supported extensions and `isJPEGFile`.
- `Strategy`: `determineCompressionStrategy`.
- `Quality`: the three quality tables.
- `Raster`: colours, decoded pictures and the `image.RGBA` buffer.
- `Resample`: `scaleImageToWidth`.
- `Flatten`: the alpha-flattening loops of `convertPNGToOptimalJPEG`.
- `SizeSearch`: `compressImageWithTargetSize`.
- `Conversion`: the two per-image conversions and their output naming.
- `Geometry`: `calculateAverageImageSize` and the page size.
- `Batch`: discovery, sorting, the batch loop, cleanup and `convertImagesToPDF` up to the page geometry.
- `Arith`: four facts about multiplication and division that the other proofs use.

The model follows the code in four places where the program's comments or its
documented intent read differently:

- **Blending.** The "alpha blending with white" of `convertPNGToOptimalJPEG` weights the high byte of each channel by the alpha and adds white weighted by the transparency (main.go:631-634). But `Color.RGBA()` already returns premultiplied channels, so the colour is weighted by the alpha twice. That is not alpha-over of a straight colour. A half-transparent pure red comes out as 191, not 255 (`Flatten.MidAlphaIsNotAlphaOver`).
- **Scaled height.** The scaled height is truncated, not rounded (`Resample.ScaledHeightIsTruncation`).
- **A batch in which every image fails.** The batch itself reports no error. The run stops in the averaging step with "no image files provided". The cleanup then has no file to take a directory from, so the scratch directory is left behind (`Batch.AllItemsFail`). When at least one image converts, the scratch directory is removed (`Batch.RunCleansScratch`).
- **Output names collide.** The walk is recursive but the scratch directory is flat. Two different images can therefore get the same output path: a re-encoded "x.png" and a kept "x.jpg" (`Conversion.ReencodedMeetsKept`), or two kept files with the same name in different folders (`Conversion.KeptNamesMeet`). The later write replaces the earlier file, and the surviving file is listed, and laid out, twice.

## Model

| member | source | states |
|---|---|---|
| Paths.ExtIsDotSuffix | main.go:177 | `filepath.Ext` is empty or a suffix of the path that starts with the last dot and holds no further dot or separator |
| Paths.ExtOfDotted | main.go:177 | appending a dot-extension to any stem makes that the extension |
| Paths.TrimTrailingSeparators | main.go:500 | trimming trailing separators leaves a prefix of the path that does not end in a separator, and everything removed is a separator |
| Paths.LastElement | main.go:507 | the last element is a suffix of the path, holds no separator, and is preceded by a separator when shorter than the path |
| Paths.IsJpegFile | main.go:292-295 | every path `isJPEGFile` accepts also passes the walk's extension filter |
| Paths.ExtensionCaseIgnored | main.go:177-178 | the walk's filter and `isJPEGFile` depend only on the lower-cased extension |
| Paths.Ext | main.go:177 | the extension is no longer than the path and is empty or starts with a dot |
| Paths.Base | main.go:500 | the base of any path is non-empty |
| Paths.Stem | main.go:500 | the stem is a prefix of the base name |
| Paths.Join | main.go:407 | a joined path starts with the directory and ends with the name |
| Paths.Dir | main.go:322 | the directory of a path is ".", the root, or the prefix before a separator in the path |
| Paths.IsSupportedImage | main.go:157-178 | a name passes the walk's filter only when its extension has four or five characters |
| Paths.LowerCharToAscii | main.go:177 | lower-casing yields an ASCII lower-case letter exactly for the ASCII letters and the two non-ASCII capitals U+0130 and U+212A |
| Paths.DottedCapitalIExample | main.go:177-178 | ".T" followed by U+0130 and "F" lower-cases to ".tif", so such a file is found |
| Paths.JpegExamples | main.go:292-295 | "photos/Cat.JPG" and "scan.jpeg" are JPEG files |
| Paths.NotJpegExamples | main.go:292-295 | a ".jpg" directory component does not make a path a JPEG, and a name ending in a separator has no supported extension |
| Paths.DirOfJoin | main.go:322 | the directory of a path joined from a directory and a plain name is that directory |
| Paths.LastElementOfJoin | main.go:407 | the last element of a joined path is the name joined on |
| Paths.StemHasNoSeparator | main.go:500 | the stem used for output names contains no separator |
| Strategy.DetermineCompressionStrategy | main.go:551-581 | the selector always returns one of the three strategy names, so the caller's default branch is never taken |
| Strategy.StrategyRegions | main.go:551-581 | convert exactly for a PNG over 500 KiB with more than 100000 pixels; optimise exactly for a JPEG over 300 KiB or another non-photo file over 400 KiB; keep exactly otherwise |
| Strategy.SmallFilesAreKept | main.go:555-580 | files under 50 KiB are always kept, and JPEG files up to 300 KiB are kept |
| Strategy.OnlyPngIsConverted | main.go:565-567 | only a ".png" file is ever flattened to JPEG |
| Strategy.StrategyIgnoresExtensionCase | main.go:552 | the strategy depends on the extension only up to case |
| Strategy.KeepIsDownwardClosed | main.go:551-581 | if a file is kept, every smaller file of the same format and pixel count is kept too |
| Strategy.PhotoPngExample | main.go:565-567 | a 600 KiB PNG of 300000 pixels with an upper-case extension is converted |
| Strategy.SmallPngExample | main.go:575-577 | a 600 KiB PNG with only 50000 pixels is re-encoded, not converted |
| Strategy.MidSizeJpegExample | main.go:570-572 | a 350 KiB JPEG is re-encoded |
| Strategy.MidSizeGifExample | main.go:575-580 | a 350 KiB GIF is kept |
| Quality.ClampQuality | main.go:348-352 | the clamp lands in [60, 95] and leaves values already in range unchanged |
| Quality.AdaptiveQuality | main.go:333-355 | the adaptive quality lies in [60, 95] |
| Quality.AdaptiveClampNeverFires | main.go:336-352 | every band already lies in range, so the clamp never changes it; the quality is one of 75, 80, 85, 90 |
| Quality.AdaptiveQualityNonIncreasing | main.go:336-345 | more pixels never raise the adaptive quality |
| Quality.OptimalJpegQuality | main.go:586-595 | the JPEG re-encoding quality is one of 65, 70, 75, 80 |
| Quality.OptimalJpegQualityNonIncreasing | main.go:586-595 | more pixels never raise the JPEG re-encoding quality |
| Quality.PngJpegQuality | main.go:641-644 | the PNG conversion quality is 82 or 88 |
| Quality.PngJpegQualityNonIncreasing | main.go:641-644 | more pixels never raise the PNG conversion quality |
| Quality.PngQualityExceedsJpegQuality | main.go:586-644 | at every pixel count a flattened PNG is encoded at a higher quality than a re-encoded JPEG |
| Raster.SamePixels | main.go:467 | two pictures over the same bounds that agree at every pixel are equal |
| Raster.RgbaImage.constructor | main.go:447 | a new buffer covers the rectangle and holds transparent black everywhere |
| Raster.RgbaImage.Set | main.go:463 | setting a pixel inside the bounds writes it and leaves every other pixel unchanged |
| Raster.RgbaImage.Snapshot | main.go:467 | reading the buffer back through `image.Image` widens each stored pixel over the same bounds |
| Resample.ScaleImageToWidth | main.go:432-468 | an image no wider than the target is returned as is; otherwise the result is exactly the nearest-neighbour scaled picture |
| Resample.ScaleRow | main.go:451-464 | one pass of the inner loop fills row y with the scaled pixels and changes no other row |
| Resample.ScaledFrom | main.go:447-467 | a buffer over the scaled bounds holding the scaled pixel everywhere is the scaled picture |
| Resample.ScaledHeightIsTruncation | main.go:443-444 | the scaled height is srcHeight * targetWidth / srcWidth truncated, at most the source height |
| Resample.ClampsNeverFire | main.go:452-461 | every sampled source column and row already lies inside the source, so the clamps never fire |
| Resample.ScaledSamplesNearestNeighbour | main.go:452-463 | each scaled pixel is the source pixel at the truncated back-projected position |
| Resample.ScalingShrinks | main.go:443-447 | a scaled image has exactly the target width and no more rows than the source |
| Flatten.Blend | main.go:631-634 | a blended channel is never darker than the premultiplied source byte |
| Flatten.BlendBounds | main.go:631-634 | the blend's numerator lies between the source byte and white, scaled by 65535 |
| Flatten.FlattenPixel | main.go:630-635 | a flattened pixel is opaque, white where the source is fully transparent, and otherwise never darker than the source's high bytes |
| Flatten.FlattenOntoWhite | main.go:614-638 | the two loop pairs leave exactly the flattened picture in the buffer |
| Flatten.PaintRowWhite | main.go:617-621 | one pass of the first inner loop paints a row white and changes no other row |
| Flatten.BlendRow | main.go:624-637 | on a white row, one pass of the second inner loop leaves each pixel flattened and changes no other row |
| Flatten.FlattenedIsOpaque | main.go:614-638 | the flattened picture keeps the source's bounds and is fully opaque |
| Flatten.FlattenedEndCases | main.go:630-635 | a fully transparent pixel becomes opaque white; a fully opaque one keeps its high bytes |
| Flatten.MidAlphaIsNotAlphaOver | main.go:631-634 | the blend of half-transparent pure red is 191, while alpha-over onto white would give 255 |
| SizeSearch.CompressImageWithTargetSize | main.go:358-402 | the loop performs exactly the encodes of the search schedule, and returns the path unless the last encode failed |
| SizeSearch.NextQuality | main.go:395-398 | the next quality is 15 lower or the floor of 50, never below 50, and lower than a quality above the floor |
| SizeSearch.AttemptsLength | main.go:362-399 | the search makes between one and the allowed number of encodes, and stops on a failure, an accepted size or exhaustion |
| SizeSearch.AttemptsFollowSchedule | main.go:360-398 | the k-th encode uses the k-th quality of the schedule: down by 15 each time, floored at 50 |
| SizeSearch.OnlyTheLastIsAccepted | main.go:387-398 | every encode before the last was written, was over 500 KiB and used a quality above 50 |
| SizeSearch.ScheduleShift | main.go:395-398 | the schedule from the next quality is the schedule shifted by one |
| SizeSearch.RetriesNeverBelowFloor | main.go:395-398 | no retry uses a quality below 50, and no encode uses more than the starting quality unless that is below 50 |
| SizeSearch.SearchAlwaysReturnsPath | main.go:358-402 | at most four encodes; when no encode fails, the output path is returned even if the size was never met |
| SizeSearch.NeverSmallEnoughSchedule | main.go:358-402 | from quality 90, an image that never gets small enough is encoded at 90, 75, 60 and 50 |
| Geometry.CalculateAverageImageSize | main.go:189-224 | the accumulation loop returns the mean width and height over the readable files, or the two errors |
| Geometry.PageSize | main.go:96-99 | converting the page size back at 200 DPI gives the mean pixel size |
| Geometry.AverageErrors | main.go:190-218 | averaging fails exactly when the list is empty or no file is readable; an empty list gives "no image files provided" |
| Geometry.ReadableEmpty | main.go:197-214 | no dimensions are collected exactly when no file is readable |
| Geometry.SumWidthsBounded | main.go:211 | a bound on every width bounds the sum of widths by count times bound |
| Geometry.SumHeightsBounded | main.go:212 | a bound on every height bounds the sum of heights by count times bound |
| Geometry.ReadableFromConfig | main.go:197-214 | every collected dimension is the header reader's answer for one of the files |
| Geometry.MeanWidthBounded | main.go:211-223 | when every readable image of the list is at most a given width, so is the mean width |
| Geometry.MeanHeightBounded | main.go:212-223 | when every readable image of the list is at most a given height, so is the mean height |
| Geometry.AverageExample | main.go:189-224 | images of 800x600 and 800x1000 pixels average to 800x800, which is a 288-point square page |
| Conversion.Prepared | main.go:484-485 | the prepared image is at most 800 pixels wide and no taller than the source |
| Conversion.OutputPath | main.go:500-530 | the output lies under the output directory; re-encoded outputs end in ".jpg", kept ones end in the original base name |
| Conversion.EfficientCompression | main.go:471-548 | decode failure exactly when the image cannot be decoded; otherwise a write failure or a path under the output directory |
| Conversion.CompressToOptimalJpeg | main.go:584-607 | success exactly when the encode at the banded JPEG quality writes the file |
| Conversion.ConvertPngToOptimalJpeg | main.go:610-656 | success exactly when the encode of the flattened picture at the PNG quality writes the file |
| Conversion.ConvertToEfficientCompression | main.go:471-548 | the method returns what the conversion function specifies: decode failure, write failure or the strategy's output path |
| Conversion.ExtOfJoin | main.go:513 | joining a plain name onto a directory keeps the name's extension |
| Conversion.OutputPathNaming | main.go:500-530 | every output lies in the scratch directory; re-encoded outputs are ".jpg" JPEG files; kept outputs keep their base name |
| Conversion.JpegOutputNaming | main.go:500-521 | the stem plus ".jpg" lies in the output directory and is a JPEG file |
| Conversion.JpegNameInDir | main.go:513 | a separator-free stem plus ".jpg" joined onto the directory lies in it and is a JPEG file |
| Conversion.KeptOutputNaming | main.go:507 | a kept file's output is its base name inside the output directory |
| Conversion.PlainPathBase | main.go:507 | the base of a path that does not end in a separator is its non-empty last element |
| Conversion.ConvertedPath | main.go:471-548 | a readable image yields either the output path of the chosen strategy or a write failure |
| Conversion.EfficientOutputInDir | main.go:500-530 | every successful conversion writes directly into the output directory |
| Conversion.ReencodedMeetsKept | main.go:507-513 | a re-encoded "x.png" and a kept "x.jpg" get the same output path |
| Conversion.KeptNamesMeet | main.go:507 | two kept files with the same name in different folders get the same output path |
| Conversion.SmallFileIsCopied | main.go:505-509 | a readable file under 50 KiB is copied under its own name, and only the copy can fail |
| Conversion.ToJpeg | main.go:253-289 | a successful conversion returns the stem plus ".jpg" in the output directory; it fails only to decode or to write |
| Conversion.ConvertToJpeg | main.go:253-289 | the size-targeted conversion searches from the adaptive quality of the scaled image and names the output stem plus ".jpg" |
| Conversion.ToJpegAlwaysYieldsPath | main.go:253-289 | the search starts at a quality in [75, 90], and the ".jpg" path is returned whenever no encode of the scaled image fails |
| Batch.VisitedBeforeFailure | main.go:168-185 | the count of entries visited before the first failure is exact: none failed before it, and the one at it failed |
| Batch.FindImageFiles | main.go:155-186 | the walk fails exactly when some entry fails, and the images found are those visited before the first failure, in walk order |
| Batch.VisitEntry | main.go:168-183 | one callback call turns the images found among the first i entries into those among the first i + 1 |
| Batch.Visit | main.go:168-183 | the callback appends an entry's path exactly when it is a file with a supported extension |
| Batch.VisitedUpTo | main.go:168-171 | entries that did not fail up to a failed one are exactly the visited prefix |
| Batch.ImagePathsStep | main.go:176-178 | one visit extends the found paths by the entry's path exactly when it is an image |
| Batch.ImageEntriesFound | main.go:168-183 | every image entry's path is found |
| Batch.FoundAreImageEntries | main.go:168-183 | every found path belongs to an image entry |
| Batch.LexTotal | main.go:77 | byte-wise order is total |
| Batch.LexTransitive | main.go:77 | byte-wise order is transitive |
| Batch.InsertKeepsOrder | main.go:77 | inserting into a sorted list keeps it sorted and adds exactly that element |
| Batch.SortStrings | main.go:77 | the sorted file list is ordered and a permutation of the input |
| Batch.SortExample | main.go:77 | names are ordered by bytes, not numbers: "10.png" comes before "2.png" |
| Batch.ConvertImagesToOptimizedJpeg | main.go:405-429 | a scratch directory that cannot be created is an error; otherwise the result is the successful conversions in input order, and failed items are skipped |
| Batch.ConvertedConcat | main.go:416-425 | converting two runs of files gives the two results one after the other |
| Batch.ConvertedExactly | main.go:416-425 | the batch yields no more items than it was given; a path is among them exactly when some input converted to it |
| Batch.AllFailedConvertsNothing | main.go:416-428 | when every item fails, the batch is empty and still succeeds |
| Batch.ConvertedAllSucceed | main.go:416-425 | when every item converts, the batch is the item-wise map |
| Batch.CleanupTarget | main.go:316-322 | the cleanup removes nothing exactly when no file was converted |
| Batch.CleanupRemovesScratch | main.go:316-330 | when the first converted file lies in the scratch directory, cleanup removes exactly that directory |
| Batch.Discovered | main.go:55-77 | discovery succeeds exactly when the input exists, the output directory is made, the walk does not fail and it finds an image; it yields the found paths sorted |
| Batch.LaidOut | main.go:85-99 | no converted file gives "no image files provided" and no cleanup; a laid-out run uses the converted files as pages and removes the first one's directory; averaging fails only with its two errors |
| Batch.ConvertImagesToPdf | main.go:55-99 | a missing input directory fails first; a successful run had every check pass and lays out the batch's result over the sorted images |
| Batch.AllItemsFail | main.go:55-99 | when every image the walk found fails to convert, the run ends with "no image files provided" and removes nothing |
| Batch.PagesFitTargetWidth | main.go:55-99 | a successful run lays out the converted images in name order, on pages at most 288 points wide when every converted image is at most 800 pixels wide, whatever the heights |
| Batch.RunCleansScratch | main.go:316-330 | with the real per-image conversion, the cleanup removes exactly the scratch directory when some image converted, and nothing otherwise |
| Batch.ScratchHoldsOutput | main.go:322 | the output of every converted image lies directly in the scratch directory |

## Left out

- File-system and codec I/O is modelled as parameters. This covers `os.Stat`, `os.MkdirAll`, `filepath.Walk`, `os.Open`, `image.Decode`, `image.DecodeConfig`, `os.Create`, `jpeg.Encode`, `copyFile` and `os.RemoveAll`. The encoder is any function from picture and quality to an optional size; the real JPEG codec is not modelled.
- `os.Stat` on the original file at main.go:494 is not modelled. Its size is a parameter, so the nil dereference when that call fails is not represented.
- Building the PDF with the maroto library (main.go:100-153) is not part of this model. The run stops at the page geometry and the ordered list of images handed to it.
- `checkAndReportFileSize` (main.go:227-250), the progress messages and the compression-ratio report only print. They are left out.
- Command-line flags, `init` and `main` (main.go:41-53) are argument plumbing and are left out.
- Floating-point arithmetic is modelled as exact rational arithmetic. This covers the resampler's scale, the blend and the averages. Rounding differences of `float64` at the edges of a truncation are not captured.
- `strings.ToLower` is modelled on the ASCII capitals and the two non-ASCII capitals whose lower case is ASCII, U+0130 and U+212A. The other Unicode mappings go from one non-ASCII character to another. They cannot make an extension equal to a supported one, so they are not modelled.
- `filepath.Join` and `filepath.Dir` are modelled without `filepath.Clean`. Go's `Clean` also drops "." elements, doubled separators and `..` elements. So with the default output directory "." (main.go:43) Go's scratch directory is "temp_optimized_images", while the model's is "./temp_optimized_images"; and "out/" gives "out//temp_optimized_images" in the model. The model's paths stay consistent with each other, so cleanup still removes the directory the batch wrote into. The lemmas about `Dir` of a joined path assume a plain name with no separator.
- Go file names are byte strings, and `sort.Strings` compares bytes. The model's paths are Dafny strings, sequences of Unicode characters, and the order compares characters. Names that are not valid UTF-8 cannot be represented. For valid UTF-8, character order and byte order agree, but that is not proved here.
- Go's 64-bit integer overflow is not modelled. Pixel counts and byte sizes are unbounded integers.
- Resample.ScaleImageToWidth: requires a positive target width. The program only calls it with 800.
- Flatten.FlattenOntoWhite: is stated for colours as `image.Image.At` reports them, as 16-bit premultiplied channels. Which Go image types produce which premultiplied values is not modelled.
- SizeSearch.CompressImageWithTargetSize: the trace of encodes it returns is ghost. The sizes measured are the encoder's results, not the bytes on disk.
