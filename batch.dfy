/** Discovery, ordering, the batch fold and the run of convertImagesToPDF
    (main.go:55-99, 155-186, 316-330, 405-429) up to the page geometry
    handed to the PDF builder. */
module Batch {
  import opened Outcomes
  import opened Paths
  import Geometry
  import Raster
  import Conversion

  /** One file-system entry as filepath.Walk reports it: its path, whether
      it is a directory, and whether visiting it failed. */
  datatype WalkEntry = WalkEntry(path: string, isDir: bool, failed: bool)

  /** The walk callback's test (main.go:167-176): a file, not a directory,
      whose base name carries a supported extension. */
  predicate IsImage(e: WalkEntry) {
    !e.isDir && IsSupportedImage(Base(e.path))
  }

  /** The image paths among the visited entries, in visiting order. */
  function ImagePaths(entries: seq<WalkEntry>): seq<string> {
    if entries == [] then []
    else
      var init, e := ImagePaths(entries[..|entries| - 1]), entries[|entries| - 1];
      if IsImage(e) then init + [e.path] else init
  }

  /** The number of entries the walk visits before the first failure. */
  function VisitedBeforeFailure(entries: seq<WalkEntry>): (n: nat)
    ensures n <= |entries|
    ensures forall k :: 0 <= k < n ==> !entries[k].failed
    ensures n < |entries| ==> entries[n].failed
  {
    if entries == [] || entries[0].failed then 0 else 1 + VisitedBeforeFailure(entries[1..])
  }

  /** findImageFiles (main.go:155-186): the callback appends every
      non-directory whose lower-cased extension is supported; a visiting
      error stops the walk and is returned with the files found so far. */
  method FindImageFiles(entries: seq<WalkEntry>) returns (imageFiles: seq<string>, walkFailed: bool)
    ensures walkFailed <==> exists k :: 0 <= k < |entries| && entries[k].failed
    ensures imageFiles == ImagePaths(entries[..VisitedBeforeFailure(entries)])
  {
    imageFiles := [];
    var i := 0;
    while i < |entries|
      invariant 0 <= i <= |entries|
      invariant forall k :: 0 <= k < i ==> !entries[k].failed
      invariant imageFiles == ImagePaths(entries[..i])
    {
      var entry := entries[i];
      if entry.failed {
        VisitedUpTo(entries, i);
        return imageFiles, true;
      }
      imageFiles := VisitEntry(entries, i, imageFiles);
      i := i + 1;
    }
    VisitedUpTo(entries, i);
    walkFailed := false;
  }

  /** One call of the callback, seen from the walk: the images found among
      the first i entries become those among the first i + 1. */
  method VisitEntry(entries: seq<WalkEntry>, i: int, imageFiles: seq<string>) returns (found: seq<string>)
    requires 0 <= i < |entries| && imageFiles == ImagePaths(entries[..i])
    ensures found == ImagePaths(entries[..i + 1])
  {
    ImagePathsStep(entries, i);
    found := Visit(imageFiles, entries[i]);
  }

  /** The walk callback of main.go:168-183 for an entry visited without
      error: a directory is skipped, a file is appended when its lower-cased
      extension is supported. */
  method Visit(imageFiles: seq<string>, entry: WalkEntry) returns (found: seq<string>)
    ensures found == if IsImage(entry) then imageFiles + [entry.path] else imageFiles
  {
    found := imageFiles;
    if entry.isDir {
      return;
    }
    var ext := ToLower(Ext(Base(entry.path)));
    if ext in SupportedExtensions {
      found := found + [entry.path];
    }
  }

  /** The walk visits exactly the entries before the first failure. */
  lemma {:induction false} VisitedUpTo(entries: seq<WalkEntry>, n: nat)
    requires n <= |entries| && forall k :: 0 <= k < n ==> !entries[k].failed
    requires n < |entries| ==> entries[n].failed
    ensures VisitedBeforeFailure(entries) == n
  {
    if n > 0 {
      assert !entries[0].failed;
      assert forall k :: 0 <= k < n - 1 ==> entries[1..][k] == entries[k + 1];
      VisitedUpTo(entries[1..], n - 1);
    }
  }

  /** Visiting one more entry appends its path exactly when it is an image. */
  lemma ImagePathsStep(entries: seq<WalkEntry>, i: int)
    requires 0 <= i < |entries|
    ensures ImagePaths(entries[..i + 1]) ==
              if IsImage(entries[i]) then ImagePaths(entries[..i]) + [entries[i].path] else ImagePaths(entries[..i])
  {
    assert entries[..i + 1][..i] == entries[..i];
  }

  /** Every supported non-directory entry is found... */
  lemma {:induction false} ImageEntriesFound(entries: seq<WalkEntry>, k: int)
    requires 0 <= k < |entries| && IsImage(entries[k])
    ensures entries[k].path in ImagePaths(entries)
  {
    var init := entries[..|entries| - 1];
    if k < |init| {
      assert init[k] == entries[k];
      ImageEntriesFound(init, k);
    }
  }

  /** ...and nothing else is. */
  lemma {:induction false} FoundAreImageEntries(entries: seq<WalkEntry>, p: string)
    requires p in ImagePaths(entries)
    ensures exists k :: 0 <= k < |entries| && entries[k].path == p && IsImage(entries[k])
  {
    var init, last := entries[..|entries| - 1], entries[|entries| - 1];
    if p in ImagePaths(init) {
      FoundAreImageEntries(init, p);
      var k :| 0 <= k < |init| && init[k].path == p && IsImage(init[k]);
      assert entries[k] == init[k];
    } else {
      assert last.path == p && IsImage(last);
    }
  }

  // ---- sort.Strings (main.go:77), by its result.

  /** Go's string order: byte-wise lexicographic, which for code points is
      the order of their UTF-8 encodings. */
  predicate LexLessEq(a: string, b: string) {
    a == [] || (b != [] && (a[0] < b[0] || (a[0] == b[0] && LexLessEq(a[1..], b[1..]))))
  }

  lemma {:induction false} LexTotal(a: string, b: string)
    ensures LexLessEq(a, b) || LexLessEq(b, a)
  {
    if a != [] && b != [] && a[0] == b[0] {
      LexTotal(a[1..], b[1..]);
    }
  }

  lemma {:induction false} LexTransitive(a: string, b: string, c: string)
    requires LexLessEq(a, b) && LexLessEq(b, c)
    ensures LexLessEq(a, c)
  {
    if a != [] && b != [] && c != [] && a[0] == b[0] && b[0] == c[0] {
      LexTransitive(a[1..], b[1..], c[1..]);
    }
  }

  ghost predicate Sorted(s: seq<string>) {
    forall i, j :: 0 <= i < j < |s| ==> LexLessEq(s[i], s[j])
  }

  /** Insertion of one name into an ordered list, before the first name
      it does not follow. */
  function Insert(x: string, s: seq<string>): seq<string> {
    if s == [] || LexLessEq(x, s[0]) then [x] + s else [s[0]] + Insert(x, s[1..])
  }

  /** Inserting into an ordered list keeps it ordered and adds exactly the
      one name. */
  lemma {:induction false} InsertKeepsOrder(x: string, s: seq<string>)
    requires Sorted(s)
    ensures Sorted(Insert(x, s)) && multiset(Insert(x, s)) == multiset(s) + multiset{x}
  {
    if s == [] {
    } else if LexLessEq(x, s[0]) {
      forall j | 0 < j < |s|
        ensures LexLessEq(x, s[j])
      {
        LexTransitive(x, s[0], s[j]);
      }
    } else {
      LexTotal(x, s[0]);
      var rest := Insert(x, s[1..]);
      InsertKeepsOrder(x, s[1..]);
      assert s == [s[0]] + s[1..];
      forall k | 0 <= k < |rest|
        ensures LexLessEq(s[0], rest[k])
      {
        assert rest[k] in multiset(rest);
        if rest[k] != x {
          assert rest[k] in multiset(s[1..]);
          var j :| 0 <= j < |s[1..]| && s[1..][j] == rest[k];
          assert s[j + 1] == rest[k];
        }
      }
    }
  }

  /** sort.Strings: the files in ascending order, none lost or added. */
  function SortStrings(s: seq<string>): (r: seq<string>)
    ensures Sorted(r) && multiset(r) == multiset(s)
  {
    if s == [] then []
    else
      var sorted := SortStrings(s[..|s| - 1]);
      assert s == s[..|s| - 1] + [s[|s| - 1]];
      InsertKeepsOrder(s[|s| - 1], sorted);
      Insert(s[|s| - 1], sorted)
  }

  /** Files are ordered by name, byte by byte, not by number: "10.png"
      comes before "2.png". */
  lemma SortExample()
    ensures SortStrings(["2.png", "10.png"]) == ["10.png", "2.png"]
  {
    var files := ["2.png", "10.png"];
    assert files[..1] == ["2.png"] && files[..1][..0] == [];
    assert LexLessEq("10.png", "2.png");
  }

  // ---- convertImagesToOptimizedJPEG (main.go:405-429).

  const TempDirName: string := "temp_optimized_images"

  /** The converted paths of the items whose conversion succeeded, in input
      order; `convert(p, tempDir)` is convertToEfficientCompression. */
  function Converted(files: seq<string>, tempDir: string, convert: (string, string) -> Result<string>): seq<string> {
    if files == [] then []
    else
      var init := Converted(files[..|files| - 1], tempDir, convert);
      match convert(files[|files| - 1], tempDir)
      case Success(p) => init + [p]
      case Failure(_) => init
  }

  /** The loop of main.go:416-425: a failed item is reported and skipped,
      a converted one appended; no item's failure fails the batch. */
  method ConvertImagesToOptimizedJpeg(files: seq<string>, outputDir: string, tempDirOk: bool,
                                      convert: (string, string) -> Result<string>)
    returns (r: Result<seq<string>>)
    ensures r == if tempDirOk then Success(Converted(files, Join(outputDir, TempDirName), convert)) else Failure(TempDirFailed)
  {
    var tempDir := Join(outputDir, TempDirName);
    if !tempDirOk {
      return Failure(TempDirFailed);
    }
    var convertedFiles: seq<string> := [];
    for i := 0 to |files|
      invariant convertedFiles == Converted(files[..i], tempDir, convert)
    {
      assert files[..i + 1][..i] == files[..i];
      var converted := convert(files[i], tempDir);
      if converted.Failure? {
        continue;
      }
      convertedFiles := convertedFiles + [converted.value];
    }
    assert files[..|files|] == files;
    r := Success(convertedFiles);
  }

  /** The batch keeps order: converting two runs of files one after the
      other gives the two results one after the other. */
  lemma {:induction false} ConvertedConcat(a: seq<string>, b: seq<string>, tempDir: string, convert: (string, string) -> Result<string>)
    ensures Converted(a + b, tempDir, convert) == Converted(a, tempDir, convert) + Converted(b, tempDir, convert)
    decreases |b|
  {
    if b != [] {
      var bInit := b[..|b| - 1];
      assert (a + b)[..|a + b| - 1] == a + bInit;
      assert (a + b)[|a + b| - 1] == b[|b| - 1];
      ConvertedConcat(a, bInit, tempDir, convert);
    } else {
      assert a + b == a;
    }
  }

  /** The batch yields exactly the successful outputs: no more items than
      it was given, every output the success of some input and every
      success among the outputs. */
  lemma {:induction false} ConvertedExactly(files: seq<string>, tempDir: string, convert: (string, string) -> Result<string>, p: string)
    ensures |Converted(files, tempDir, convert)| <= |files|
    ensures p in Converted(files, tempDir, convert) <==> exists k :: 0 <= k < |files| && convert(files[k], tempDir) == Success(p)
  {
    if files != [] {
      var init := files[..|files| - 1];
      ConvertedExactly(init, tempDir, convert, p);
      assert forall k :: 0 <= k < |init| ==> init[k] == files[k];
    }
  }

  /** When every item fails the batch is empty, and still not an error. */
  lemma {:induction false} AllFailedConvertsNothing(files: seq<string>, tempDir: string, convert: (string, string) -> Result<string>)
    requires forall p :: p in files ==> convert(p, tempDir).Failure?
    ensures Converted(files, tempDir, convert) == []
  {
    if files != [] {
      var init := files[..|files| - 1];
      assert forall p :: p in init ==> p in files;
      AllFailedConvertsNothing(init, tempDir, convert);
      assert files[|files| - 1] in files;
    }
  }

  /** When every item converts, the batch is the item-wise map. */
  lemma {:induction false} ConvertedAllSucceed(files: seq<string>, tempDir: string, convert: (string, string) -> Result<string>)
    requires forall k :: 0 <= k < |files| ==> convert(files[k], tempDir).Success?
    ensures |Converted(files, tempDir, convert)| == |files|
    ensures forall k :: 0 <= k < |files| ==> Converted(files, tempDir, convert)[k] == convert(files[k], tempDir).value
  {
    if files != [] {
      var init := files[..|files| - 1];
      assert forall k :: 0 <= k < |init| ==> init[k] == files[k];
      ConvertedAllSucceed(init, tempDir, convert);
    }
  }

  // ---- cleanupConvertedImages (main.go:316-330).

  /** The directory the deferred cleanup removes: none for an empty list,
      otherwise the directory of the first converted file. */
  function CleanupTarget(convertedFiles: seq<string>): (t: Option<string>)
    ensures t.None? <==> convertedFiles == []
  {
    if convertedFiles == [] then None else Some(Dir(convertedFiles[0]))
  }

  /** When the first converted file was written into the scratch directory
      under a plain name, the cleanup removes exactly that directory. */
  lemma CleanupRemovesScratch(convertedFiles: seq<string>, tempDir: string, name: string)
    requires tempDir != [] && tempDir[|tempDir| - 1] != Separator
    requires name != [] && Separator !in name
    requires convertedFiles != [] && convertedFiles[0] == Join(tempDir, name)
    ensures CleanupTarget(convertedFiles) == Some(tempDir)
  {
    DirOfJoin(tempDir, name);
  }

  // ---- convertImagesToPDF (main.go:55-99), up to the page geometry.

  /** What the run hands to the PDF builder: the page size and the images,
      one per page, in order. */
  datatype Layout = Layout(page: Geometry.PageGeometry, images: seq<string>)

  /** The run's result and the directory its deferred cleanup removes. */
  datatype Run = Run(result: Result<Layout>, removed: Option<string>)

  /** The checks and the walk before any image is converted (main.go:55-77):
      the image files in name order, or why there are none. */
  function Discovered(inputExists: bool, outputDirOk: bool, entries: seq<WalkEntry>): (r: Result<seq<string>>)
    ensures r.Success? <==> inputExists && outputDirOk && (forall k :: 0 <= k < |entries| ==> !entries[k].failed)
                            && ImagePaths(entries) != []
    ensures r.Success? ==> Sorted(r.value) && multiset(r.value) == multiset(ImagePaths(entries))
  {
    if !inputExists then Failure(InputDirMissing)
    else if !outputDirOk then Failure(OutputDirFailed)
    else if VisitedBeforeFailure(entries) < |entries| then Failure(WalkFailed)
    else if ImagePaths(entries) == [] then Failure(NoImageFilesFound)
    else Success(SortStrings(ImagePaths(entries)))
  }

  /** The steps after the batch (main.go:85-99): the average size gives
      the page, and the deferred cleanup runs whatever the outcome. */
  function LaidOut(converted: seq<string>, config: string -> Option<Geometry.Dimensions>): (run: Run)
    ensures converted == [] ==> run == Run(Failure(NoImageFilesProvided), None)
    ensures run.result.Success? ==> run.result.value.images == converted && run.removed == Some(Dir(converted[0]))
    ensures run.result.Failure? ==> run.result.error == NoImageFilesProvided || run.result.error == NoValidImagesFound
  {
    var removed := CleanupTarget(converted);
    match Geometry.AverageOf(converted, config)
    case Failure(e) => Run(Failure(e), removed)
    case Success(avg) => Run(Success(Layout(Geometry.PageSize(avg), converted)), removed)
  }

  /** convertImagesToPDF with the file system given as values: whether the
      input directory exists, whether the output and scratch directories
      could be created, the walk's entries, each image's conversion and
      each converted file's header. */
  function ConvertImagesToPdf(inputExists: bool, outputDirOk: bool, entries: seq<WalkEntry>, outputDir: string,
                              tempDirOk: bool, convert: (string, string) -> Result<string>,
                              config: string -> Option<Geometry.Dimensions>): (run: Run)
    ensures !inputExists ==> run == Run(Failure(InputDirMissing), None)
    ensures run.result.Success? ==>
              && inputExists && outputDirOk && tempDirOk
              && (forall k :: 0 <= k < |entries| ==> !entries[k].failed)
              && run.result.value.images == Converted(SortStrings(ImagePaths(entries)), Join(outputDir, TempDirName), convert)
  {
    match Discovered(inputExists, outputDirOk, entries)
    case Failure(e) => Run(Failure(e), None)
    case Success(files) =>
      if !tempDirOk then Run(Failure(TempDirFailed), None)
      else LaidOut(Converted(files, Join(outputDir, TempDirName), convert), config)
  }

  /** When every image fails to convert the batch itself does not fail: the
      run stops in the averaging step with "no image files provided", and
      the cleanup has nothing to remove, so the scratch directory created
      for the batch is left behind. */
  lemma AllItemsFail(entries: seq<WalkEntry>, outputDir: string, convert: (string, string) -> Result<string>,
                     config: string -> Option<Geometry.Dimensions>)
    requires forall k :: 0 <= k < |entries| ==> !entries[k].failed
    requires ImagePaths(entries) != []
    requires forall p :: p in ImagePaths(entries) ==> convert(p, Join(outputDir, TempDirName)).Failure?
    ensures ConvertImagesToPdf(true, true, entries, outputDir, true, convert, config) == Run(Failure(NoImageFilesProvided), None)
  {
    var files := SortStrings(ImagePaths(entries));
    assert Discovered(true, true, entries) == Success(files);
    forall p | p in files
      ensures convert(p, Join(outputDir, TempDirName)).Failure?
    {
      assert p in multiset(files);
    }
    AllFailedConvertsNothing(files, Join(outputDir, TempDirName), convert);
    Geometry.AverageErrors([], config);
  }

  /** A successful run lays out the converted images in name order, one
      per page, on pages at most 288 points wide when every converted image
      is at most 800 pixels wide, whatever the heights. */
  lemma {:induction false} PagesFitTargetWidth(inputExists: bool, outputDirOk: bool, entries: seq<WalkEntry>, outputDir: string,
                                               tempDirOk: bool, convert: (string, string) -> Result<string>,
                                               config: string -> Option<Geometry.Dimensions>)
    requires forall p :: p in Converted(SortStrings(ImagePaths(entries)), Join(outputDir, TempDirName), convert) && config(p).Some?
               ==> config(p).value.width <= 800
    requires ConvertImagesToPdf(inputExists, outputDirOk, entries, outputDir, tempDirOk, convert, config).result.Success?
    ensures var layout := ConvertImagesToPdf(inputExists, outputDirOk, entries, outputDir, tempDirOk, convert, config).result.value;
      layout.page.width <= 288.0
      && layout.images == Converted(SortStrings(ImagePaths(entries)), Join(outputDir, TempDirName), convert)
  {
    var converted := Converted(SortStrings(ImagePaths(entries)), Join(outputDir, TempDirName), convert);
    Geometry.MeanWidthBounded(converted, config, 800);
  }

  /** convertToEfficientCompression as the batch's per-item conversion:
      `decode(p)` is the decoded source (None when opening or decoding
      fails), `sizeOf(p)` its size in bytes and `copyOk(p)` whether copying
      it succeeds. Decoded pictures are well formed; the guard only makes
      the function total. */
  function PerImage(decode: string -> Option<Raster.Picture>, sizeOf: string -> int, copyOk: string -> bool,
                    encode: (Raster.Picture, int) -> Option<nat>): (string, string) -> Result<string>
  {
    (p: string, t: string) =>
      if decode(p).Some? && !decode(p).value.Valid() then Failure(DecodeFailed)
      else Conversion.EfficientCompression(p, t, decode(p), sizeOf(p), copyOk(p), encode)
  }

  /** With convertToEfficientCompression as the per-item conversion, the
      deferred cleanup of a run that reached the batch removes exactly the
      scratch directory when at least one image converted, and nothing
      when none did. */
  lemma {:induction false} RunCleansScratch(entries: seq<WalkEntry>, outputDir: string,
                                            decode: string -> Option<Raster.Picture>, sizeOf: string -> int, copyOk: string -> bool,
                                            encode: (Raster.Picture, int) -> Option<nat>,
                                            config: string -> Option<Geometry.Dimensions>)
    requires forall k :: 0 <= k < |entries| && !entries[k].isDir ==> entries[k].path != [] && entries[k].path[|entries[k].path| - 1] != Separator
    requires forall k :: 0 <= k < |entries| ==> !entries[k].failed
    requires ImagePaths(entries) != []
    ensures var tempDir, convert := Join(outputDir, TempDirName), PerImage(decode, sizeOf, copyOk, encode);
      var converted := Converted(SortStrings(ImagePaths(entries)), tempDir, convert);
      ConvertImagesToPdf(true, true, entries, outputDir, true, convert, config).removed
        == if converted == [] then None else Some(tempDir)
  {
    var tempDir, convert := Join(outputDir, TempDirName), PerImage(decode, sizeOf, copyOk, encode);
    var files := SortStrings(ImagePaths(entries));
    var converted := Converted(files, tempDir, convert);
    assert Discovered(true, true, entries) == Success(files);
    if converted != [] {
      var p := converted[0];
      ConvertedExactly(files, tempDir, convert, p);
      var k :| 0 <= k < |files| && convert(files[k], tempDir) == Success(p);
      ScratchHoldsOutput(entries, files, k, tempDir, outputDir, decode, sizeOf, copyOk, encode);
    }
  }

  /** The output of one sorted image lies in the scratch directory. */
  lemma {:induction false} ScratchHoldsOutput(entries: seq<WalkEntry>, files: seq<string>, k: int, tempDir: string, outputDir: string,
                                              decode: string -> Option<Raster.Picture>, sizeOf: string -> int, copyOk: string -> bool,
                                              encode: (Raster.Picture, int) -> Option<nat>)
    requires forall k :: 0 <= k < |entries| && !entries[k].isDir ==> entries[k].path != [] && entries[k].path[|entries[k].path| - 1] != Separator
    requires files == SortStrings(ImagePaths(entries)) && 0 <= k < |files|
    requires tempDir == Join(outputDir, TempDirName)
    requires PerImage(decode, sizeOf, copyOk, encode)(files[k], tempDir).Success?
    ensures Dir(PerImage(decode, sizeOf, copyOk, encode)(files[k], tempDir).value) == tempDir
  {
    var p := files[k];
    assert p in multiset(files);
    assert p in ImagePaths(entries);
    FoundAreImageEntries(entries, p);
    assert IsSuffix(TempDirName, tempDir);
    assert TempDirName[|TempDirName| - 1] == 's';
    assert tempDir != [] && tempDir[|tempDir| - 1] == 's';
    if !(decode(p).Some? && !decode(p).value.Valid()) {
      Conversion.EfficientOutputInDir(p, tempDir, decode(p), sizeOf(p), copyOk(p), encode);
    }
  }
}
