/** Error and result values shared by the pipeline's components. */
module Outcomes {

  /** The error conditions the conversion pipeline reports, one per distinct
      `fmt.Errorf` / propagated I/O error in main.go. */
  datatype Error =
    | InputDirMissing        // os.Stat of the input directory failed
    | OutputDirFailed        // os.MkdirAll of the output directory failed
    | WalkFailed             // filepath.Walk reported an error
    | NoImageFilesFound      // no supported file in the input directory
    | TempDirFailed          // os.MkdirAll of the scratch directory failed
    | DecodeFailed           // os.Open or image.Decode of a source image failed
    | WriteFailed            // os.Create, jpeg.Encode, os.Stat or the copy failed
    | NoImageFilesProvided   // calculateAverageImageSize given an empty list
    | NoValidImagesFound     // calculateAverageImageSize could read no image

  datatype Result<T> = Success(value: T) | Failure(error: Error)

  datatype Option<T> = None | Some(value: T)
}
