/** The crate's error type, reduced to the variants that the input layer
    produces, and its result type. */
module TessErrors {
  import opened Prelude

  datatype TessError =
    | ImageFormatError              // missing, unreadable or unsupported extension
    | ImageNotFoundError            // stored path is not valid UTF-8
    | TempfileError(cause: string)  // the temporary file could not be created
    | DynamicImageError(cause: string) // the image could not be written as PNG

  type TessResult<T> = Result<T, TessError>
}
