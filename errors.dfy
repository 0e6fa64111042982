/**
 * Error kinds of the image model. Each corresponds to one exception the
 * C++ code throws: the `Image` constructors (std::invalid_argument), the
 * bounds checks of GetPixel/SetPixel (std::out_of_range) and the BMP
 * reader's and writer's validation failures (std::runtime_error).
 */
module Errors {

  datatype Error =
    | ZeroDimensions      // "Image dimensions cannot be zero"
    | DataMismatch        // "Input data dimensions mismatch"
    | OutOfRange          // "Pixel coordinates out of range"
    | FileTooSmall        // "File is too small to be a valid BMP"
    | InvalidSignature    // "Not a valid BMP file (invalid signature)"
    | UnsupportedFormat   // "Only 24-bit uncompressed BMP files are supported"
    | InvalidDataOffset   // "Invalid BMP data offset"
    | Truncated           // "BMP file is truncated"

  /** The value of an operation that may throw. */
  datatype Result<+T> = Ok(value: T) | Err(error: Error)

  /** The outcome of a `void` operation that may throw. */
  datatype Outcome = Pass | Fail(error: Error)
}
