/** The reader's two failure kinds (an I/O failure and an invalid document),
    plus the `std::logic_error` of the unsupported inline decoding path.
    Each failure carries a tag naming the read or the check that failed,
    in place of the source's message text. */
module Errors {

  /** Which read ran short. */
  datatype ShortRead =
    | FileHeaderRead
    | InfoHeaderSizeRead
    | CoreHeaderRead
    | InfoHeaderRead
    | BitMaskRead
    | PixelRead

  /** Which format rule the document breaks. */
  datatype Violation =
    | BadSignature
    | ZeroFileSize
    | ReservedNotZero
    | FileSizeMismatch
    | BadInfoHeaderSize
    | NonPositiveSize
    | NonPositiveWidth
    | ZeroHeight
    | BadPlanes
    | BadBitCount
    | BadCompression
    | ZeroSizeImage
    | TooManyImportant
    | NonStandardMasks

  /** The outcome of a chain of validity checks: the first rule it breaks. */
  datatype Verdict = Accept | Reject(violation: Violation)

  datatype Error =
    | IOError(read: ShortRead)
    | InvalidBMP(violation: Violation)
    | LogicError

  datatype Result<+T> = Success(value: T) | Failure(error: Error)

  /** What a `void` operation that may throw ends with. */
  datatype Outcome = Pass | Fail(error: Error)
}
