/** Failure kinds of the container codec and the result wrappers that carry them. */
module Errors {

  /** Every way the codec can refuse its input. Each kind stands for one
      exception the implementation raises (VerifyException with its message,
      or the Python runtime error that the same input provokes). */
  datatype Error =
    | InsufficientSize        // header shorter than 128 bytes
    | MagicMismatch           // magic bytes differ from 90 80 30 (for the requested device)
    | TypeMismatch            // type field equals the colour sentinel 30 00 01 03
    | ChecksumMismatch        // stored checksum differs from the computed one
    | SizeMismatch            // stored size + 0x80 differs from the file length
    | TableTypeMismatch       // table name is not "FP-COLOR"
    | VersionPatternMismatch  // version name does not start like V####ABC_DEF
    | VersionTrailerMismatch  // version differs from the 3-byte trailer
    | NotAscii                // a text field holds a byte >= 0x80 (ASCII decoding fails)
    | NotANumber              // int() of a non-decimal text
    | TableMissing            // no slot 0 at 0x80 (the table iterator is exhausted at once)
    | TableWidthMismatch      // slot 0 is not 4
    | TruncatedSlot           // the data ends inside a 4-byte table slot
    | NotABitmap              // a blob does not start with "BM"
    | LocationMismatch        // a chained blob is not where the table says
    | IndexOutOfRange         // more chained blobs than table addresses (list index)
    | OffsetOutOfRange        // a relative offset does not fit an unsigned 32-bit slot
    | ChainBroken             // non-padding bytes after the end of the blob chain
    | MissingTableEntry       // a bitmap index without a sized entry in the saved table (KeyError)

  datatype Option<+T> = None | Some(value: T)

  datatype Result<+T> = Ok(value: T) | Err(error: Error)

  /** The outcome of a check that either passes or names the first failure. */
  datatype Outcome = Pass | Fail(error: Error)
}
