/** Failure-carrying results shared by every stage of the decode pipeline.
    Each `Failure` stands for the Python exception that ends the program at
    that point: nothing in the decode path catches one. */
module Errors {

  datatype Option<+T> = None | Some(value: T)

  /** Why a decode or a cycle stopped. */
  datatype Failure =
    | StreamEnded             // `__next__()` raised StopIteration before enough bytes arrived
    | PixelWriteRejected      // `bitmap[i] = v` raised: index outside the bitmap or value too wide
    | PaletteEntryShort       // unpacking `blue, green, red, _` from a group of fewer than 4 bytes
    | PaletteIndexOutOfRange  // `palette[i // 4] = ...` past the palette's end
    | UnsupportedBitDepth     // a BMP bit depth outside 1..8
    | PaletteUnbound          // `palette` read before any branch assigned it
    | TimestampOutOfRange     // `timestamp.to_bytes(4, "little")` raised OverflowError

  datatype Result<+T> = Ok(value: T) | Err(failure: Failure)

  /** A step that produces no value. */
  datatype Outcome = Pass | Fail(failure: Failure)
}
