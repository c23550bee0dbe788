/**
 * The failures the pack reader can raise, the result type operations
 * return instead of throwing, and an option type for nullable references.
 */
module Errors {

  datatype Error =
    | NotAPackFile               // IOException "Not a PACK file."
    | UnsupportedVersion(version: int)  // IOException "Unsupported pack version"
    | CorruptIndex               // CorruptObjectException: index of incorrect file length
    | ShortRead                  // the byte source could not deliver the bytes asked for
    | UnknownObjectType(typeCode: int)  // IOException "Unknown object type"
    | CloseFailed                // IOException from closing a byte source
    | NegativeArraySize          // NegativeArraySizeException (unchecked)
    | IndexOutOfBounds           // ArrayIndexOutOfBoundsException (unchecked)
  {
    /** Whether the failure is an IOException, the only kind the constructor catches. */
    predicate IsIOException() {
      !(NegativeArraySize? || IndexOutOfBounds?)
    }
  }

  datatype Result<+T> = Ok(value: T) | Err(error: Error)

  /** Stands for a Java reference that may be null. */
  datatype Option<+T> = None | Some(value: T)
}
