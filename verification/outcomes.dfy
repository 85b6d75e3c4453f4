/** Error kinds and result wrappers shared by the catalog and the repositories.
    Each checked exception of the Java program becomes one ErrorKind; the
    human-readable message is dropped and only the offending id is kept. */
module Outcomes {

  /** The four recoverable failures the program signals. */
  datatype ErrorKind =
    | DuplicateId(id: string)     // repository add on a key already present
    | NotFound(id: string)        // repository update/delete on a missing key
    | InvalidPrice(id: string)    // product construction with a negative price
    | NonRefundable(id: string)   // refund of a product variant that refuses it

  /** The value of an operation that either yields a value or throws. */
  datatype Result<+R> = Ok(value: R) | Err(error: ErrorKind)

  /** The value of a `void` operation that may throw. */
  datatype Outcome = Done | Failed(error: ErrorKind)
}
