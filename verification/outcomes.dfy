/** Failure-carrying values. The program reports its errors through pop-up
    windows and a `False` return, or by raising; the model returns them. */
module Outcomes {

  /** A value that may be absent. */
  datatype Option<+T> = None | Some(value: T)

  /** Either a computed value or the reason there is none. */
  datatype Result<+T, +E> = Ok(value: T) | Err(error: E)

  /** The user-facing messages the program can pop up, one per key of its
      message table. */
  datatype Message =
    | BadDna         // a DNA character outside G, C, T, A
    | NotDivBy3      // DNA length not a multiple of three
    | BadBase        // a restriction-site character outside G, C, T, A
    | BadBaseLength  // restriction-site length outside 4..8
    | BaseNotFound   // deleting a restriction site that is not in the library

  /** Whether a check passed, and if not, which message it popped up. */
  datatype Verdict = Pass | Fail(reason: Message)

  /** The `IndexError` raised by indexed access into the library. */
  datatype IndexError = IndexOutOfRange
}
