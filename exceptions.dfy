/** The Python exceptions the commands raise, as values. */
module Exceptions {

  datatype Error =
    | ValueError(message: string)  // an invalid path, a wrong key, a non-ASCII token
    | OSError(path: string)        // `open`, `read` or `write` failed on this path
    | EOFError                     // `input()` found no more console input
    | TypeError                    // a command called with more arguments than it takes

  /** How a Python call ended: it returned, or it raised. */
  datatype Status = Returned | Raised(error: Error)
}
