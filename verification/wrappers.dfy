/** Small result types shared by the modules of the CGI provider model. */
module Wrappers {

  /** A value that may be absent (Go's `value, ok` idiom and nil results). */
  datatype Option<+T> = None | Some(value: T)

  /** How a Go computation ends: it returns a value, or it panics.
      A panic inside `CgiProvider.Call` is stopped by its deferred `recover`,
      after which `Call` returns a nil response. */
  datatype GoOutcome<+T> = Returns(value: T) | Panics
}
