/** Result shapes shared by the modules: an optional value, and the three-way answer of an allocator query. */
module Wrappers {

  datatype Option<+T> = None | Some(value: T)

  /** The status of an acquire call: the request is not supported, an arena was handed out, or none fits; or a check
      that the call runs into aborts the program. */
  datatype Acquired<+T> = Failed | Acquired(value: T) | NoResource | Aborted {

    predicate Answered() {
      Acquired? || NoResource?
    }
  }
}
