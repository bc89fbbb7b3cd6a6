/** The absent-or-present value that stands in for Python's `None` and for the
    exceptions the lane aggregator catches and turns into `None`. */
module Options {

  datatype Option<+T> = None | Some(value: T)
}
