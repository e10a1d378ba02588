/** The optional value, standing for Python's `X | None`. */
module Maybe {

  datatype Option<+T> = None | Some(value: T)
}
