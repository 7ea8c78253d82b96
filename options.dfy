/** The optional value used wherever an opaque step of the program may raise. */
module Options {

  /** `None` stands for a Python exception; `Some(v)` for a normal return of `v`. */
  datatype Option<+T> = None | Some(value: T)
}
