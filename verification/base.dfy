/** Values shared by the app store and the countdown screen. */
module Base {

  /** Swift's `Optional`. */
  datatype Option<T> = None | Some(value: T)

  /** A `UUID`; the model receives fresh ones as parameters instead of generating them. */
  type Uuid = int

  /** A `Date`, as whole seconds on some fixed clock; the model receives it as a parameter. */
  type Date = int
}
