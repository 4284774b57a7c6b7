/** Failure-carrying datatypes shared by the other modules.
    A Go `panic(...)` raised on bad arguments becomes a `Fail` value;
    a nil result becomes `None`. */
module Wrappers {

  datatype Option<+T> = None | Some(value: T)

  datatype Result<+T, +E> = Ok(value: T) | Fail(error: E)

  /** The abnormal outcomes of the operations modelled in this project. */
  datatype Error =
    | LengthMismatch      // a distance metric called with vectors of different lengths
    | DimensionMismatch   // items or ranges that do not match the tree's dimensionality
    | ZeroDimensions      // `depth % 0` while building a tree of dimension 0
}
