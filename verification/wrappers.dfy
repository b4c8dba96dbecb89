/** Failure-carrying datatypes shared by every module of the model.
    `Option` stands for a nullable pointer, `Result` for a call that may throw. */
module Wrappers {

  datatype Option<+T> = None | Some(value: T)

  /** The ways the compressor's operations can fail. */
  datatype Error =
    | Truncated            // the stream ended before a field was complete
    | NotValidFile         // a tree did not start with "TREE"
    | NotValidFractalFile  // a fractal file did not start with "FRACTAL"
    | BadId                // a serialized triangle id outside the declared count
    | Unresolved           // a tree slot no record filled, left as a null pointer
    | NullList             // a null output list was passed in
    | NotInvertible        // an affine transform with a (near) zero determinant
    | Undefined            // a real division by zero (NaN or infinity in the source)
    | SizeMismatch         // two sample lists of different lengths

  datatype Result<+T> = Ok(value: T) | Err(error: Error) {
    predicate IsFailure() {
      Err?
    }

    function PropagateFailure<U>(): Result<U>
      requires Err?
    {
      Err(error)
    }

    function Extract(): T
      requires Ok?
    {
      value
    }
  }
}
