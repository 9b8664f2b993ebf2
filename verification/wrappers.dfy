/** How the model writes three C# notions shared by every module: a reference
    that may be `null`, a constructor that may throw an argument exception,
    and the `object` argument of an `Equals` override. */
module Wrappers {

  /** A value that may be absent: a C# reference that may be `null`. */
  datatype Option<+T> = None | Some(value: T)

  /** The outcome of a constructor or validator: a value, or the exception it throws. */
  datatype Result<+R, +E> = Success(value: R) | Failure(error: E)

  /** The argument of a C# `Equals(object)` override as the override sees it:
      `null`, an instance of the family `T` it knows how to compare, or an object
      of an unrelated type. */
  datatype Reference<+T> = Null | Ref(value: T) | Foreign

  /** The argument exceptions thrown by the constructors of the model. */
  datatype ArgumentError =
    | ArgumentNull(paramName: string)
    | ArgumentOutOfRange(paramName: string)
}
