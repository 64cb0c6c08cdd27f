/** Option, Result and Outcome, and the exceptions the store raises. */
module Wrappers {

  /** `None` stands for a C# `null` reference. */
  datatype Option<+T> = None | Some(value: T)

  datatype Result<+T, +E> = Success(value: T) | Failure(error: E)

  /** The outcome of a C# `void` method: it returns normally or throws. */
  datatype Outcome<+E> = Pass | Fail(error: E)

  /** The .NET exception types thrown by the modelled code. */
  datatype Exception =
    | ArgumentNullException
    | ArgumentException
    | ArgumentOutOfRangeException
    | InvalidOperationException
    | InvalidConstraintException
    | OverflowException
    | EndOfStreamException
    | DivideByZeroException
}
