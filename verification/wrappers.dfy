/** Small failure-carrying datatypes shared by every module of the model:
    `Option` stands for Java's `Optional` (and for a nullable reference),
    `Result` for a value or the message of the exception thrown instead. */
module Wrappers {

  datatype Option<+T> = None | Some(value: T)

  datatype Result<+T> = Success(value: T) | Failure(message: string)

  /** The smaller of two integers (Java's `Math.min`). */
  function Min(a: int, b: int): int
  {
    if a <= b then a else b
  }
}
