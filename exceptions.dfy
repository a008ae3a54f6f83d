/** What a Java call in the modelled code can produce besides a plain value. */
module Exceptions {

  /** The exceptions the modelled methods throw. An operation handed to `zip` may
      throw any unchecked exception; `OtherException` stands for those, by class
      name and message. */
  datatype Exception =
    | ArithmeticException(message: string)
    | IndexOutOfBoundsException(index: int)
    | StringIndexOutOfBoundsException(index: int)
    | OtherException(className: string, message: string)

  /** A call that either returns a value or throws an exception. */
  datatype Result<T> = Ok(value: T) | Thrown(exception: Exception)

  /** `Optional.orElse(null)`: either a value or `null`. */
  datatype Option<T> = None | Some(value: T)
}
