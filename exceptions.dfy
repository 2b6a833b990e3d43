/**
  The exception classes the library throws, as values, and the wrappers that
  carry either a result or one of them.
 */
module Exceptions {

  /** One constructor per exception class; `name` is the argument, option or
      flag the exception is about ("" when the source passes none). */
  datatype Failure =
    | ArgumentError(name: string, message: string)          // ArgumentException
    | ParseError(name: string, message: string)             // ParseArgumentException
    | RequiredError(name: string, message: string)          // ParseArgumentRequiredException
    | ValidError(name: string, message: string)             // ParseArgumentValidException
    | AccessDenied(name: string, message: string)           // AccessDeniedException
    | GenericError(message: string)                         // Exception

  datatype Option<T> = None | Some(value: T)

  datatype Result<T> = Ok(value: T) | Err(error: Failure) {
    predicate IsFailure() { Err? }
    function PropagateFailure<U>(): Result<U>
      requires Err?
    {
      Err(error)
    }
    function Extract(): T
      requires Ok?
    {
      value
    }
  }
}
