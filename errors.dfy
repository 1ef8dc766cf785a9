/**
 * The exceptions the core throws, as values. A PHP built-in that returns `false`
 * instead of a value is an `Option` that is `None`.
 */
module Errors {

  /** The exception a call ends with. */
  datatype Error =
    | HmacFailure            // \RuntimeException "Failed to generate HMAC with hash algorithm ..."
    | DataIsTampered         // DataIsTamperedException, thrown by Mac::getMessage
    | AuthenticationFailure  // AuthenticationException, thrown by Crypt's decryption
    | OpenSslFailure         // \RuntimeException "OpenSSL failure on encryption/decryption ..."
    | CipherNotAllowed       // \RuntimeException "... is not an allowed cipher."
    | PrimitiveError         // a \ValueError or \TypeError raised by a PHP built-in and not caught

  /** A value, or a PHP built-in's `false`. */
  datatype Option<+T> = None | Some(value: T) {
    function ToResult(error: Error): Result<T> {
      match this
      case Some(v) => Ok(v)
      case None => Err(error)
    }
  }

  /** The value a call returns, or the exception it throws. */
  datatype Result<+T> = Ok(value: T) | Err(error: Error) {
    predicate IsFailure() {
      Err?
    }

    function PropagateFailure<U>(): Result<U>
      requires Err?
    {
      Err(error)
    }

    function Extract(): T
      requires Ok?
    {
      value
    }
  }
}
