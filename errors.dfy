/** Failure values of the user-management core. Each variant stands for one
    `ValueError` the Python code raises; `DuplicateEmailRow` stands for the
    integrity error the storage engine raises when the unique index on the
    email column would be violated. */
module Errors {

  datatype Error =
    | EmailRequired        // empty email string
    | EmailInvalidFormat   // email string does not match the address pattern
    | EmailTooLong         // email string longer than 254 characters
    | NameRequired         // user name empty or whitespace only
    | NameTooLong          // user name longer than 100 characters
    | EmailTaken           // email already used by another user (service check)
    | DuplicateEmailRow    // unique index on the email column violated (storage)

  /** A value, or the error that Python would have raised instead. */
  datatype Result<+T> = Ok(value: T) | Err(error: Error)

  /** Python's `Optional[T]`. */
  datatype Option<+T> = None | Some(value: T)

  /** A check that passes or raises. */
  datatype Outcome = Pass | Fail(error: Error)
}
