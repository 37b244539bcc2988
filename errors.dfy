/**
 * The exceptions the core throws or settles promises with, and the three-way
 * classification of driver error codes (`Connection::createException`).
 */
module Errors {

  /** `Pool::MYSQL_CONNECTION_ISSUE_CODES`: transport or session failures of the handle. */
  const ConnectionIssueCodes: set<int> := {1053, 2006, 2008, 2013, 2055}

  /** The server's "Duplicate entry" error code. */
  const DuplicateEntryCode: int := 1062

  datatype Exception =
    | InvalidStateException(message: string)
    | InvalidArgumentException(message: string)
      /** PHP's `Error`, thrown when an object cannot be converted to a string. */
    | Error(message: string)
      /** PHP's `TypeError`, thrown when an escaper receives a value of the wrong type. */
    | TypeError(message: string)
    | UniqueConstraintViolationException(message: string, code: int)
    | ConnectionException(message: string, code: int)
    | QueryException(message: string, code: int)
  {
    /** The exceptions that carry a driver error code. */
    predicate IsDriverError() {
      UniqueConstraintViolationException? || ConnectionException? || QueryException?
    }
  }

  /**
   * `createException`: builds the exception for the handle's current error code and message.
   * Exactly one of the three driver exceptions is chosen, by the code alone; only the
   * connection-issue codes yield a `ConnectionException`, which is what makes the pool evict.
   */
  function CreateException(code: int, message: string): (e: Exception)
    ensures e.IsDriverError() && e.code == code && e.message == message
    ensures e.UniqueConstraintViolationException? <==> code == DuplicateEntryCode
    ensures e.ConnectionException? <==> code in ConnectionIssueCodes
    ensures e.QueryException? <==> code != DuplicateEntryCode && code !in ConnectionIssueCodes
  {
    if code == DuplicateEntryCode then UniqueConstraintViolationException(message, code)
    else if code in ConnectionIssueCodes then ConnectionException(message, code)
    else QueryException(message, code)
  }
}
