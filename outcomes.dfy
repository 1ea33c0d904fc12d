/** Values that stand for the ways a request handler of the scouting app can end.
    The Flask handlers raise exceptions or render error pages; here each failure
    is a value and the state it was raised in is left as it was. */
module Outcomes {

  datatype Option<+T> = None | Some(value: T)

  /** The failures the handlers can end in. */
  datatype Error =
    | MissingField(key: string)        // `request.form[key]` / `request.files[key]` raises a KeyError (HTTP 400)
    | UniqueViolation(column: string)  // sqlite3.IntegrityError: UNIQUE constraint failed on `table.column`
    | InvalidCredentials               // the login page re-rendered with "Invalid username or password"
    | Unauthorized                     // `@login_required` turns an anonymous session away
    | UserNotFound                     // the error page "User not found or not authenticated"

  datatype Result<+T> = Ok(value: T) | Err(error: Error) {
    predicate IsFailure() { Err? }

    function PropagateFailure<U>(): Result<U>
      requires Err?
    {
      Err(error)
    }

    function Extract(): T
      requires Ok?
    {
      value
    }
  }

  /** The result of a handler that changes state and hands nothing back but success. */
  datatype Outcome = Pass | Fail(error: Error)
}
