/** Option, the failure kinds the cursor reports, and a Result that carries one of them. */
module Wrappers {

  datatype Option<+T> = None | Some(value: T)

  /** The exception classes the cursor throws, one constructor per class the callers can tell apart. */
  datatype Error =
    | IllegalState      // IllegalStateException: empty cursor, end() at root, insertion beside a top node
    | IllegalArgument   // IllegalArgumentException: a required argument is null, a bad path token
    | NumberFormat      // NumberFormatException from Integer.parseInt on an index that does not fit an int
    | NotFound          // DOMException NOT_FOUND_ERR: removing an attribute the element does not have
    | IndexOutOfBounds  // IndexOutOfBoundsException: name accessors on an empty cursor
    | InvalidCharacter  // DOMException INVALID_CHARACTER_ERR: createElement/createAttribute of a string that is not an XML name
    | NullPointer       // NullPointerException: a DOM lookup the cursor dereferences without a check

  datatype Result<+T> = Ok(value: T) | Err(error: Error)

  /** The outcome of an operation that returns nothing but may throw. */
  datatype Outcome = Pass | Fail(error: Error)
}
