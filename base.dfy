/** Values shared by the dump and the restore side: an optional value and the
    errors the two sides return. */
module Base {

  datatype Option<+T> = None | Some(value: T)

  /** A value, or the error that took its place. */
  datatype Result<+T> = Success(value: T) | Failure(error: Error)

  /** The errors the modelled code can return. The database's own errors are
      abstract: only the statement that failed is recorded. */
  datatype Error =
    | UnsupportedType(key: string)   // the literal encoder met a type it does not know
    | NoInput                        // mergeInsert was given no statement
    | MissingValues                  // a later statement given to mergeInsert has no VALUES
    | QueryFailed(query: string)     // the database rejected a query of the dump side
    | ExecFailed(query: string)      // the database rejected a statement of the replay

  /** The text of each error the source creates itself (the database's own
      messages are not modelled). */
  function Message(e: Error): (r: string)
    requires !e.QueryFailed? && !e.ExecFailed?
  {
    match e
    case UnsupportedType(key) => "unsupported type: " + key
    case NoInput => "no input provided"
    case MissingValues => "invalid SQL: missing VALUES keyword"
  }
}
