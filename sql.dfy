/** Values that the relation store hands back: nullable columns and statement errors. */
module Sql {

  /** A nullable column value; `None` is SQL NULL. */
  datatype Option<+T> = None | Some(value: T)

  /** The PostgreSQL error conditions the model covers. */
  datatype SqlError =
    | UniqueViolation       // 23505: INSERT of an id that is already a key
    | ForeignKeyViolation   // 23503: a parent_id that names no row at the end of the statement
    | UndefinedTable        // 42P01: reading the closure view before it was created

  /** The reply of one statement: its rows, or the error that aborted it. */
  datatype Result<+R> = Success(value: R) | Failure(error: SqlError)
}
