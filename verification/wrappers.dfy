/** Optional values, the exceptions the repository layer raises, and results that carry them. */
module Wrappers {

  /** Python's `None` or a value. */
  datatype Option<+T> = None | Some(value: T) {
    function GetOr(default: T): T {
      match this
      case Some(v) => v
      case None => default
    }
  }

  /** The exceptions a repository call can end with. */
  datatype Error =
    | ValueError          // paging arguments given but below 1
    | TypeError           // get_produtos given neither a Categoria nor a UUID
    | IntegrityError      // the commit inserted a primary key that is already stored
    | InvalidRequestError // session.delete on an entity that has no stored row

  /** The value a query returns, or the exception it raises. */
  datatype Result<+T> = Ok(value: T) | Err(error: Error)

  /** The end of a write: committed, or rolled back with an exception. */
  datatype Outcome = Done | Failed(error: Error)
}
