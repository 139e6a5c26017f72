/** Shared vocabulary of the class-management engine: optional values,
    the document status enumeration and the integer helpers that stand for
    JavaScript's Math.min and Math.max. */
module Common {

  /** A value that may be missing (a JavaScript `undefined` or `null`). */
  datatype Option<T> = None | Some(value: T) {
    /** The value, or `default` when missing (JavaScript's `?? default`). */
    function GetOr(default: T): T {
      match this
      case Some(v) => v
      case None => default
    }
  }

  /** The `status` of a stored document: 'active', 'inactive' or 'deleted'. */
  datatype RecordStatus = Active | Inactive | Deleted

  /** Identifiers are ObjectIds, modelled as numbers compared by value
      (an ObjectId and its string form are one key). */
  type StudentId = nat
  type RecordId = nat
  type EntryId = nat

  function Min(a: int, b: int): int {
    if a <= b then a else b
  }

  function Max(a: int, b: int): int {
    if a >= b then a else b
  }
}
