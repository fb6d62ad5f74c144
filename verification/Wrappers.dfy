/** Option and Result, and the errors the walk can surface. */
module Wrappers {

  datatype Option<+T> = None | Some(value: T) {
    predicate IsFailure() { None? }

    function PropagateFailure<U>(): Option<U>
      requires None?
    {
      None
    }

    function Extract(): T
      requires Some?
    {
      value
    }
  }

  /** What a `Truncated` error says it could not read. */
  datatype Structure =
    | NodeHeaderOffsetField
    | NodeHeader
    | DirectoryPage
    | ObjectTablePage

  datatype RefsError =
    | Truncated(structure: Structure)
    | ObjectIdNotFound(objectId: int)
    | UnresolvedVirtualBlock(block: int)

  datatype Result<+T> = Success(value: T) | Failure(error: RefsError) {
    predicate IsFailure() { Failure? }

    function PropagateFailure<U>(): Result<U>
      requires Failure?
    {
      Failure(error)
    }

    function Extract(): T
      requires Success?
    {
      value
    }
  }
}
