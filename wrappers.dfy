/** Optional values and outcomes shared by every module of the model. */
module Wrappers {

  /** A Java reference that may be null: `None` stands for null. */
  datatype Option<T> = None | Some(value: T)
  {
    function GetOr(default: T): (r: T)
      ensures this.Some? ==> r == this.value
      ensures this.None? ==> r == default
    {
      match this
      case None => default
      case Some(v) => v
    }
  }

  /** The Java exceptions the modelled code throws or lets escape. */
  datatype Exception =
    | NullPointer
    | IllegalArgument
    | IllegalState
    | UnsupportedOperation
    | ConcurrentModification
    | NoSuchElement
    | IndexOutOfBounds
    | TypeConverterNotFound
    | TypeConversionFailed

  /** A call that either returns normally or ends by throwing. */
  datatype Outcome<T> = Returned(value: T) | Threw(error: Exception)
}
