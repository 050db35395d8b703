/** Small failure-carrying datatypes shared by the codec modules. */
module Wrappers {

  /** A value that may be absent: the model of a C# nullable reference (`string?`)
      and of a conversion that can fail. */
  datatype Option<+T> = None | Some(value: T) {

    /** The carried value, or `default` when there is none (C#'s `??` operator). */
    function GetOr(default: T): (r: T)
      ensures Some? ==> r == value
      ensures None? ==> r == default
    {
      match this
      case Some(v) => v
      case None => default
    }
  }
}
