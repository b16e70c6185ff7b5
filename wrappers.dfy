/** Failure-compatible result types shared by the whole model.
    A Java method that throws becomes a method or function returning `Err`. */
module Wrappers {

  datatype Option<+T> = None | Some(value: T) {
    function GetOr(default: T): T {
      match this
      case Some(v) => v
      case None => default
    }
  }

  /** The exceptions the modelled code can raise. */
  datatype Error =
    | IndexOutOfBounds          // a Netty ByteBuf read or skip past the writer index
    | IllegalArgument           // a negative skip length, an out-of-range Uint32.valueOf
    | NullPointer               // requireNonNull on a missing value
    | MalformedMatch(field: string)  // a match entry that occurs twice

  datatype Result<+T> = Ok(value: T) | Err(error: Error) {
    predicate IsFailure() {
      Err?
    }

    function PropagateFailure<U>(): Result<U>
      requires Err?
    {
      Err(error)
    }

    function Extract(): T
      requires Ok?
    {
      value
    }
  }
}
