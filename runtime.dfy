/** Values that stand in for the .NET runtime's null references and exceptions. */
module Runtime {

  /** A reference that may be null: `None` is the source's `null`. */
  datatype Option<+T> = None | Some(value: T) {

    /** The C# `??` operator: the value when present, otherwise `fallback`. */
    function GetOr(fallback: T): T {
      match this
      case Some(v) => v
      case None => fallback
    }
  }

  /** The exceptions the modelled code can raise. */
  datatype Exception =
    | ArgumentOutOfRange   // `String.Substring` past the end of the string
    | JsonException        // the JSON deserialiser rejected its input

  /** Either a value or the exception that propagates out of a call. */
  datatype Result<+T> = Ok(value: T) | Err(error: Exception) {

    predicate IsFailure() {
      Err?
    }

    function PropagateFailure<U>(): Result<U>
      requires Err?
    {
      Err(error)
    }

    function Extract(): T
      requires Ok?
    {
      value
    }
  }
}
