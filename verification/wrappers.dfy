/** Failure-compatible wrappers shared by every module of the model. */
module Wrappers {

  /** A value that may be absent; `None` stands for a C# `null` result. */
  datatype Option<+T> = None | Some(value: T)

  /** The outcome of an operation that may raise: `Failure` carries what was raised. */
  datatype Result<+T, +E> = Success(value: T) | Failure(error: E) {

    predicate IsFailure() {
      Failure?
    }

    function PropagateFailure<U>(): Result<U, E>
      requires Failure?
    {
      Failure(error)
    }

    function Extract(): T
      requires Success?
    {
      value
    }
  }
}

/** The .NET exceptions the generator never catches. Only a
    `SerializationException` is caught (and reported) by the generator;
    every exception listed here leaves the generator pass unfinished. */
module Exceptions {

  datatype Fault =
    /** a member access through a null reference */
    | NullReference
    /** `IEnumerator.Current` read after the enumerator ran past its end */
    | InvalidOperation
    /** `string.Substring` with a negative length */
    | ArgumentOutOfRange
    /** a reflection lookup by name that found more than one candidate */
    | AmbiguousMatch(name: string)
    /** an accessibility that has no single C# keyword */
    | UnknownAccessibility
    /** a symbol that is neither a method nor a property */
    | InvalidSymbolKind
    /** the invoked user member itself threw */
    | Invocation(message: string)
}
