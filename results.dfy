/** Failure-compatible wrappers used for the converter's exceptions. */
module Results {

  datatype Option<+T> = None | Some(value: T) {
    predicate IsFailure() { None? }

    function PropagateFailure<U>(): Option<U>
      requires None?
    {
      None
    }

    function Extract(): T
      requires Some?
    {
      value
    }
  }

  /** A computation that either yields a value or raises an error. */
  datatype Result<+T, +E> = Success(value: T) | Failure(error: E) {
    predicate IsFailure() { Failure? }

    function PropagateFailure<U>(): Result<U, E>
      requires Failure?
    {
      Failure(error)
    }

    function Extract(): T
      requires Success?
    {
      value
    }
  }

  /** A computation with effects only, that either completes or raises an error. */
  datatype Outcome<+E> = Pass | Fail(error: E) {
    predicate IsFailure() { Fail? }

    function PropagateFailure(): Outcome<E>
      requires Fail?
    {
      this
    }
  }
}

/** The exceptions the converter, and the .NET calls it makes, can raise. */
module ConvertErrors {

  datatype ConvertError =
    | UnexpectedNodeType             // JsonSerializationException: a node kind with no JSON key
    | InvalidBoolean                 // FormatException from XmlConvert.ToBoolean on a json:Array value
    | NotAnObject                    // JsonSerializationException: the JSON does not begin with an object
    | MultipleRootProperties         // JsonSerializationException: a second property at document level
    | UnexpectedToken                // JsonSerializationException: a token the reader cannot accept here
    | UnexpectedDeclarationProperty  // JsonSerializationException: a bad property inside "?xml"
    | NullValue                      // NullReferenceException: reader.Value.ToString() on a token with no value
    | EmptyPropertyName              // IndexOutOfRangeException: attributeName[0] on an empty name
    | DuplicateAttribute             // ArgumentException: Dictionary.Add of an attribute name seen before
}
