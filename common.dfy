/** Failure-carrying results shared by every module of the model. */
module Common {

  /** The failures the registry and the schema extractor can raise. */
  datatype Error =
    | MalformedData           // truncated buffer, negative name length, unknown or unsupported field tag
    | InvalidFactory          // a definition registered against another factory's context
    | IncompatibleDefinitions // two definitions with one (class id, version) key that differ
    | VersionConflict         // a class id given a second, different current version
    | UnknownField            // a dotted path names a field the current definition lacks
    | UnresolvedNestedSchema  // a dotted path steps into a definition that is not registered
    | TooDeep                 // nesting deeper than the fuel the extractor was given
    | WrongArgumentCount      // a constructor called with fewer arguments than it declares

  datatype Option<+T> = None | Some(value: T) {
    function GetOr(default: T): T {
      match this
      case Some(v) => v
      case None => default
    }
  }

  datatype Result<+T> = Ok(value: T) | Err(error: Error) {
    predicate IsFailure() { Err? }

    function PropagateFailure<U>(): Result<U>
      requires Err?
    {
      Err(error)
    }

    function Extract(): T
      requires Ok?
    {
      value
    }
  }

  /** The outcome of an operation that returns nothing but may raise. */
  datatype Outcome = Pass | Fail(error: Error)
}
