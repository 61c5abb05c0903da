/** Host-language values the model needs: optional values, raised
    exceptions, and the dynamically typed values kept in option and form
    dictionaries. */
module Values {

  datatype Option<+T> = None | Some(value: T)

  /** The exceptions the modelled code raises and lets propagate. */
  datatype Exception =
    | NameError(name: string)
    | TypeError
    | ValueError
    | IndexError
    | AttributeError
    | IntegrityError
    | MissingData

  /** The outcome of an operation that either returns or raises. */
  datatype Result<+T> = Ok(value: T) | Raised(exception: Exception) {

    predicate IsFailure() {
      Raised?
    }

    function PropagateFailure<U>(): Result<U>
      requires Raised?
    {
      Raised(exception)
    }

    function Extract(): T
      requires Ok?
    {
      value
    }
  }

  /** A dynamically typed value, as stored in an options or form dictionary. */
  datatype Value = VNone | VBool(b: bool) | VInt(i: int) | VStr(s: string)

  /** The truth value a condition gives to a value. */
  predicate Truthy(v: Value) {
    match v
    case VNone => false
    case VBool(b) => b
    case VInt(i) => i != 0
    case VStr(s) => |s| > 0
  }
}
