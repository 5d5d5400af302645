/** The Python values and exceptions that cross the word guesser's boundary. */
module Values {

  datatype Option<T> = None | Some(value: T)

  /** The exceptions the guesser raises to its caller. */
  datatype Error =
    | AssertionError  // a failed `assert` (no conditions, malformed condition tuple)
    | TypeError       // a condition or argument of the wrong kind
    | IndexError      // a positional condition indexing outside a word
    | ValueError      // `random.sample` asked for more items than exist, or a negative count

  datatype Result<T> = Ok(value: T) | Err(error: Error)

  /** A dynamically typed argument as `find_candidates` receives it: `include` and
      `exclude` may be a str, a tuple, a list of those, or anything else. */
  datatype PyValue =
    | PyNone
    | PyStr(s: string)
    | PyInt(n: int)
    | PyTuple(items: seq<PyValue>)
    | PyList(items: seq<PyValue>)
    | PyOther(truthy: bool)   // any other object, with its truth value

  /** Python truthiness, as used by `if include:` and `any((include, exclude))`. */
  predicate Truthy(v: PyValue)
  {
    match v
    case PyNone => false
    case PyStr(s) => s != []
    case PyInt(n) => n != 0
    case PyTuple(items) => items != []
    case PyList(items) => items != []
    case PyOther(t) => t
  }
}
