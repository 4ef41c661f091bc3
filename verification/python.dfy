/**
 The small part of Python's value and error semantics that the preprocessor
 relies on: optional values, raised exceptions as a result datatype, the
 JSON-like values found in notebook metadata, and their truthiness.
 */
module Python {

  /** A value that may be absent (a missing key or attribute). */
  datatype Option<+T> = None | Some(value: T)

  /** The outcome of evaluating an expression that may raise. */
  datatype Result<+T, +E> = Success(value: T) | Failure(error: E)

  /** The exceptions the preprocessor's guarded expression can raise. */
  datatype PyError = KeyError(key: string) | AttributeError(name: string)

  /** A JSON-like value as stored in a notebook's metadata mappings. */
  datatype Value =
    | VNone
    | VBool(b: bool)
    | VInt(i: int)
    | VFloat(f: real)
    | VStr(s: string)
    | VList(items: seq<Value>)
    | VDict(entries: map<string, Value>)

  /** Python's `bool(v)`: `None`, `False`, zero and empty containers are falsy. */
  predicate Truthy(v: Value)
  {
    match v
    case VNone => false
    case VBool(b) => b
    case VInt(i) => i != 0
    case VFloat(f) => f != 0.0
    case VStr(s) => |s| != 0
    case VList(items) => |items| != 0
    case VDict(entries) => |entries| != 0
  }

  /** Subscription `m[key]`, which raises `KeyError` when the key is absent. */
  function Subscript(m: map<string, Value>, key: string): Result<Value, PyError>
  {
    if key in m then Success(m[key]) else Failure(KeyError(key))
  }
}
