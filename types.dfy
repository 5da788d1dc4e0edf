/** Shared vocabulary of both cache engines: the value domain, the two error
    kinds of the simple-cache contract, and the wrappers the operations return. */
module CacheTypes {

  datatype Option<+T> = None | Some(value: T)

  /** Why a key was refused: the two messages of validateKey. */
  datatype KeyFault =
    | EmptyKey            // "Key should be a non empty string"
    | ReservedCharacter   // "Can't validate the specified key"

  /** The two exception classes, as a closed tagged type: InvalidArgumentException
      (a bad key) and CacheException (any other cache failure, which no
      operation modelled here throws). */
  datatype CacheError =
    | InvalidArgument(fault: KeyFault)
    | CacheFailure

  /** A call either returns a value or throws a cache error. */
  datatype Result<+T> = Ok(value: T) | Err(error: CacheError)

  /** The cached payload: the serializable PHP values the model covers. */
  datatype Value =
    | Null
    | Bool(b: bool)
    | Int(i: int)
    | Str(s: string)
    | List(items: seq<Value>)

  /** What running a getMultiple generator to its end produces: the key/value
      pairs it yields in order and the exception it throws, if any. */
  datatype Yielded = Yielded(pairs: seq<(string, Value)>, thrown: Option<CacheError>)
}
