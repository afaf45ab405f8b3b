/** Python-level values that cross the boundary between the command line front end
    and the policy engine: command arguments, operation results and the fields of
    the response envelope. */
module PyValues {

  /** The values an engine operation can return or receive. `Object` stands for an
      instance of an arbitrary class (an `EnforceResult`, a `set`, ...) with the
      attributes it exposes; every other case is a built-in JSON-compatible value. */
  datatype Value =
    | Null                                        // Python None, JSON null
    | Bool(b: bool)
    | Int(i: int)
    | Str(s: string)
    | List(items: seq<Value>)
    | Tuple(items: seq<Value>)
    | Object(cls: string, attrs: map<string, Value>)

  /** An optional value, for parameters Python allows to be None. */
  datatype Option<T> = None | Some(value: T)

  /** A value or the text of the exception raised instead. */
  datatype Result<T> = Ok(value: T) | Err(message: string)
}
