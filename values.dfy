/** Values shared by every part of the model: the JSON documents the forum
    API returns and the store keeps, optional values, and the exceptions the
    Python code can raise on the paths the model covers. */
module Values {

  /** A JSON document as the forum API returns it and the store persists it.
      Numbers are whole numbers; floating point is not modelled. */
  datatype Json =
    | JNull
    | JBool(b: bool)
    | JNum(n: int)
    | JStr(s: string)
    | JArr(items: seq<Json>)
    | JObj(fields: map<string, Json>)

  /** Python's `None` or a present value; `dict.get` of a missing key is `None`. */
  datatype Option<T> = None | Some(value: T)

  /** The exceptions the modelled code raises. */
  datatype Error =
    | KeyError(key: string)          // `d[key]` or `del d[key]` on a missing key
    | IndexError                     // a list index out of range
    | UnboundLocalError(name: string) // a local read before it was ever assigned

  /** A normal return or a raised exception. */
  datatype Result<T> = Ok(value: T) | Err(error: Error)
}
