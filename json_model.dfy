/** The values `json.loads` produces, and the Option/Result wrappers the model uses
    for a call that may fail. */
module JsonModel {

  /** A decoded JSON document. A JSON object is a Python `dict`, modelled as a map:
      the only place key order matters (a list of candidate keys) is read only when
      it holds exactly one key. */
  datatype Json =
    | JNull
    | JBool(b: bool)
    | JNum(n: int)
    | JStr(s: string)
    | JArr(items: seq<Json>)
    | JObj(fields: map<string, Json>)

  datatype Option<T> = None | Some(value: T)

  datatype Result<T, E> = Ok(value: T) | Err(error: E)
}
