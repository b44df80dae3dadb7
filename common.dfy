/** Value types shared by the Python chat servers and the Socket.IO relay. */
module Common {

  datatype Option<+T> = None | Some(value: T)

  /** A JSON value as json.loads produces it (Python) or as a Socket.IO payload arrives (JavaScript).
      Numbers are modelled as integers. */
  datatype Json =
    | JNull
    | JBool(b: bool)
    | JNum(n: int)
    | JStr(s: string)
    | JArr(items: seq<Json>)
    | JObj(fields: map<string, Json>)
}
