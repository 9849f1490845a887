/** Parsed JSON values, as `json.load` hands them to the patcher. */
module Json {

  datatype Option<+T> = None | Some(value: T)

  /** A JSON value. Numbers keep their literal text: the patcher only ever
      carries them along, so their arithmetic never matters. */
  datatype Json =
    | Null
    | Bool(b: bool)
    | Num(literal: string)
    | Str(s: string)
    | Arr(items: seq<Json>)
    | Obj(fields: map<string, Json>)
}
