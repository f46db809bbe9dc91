/**
  JSON values as the Hacker News API delivers them, and the dictionary
  operations the front-page tool applies to a fetched item.
 */
module Json {

  /** A decoded JSON document (Python's `None`, `bool`, `int`, `float`, `str`, `list`, `dict`). */
  datatype Json =
    | Null
    | Bool(b: bool)
    | Int(i: int)
    | Float(r: real)
    | Str(s: string)
    | Array(elems: seq<Json>)
    | Object(fields: map<string, Json>)

  datatype Option<+T> = None | Some(value: T)

  /** A fetched Hacker News item: a JSON object keyed by field name. */
  type Item = map<string, Json>

  /** Python's `d.get(key, default)`: the stored value when the key is present, even a null one. */
  function GetOr(item: Item, key: string, default: Json): (v: Json)
  {
    if key in item then item[key] else default
  }

  /** Python's `d.get(key)`: a missing key reads as null. */
  function Get(item: Item, key: string): (v: Json)
  {
    GetOr(item, key, Null)
  }
}
