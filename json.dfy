/** The JSON-like values held in the dictionaries the scripts build and return. */
module Json {

  /** One value of a Python dictionary built from API data. */
  datatype Value =
    | Null
    | Bool(b: bool)
    | Int(i: int)
    | Str(s: string)
    | List(items: seq<Value>)
}
