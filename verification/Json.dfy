/** The values Go's encoding/json decodes into: nil, bool, number, string, []any, map[string]any.

    A number is its canonical text: two numbers of the same kind are deeply equal exactly when
    that text is the same, and turning one into a string yields the text. NaN is not a JSON value. */
module Json {
  import opened Utf8

  datatype Json =
    | Null
    | Bool(b: bool)
    | Num(text: Bytes)
    | Str(s: Bytes)
    | Arr(items: seq<Json>)
    | Obj(fields: map<Bytes, Json>)
}
