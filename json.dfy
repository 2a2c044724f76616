/**
 * The part of `serde_json::Value` that goal targets use: the value shapes and
 * the accessors `as_u64`, `as_str`, `as_array`, `as_object` and `Index`.
 */
module Json {
  import opened Wrappers

  const U64_LIMIT: int := 0x1_0000_0000_0000_0000

  /**
   * A JSON value. `Int` is a number written without a fraction or exponent;
   * `Float` is any other number.
   */
  datatype Json =
    | Null
    | Bool(b: bool)
    | Int(i: int)
    | Float(f: real)
    | Str(s: string)
    | Arr(items: seq<Json>)
    | Obj(fields: map<string, Json>)

  /** `Value::as_u64`: only a non-negative integer that fits in 64 bits. */
  function AsU64(v: Json): Option<int>
  {
    if v.Int? && 0 <= v.i < U64_LIMIT then Some(v.i) else None
  }

  /** `Value::as_str`. */
  function AsStr(v: Json): Option<string>
  {
    if v.Str? then Some(v.s) else None
  }

  /** `value[k]` on a `Value`: the element, or Null when `v` is no array or `k` is out of range. */
  function At(v: Json, k: nat): Json
  {
    if v.Arr? && k < |v.items| then v.items[k] else Null
  }

  /** `value["key"]` on a `Value`: the field, or Null when `v` is no object or lacks the key. */
  function Field(v: Json, key: string): Json
  {
    if v.Obj? && key in v.fields then v.fields[key] else Null
  }
}
