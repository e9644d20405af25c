/** Request payloads: JSON objects read field by field. */
module Json {
  import opened Wrappers

  datatype Json =
    | Null | Bool(b: bool) | Num(n: real) | Str(s: string) | Arr(items: seq<Json>) | Obj(fields: map<string, Json>)

  /** An object's own fields; a missing key reads as undefined, and so does every key of a missing object. */
  type Fields = map<string, Json>

  function NumberAt(f: Fields, key: string): Option<real> {
    if key in f && f[key].Num? then Some(f[key].n) else None
  }

  /** `stringValue`: only non-empty strings. */
  function StringAt(f: Fields, key: string): Option<string> {
    if key in f && f[key].Str? && f[key].s != "" then Some(f[key].s) else None
  }

  /** `objectLike`. */
  function ObjectAt(f: Fields, key: string): Option<Fields> {
    if key in f && f[key].Obj? then Some(f[key].fields) else None
  }

  function TrueAt(f: Fields, key: string): bool {
    key in f && f[key] == Bool(true)
  }

  /** `??` on options. */
  function Or<T>(a: Option<T>, b: Option<T>): Option<T> {
    if a.Some? then a else b
  }

  function OrElse<T>(a: Option<T>, default: T): T {
    if a.Some? then a.value else default
  }

  /** `===` between a payload field and a value parsed from stored JSON: objects are never identical. */
  predicate StrictlyEqual(f: Fields, key: string, expected: Json) {
    key in f && f[key] == expected && !expected.Arr? && !expected.Obj?
  }
}
