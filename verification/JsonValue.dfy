/** JSON values and the lookups the code makes in them. */
module JsonValue {
  import opened Text

  datatype Json =
    | Null
    | Bool(b: bool)
    | Int(n: int)
    | Float(x: real)
    | String(s: string)
    | Array(items: seq<Json>)
    | Object(fields: map<string, Json>)

  function Member(j: Json, key: string): Option<Json> {
    if j.Object? && key in j.fields then Some(j.fields[key]) else None
  }

  function MemberOr(j: Json, key: string, default: Json): Json {
    if j.Object? && key in j.fields then j.fields[key] else default
  }

  function StringOr(j: Json, default: string): string {
    if j.String? then j.s else default
  }

  /** The integer at a key, zero when there is none or it is no 64-bit integer. */
  function IntAt(j: Json, key: string): int {
    match Member(j, key)
    case Some(Int(n)) => if -0x8000_0000_0000_0000 <= n < 0x8000_0000_0000_0000 then n else 0
    case _ => 0
  }

  /** The string at a key, or a default when there is none. */
  function StringAt(j: Json, key: string, default: string): string {
    StringOr(MemberOr(j, key, Null), default)
  }
}
