/** Go's `any`, as the suite tools meet it. */
module AnyValue {
  type Fields = map<string, Any>

  /** `Int` is a number that is an integer of 64 bits, `Number` any other number. */
  datatype Any =
    | Nil
    | Str(s: string)
    | Bool(b: bool)
    | Int(n: int)
    | Number(text: string)
    | List(items: seq<Any>)
    | Dict(m: Fields)

  /** The value under `key`; nil if there is none. */
  function Get(m: Fields, key: string): Any { if key in m then m[key] else Nil }
}
