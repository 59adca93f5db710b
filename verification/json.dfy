/** Response bodies. JSON values carry text as a sequence of pieces so that
    the renderings the model leaves uninterpreted (`Number.prototype.toFixed`,
    `Date.prototype.toISOString`) stay symbolic: `Fixed(x, 2)` stands for the
    text of `x.toFixed(2)`, `IsoTime(ms)` for the ISO-8601 text of the instant
    `ms` milliseconds after the epoch. */
module Json {

  /** A JavaScript number as the service's arithmetic can produce it. */
  datatype Num = Finite(value: real) | NaN | PosInfinity | NegInfinity

  datatype Piece = Lit(text: string) | Fixed(num: Num, digits: nat) | IsoTime(ms: int)

  datatype JsonValue =
    | JBool(b: bool)
    | JInt(n: int)
    | JText(pieces: seq<Piece>)
    | JObject(fields: map<string, JsonValue>)

  type JsonObject = map<string, JsonValue>

  /** A JSON string with fully known text. */
  function Str(s: string): JsonValue
  {
    JText([Lit(s)])
  }
}
