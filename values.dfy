/** The decoded shapes both scripts handle: a user record is a Python dict from
    field names to JSON-like values. */
module Values {

  /** A value as it appears in a decoded response or a decoded user-file row:
      text, a list of texts (a role list), a number, a boolean or null. */
  datatype Value = Str(s: string) | StrList(items: seq<string>) | Num(n: int) | Bool(b: bool) | Null

  /** A user record (`userId`, `firstName`, ..., and on the way in, `roles`). */
  type Record = map<string, Value>
}
