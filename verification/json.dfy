/** JSON-shaped JavaScript values as the core receives them. A field that is
    not present (`undefined`) is `None` in lookups; it is not a value. The
    entries of an object are listed in the object's own-key enumeration
    order (the order `Object.entries` and `JSON.stringify` use). Numbers
    only matter as "not a string" here, so they are integers. */
module Json {
  import opened Wrappers
  import opened Text
  import Records

  datatype JVal =
    | JNull
    | JBool(b: bool)
    | JNum(n: int)
    | JStr(s: string)
    | JArr(items: seq<JVal>)
    | JObj(entries: seq<(string, JVal)>)

  /** `value !== null && typeof value === 'object'`: objects and arrays. */
  predicate IsObjectLike(v: JVal) {
    v.JObj? || v.JArr?
  }

  /** `(value as {key?: unknown}).key`: only objects have the named
      fields the core reads; any other value answers `undefined`. */
  function Field(v: JVal, key: string): Option<JVal> {
    if v.JObj? then Records.Get(v.entries, key) else None
  }

  /** `String(x)` for a possibly-undefined value. */
  function ShowOpt(x: Option<JVal>): string {
    match x
    case None => "undefined"
    case Some(v) => Show(v)
  }

  /** `String(v)`: arrays join their elements with "," (null elements give
      the empty string), objects give "[object Object]". */
  function Show(v: JVal): string
    decreases v
  {
    match v
    case JNull => "null"
    case JBool(b) => if b then "true" else "false"
    case JNum(n) => IntToString(n)
    case JStr(s) => s
    case JObj(_) => "[object Object]"
    case JArr(items) =>
      Join(seq(|items|, i requires 0 <= i < |items| =>
             if items[i].JNull? then "" else Show(items[i])), ",")
  }

  function HexDigit(d: nat): char
    requires d < 16
  {
    if d < 10 then ('0' as int + d) as char else ('a' as int + d - 10) as char
  }

  /** The escape `JSON.stringify` writes for one character of a string. */
  function EscapeChar(ch: char): string {
    if ch == '"' then "\\\""
    else if ch == '\\' then "\\\\"
    else if ch == '\n' then "\\n"
    else if ch == '\r' then "\\r"
    else if ch == '\t' then "\\t"
    else if ch as int == 8 then "\\b"
    else if ch as int == 12 then "\\f"
    else if ch as int < 0x20 then "\\u00" + [HexDigit(ch as int / 16), HexDigit(ch as int % 16)]
    else [ch]
  }

  function Quote(s: string): string {
    "\"" + Escaped(s) + "\""
  }

  function Escaped(s: string): string {
    if |s| == 0 then "" else EscapeChar(s[0]) + Escaped(s[1..])
  }

  /** `JSON.stringify(v)` without indentation. */
  function Stringify(v: JVal): string
    decreases v
  {
    match v
    case JNull => "null"
    case JBool(b) => if b then "true" else "false"
    case JNum(n) => IntToString(n)
    case JStr(s) => Quote(s)
    case JArr(items) =>
      "[" + Join(seq(|items|, i requires 0 <= i < |items| => Stringify(items[i])), ",") + "]"
    case JObj(entries) =>
      "{" + Join(seq(|entries|, i requires 0 <= i < |entries| =>
                   Quote(entries[i].0) + ":" + Stringify(entries[i].1)), ",") + "}"
  }
}
