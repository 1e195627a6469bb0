/** `json()`: the indented printer, and what the parser reads back from it. */
module JsonPrinter {
  import opened Text
  import opened JsonNumber
  import opened JsonParser

  // ---------------------------------------------------------------- the printer

  function HexDigit(d: nat): (c: char)
    requires d < 16
    ensures HexValue(c) == d && c != '"' && c != '\\'
  {
    if d < 10 then ('0' as int + d) as char else ('a' as int + d - 10) as char
  }

  /** The two low hexadecimal digits. */
  function HexByte(i: nat): (s: string)
    ensures |s| == 2
  {
    [HexDigit(i / 16 % 16), HexDigit(i % 16)]
  }

  function EscapeChar(c: char): string {
    match c
    case '"' => "\\\""
    case '\\' => "\\\\"
    case '/' => "\\/"
    case '\U{08}' => "\\b"
    case '\U{0c}' => "\\f"
    case '\n' => "\\n"
    case '\r' => "\\r"
    case '\t' => "\\t"
    case _ => if c as int < 32 then "\\u00" + HexByte(c as int) else [c]
  }

  function EscapeString(s: string): string {
    if s == "" then "" else EscapeChar(s[0]) + EscapeString(s[1..])
  }

  function Tabs(depth: nat): string { seq(depth, _ => '\t') }

  /** Blanks the comma that ends the last entry. */
  function RemoveLastComma(s: string): string {
    if |s| > 2 && s[|s| - 2] == ',' then s[|s| - 2 := ' '] else s
  }

  function Head(depth: nat, name: string): string {
    Tabs(depth) + (if name != "" then "\"" + EscapeString(name) + "\"" + ":" + " " else "")
  }

  /** `std::numeric_limits<long double>::digits10 + 1`. */
  const PRECISION: nat := 19

  /** A bracketed list: one entry a line, the closing bracket on a line of its own. */
  function Container(head: string, open: string, tags: string, depth: nat, close: string): string {
    RemoveLastComma(head + (open + "\n") + tags) + Tabs(depth) + close + ",\n"
  }

  ghost function Tag(depth: nat, name: string, v: Value): string
    decreases v, 1
  {
    match v
    case Null => Head(depth, name) + "null" + ",\n"
    case Invalid => Head(depth, name) + "null" + ",\n"
    case Bool(b) => Head(depth, name) + (if b then "true" else "false") + ",\n"
    case Array(vs) => Container(Head(depth, name), "[", ElementTags(depth + 1, vs), depth, "]")
    case Str(s) => Head(depth, name) + "\"" + EscapeString(s) + "\"" + ",\n"
    case Object(m) => Container(Head(depth, name), "{", MemberTags(depth + 1, v, SortedKeys(m.Keys)), depth, "}")
    case Num(n) => Head(depth, name) + NumberText(n, PRECISION) + ",\n"
  }

  ghost function ElementTags(depth: nat, vs: seq<Value>): string
    decreases vs, 0
  {
    if vs == [] then "" else Tag(depth, "", vs[0]) + ElementTags(depth, vs[1..])
  }

  ghost function MemberTags(depth: nat, o: Value, keys: seq<string>): string
    requires o.Object? && forall k :: k in keys ==> k in o.m
    decreases o, 0, |keys|
  {
    if keys == [] then ""
    else
      assert keys[0] in o.m;
      Tag(depth, keys[0], o.m[keys[0]]) + MemberTags(depth, o, keys[1..])
  }

  /** `Object::json` and `Array::json`. */
  ghost function Json(v: Value): string { RemoveLastComma(Tag(0, "", v)) }
}
