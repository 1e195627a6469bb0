/** The permissive stream parser as functions from the remaining input to a result and what is left of it. */
module JsonParser {
  import opened Text
  import opened JsonNumber

  datatype Value =
    | Null
    | Bool(b: bool)
    | Num(n: Number)
    | Str(s: string)
    | Array(vs: seq<Value>)
    | Object(m: map<string, Value>)
    | Invalid

  /** Outcome of a parsing step; a failing step also says where it left the stream. */
  datatype Parsed<+T> = Parsed(ok: bool, v: T, rest: string)

  // ---------------------------------------------------------------- blanks and fixed texts

  function SkipSpaces(s: string): (r: string)
    ensures |r| <= |s|
    ensures r != "" ==> !IsSpace(r[0])
  {
    if s != "" && IsSpace(s[0]) then SkipSpaces(s[1..]) else s
  }

  predicate IsLineEnd(c: char) { c == '\r' || c == '\n' }

  function SkipLine(s: string): (r: string)
    ensures |r| <= |s|
  {
    if s == "" || IsLineEnd(s[0]) then s else SkipLine(s[1..])
  }

  predicate StartsComment(s: string) { |s| >= 2 && s[0] == '/' && s[1] == '/' }

  /** Blanks and `//` comments: what `match` passes over before its first character. */
  function Skip(s: string): (r: string)
    ensures |r| <= |s|
    ensures r != "" ==> !IsSpace(r[0])
    ensures !StartsComment(r)
    decreases |s|
  {
    var t := SkipSpaces(s);
    if StartsComment(t) then Skip(SkipLine(t[2..])) else t
  }

  /** The rest of a pattern, with `last` the character read last. A comment before any character is passed over; but what
      was read before it cannot be put back, so that a mismatch later leaves the stream failed, with nothing to read.
      Otherwise all is put back. At the end of the input the stream fails too, and the character read last is compared once
      more: if it is the one character still missing, the pattern counts as matched. */
  function MatchFrom(pattern: string, s: string, whole: string, last: char): (r: Parsed<()>)
    ensures r.ok ==> |r.rest| <= |s| && (pattern != "" && s != "" ==> |r.rest| < |s|)
    ensures !r.ok ==> r.rest == whole || r.rest == ""
    decreases |s|
  {
    if pattern == "" then Parsed(true, (), s)
    else if s == "" then Parsed(pattern == [last], (), "")
    else if s[0] == pattern[0] then MatchFrom(pattern[1..], s[1..], whole, s[0])
    else if StartsComment(s) then MatchFrom(pattern, SkipSpaces(SkipLine(s[2..])), "", '/')
    else Parsed(false, (), whole)
  }

  function Match(pattern: string, s: string): (r: Parsed<()>)
    ensures |r.rest| <= |s|
    ensures r.ok && pattern != "" ==> |r.rest| < |s|
  {
    var t := Skip(s);
    if t == "" then Parsed(pattern == "", (), "")
    else MatchFrom(pattern, t, t, '\0')
  }

  lemma {:induction false} MatchPrefix(pattern: string, s: string, whole: string, last: char)
    requires pattern <= s
    ensures MatchFrom(pattern, s, whole, last) == Parsed(true, (), s[|pattern|..])
    decreases |pattern|
  {
    if pattern != "" {
      assert pattern[0] == s[0] && pattern[1..] == s[1..][..|pattern| - 1];
      MatchPrefix(pattern[1..], s[1..], whole, s[0]);
    }
  }

  /** A pattern of one character leaves no room for a comment inside. */
  lemma MatchOne(pattern: string, s: string)
    requires |pattern| == 1
    ensures var t := Skip(s);
            Match(pattern, s) == if pattern <= t then Parsed(true, (), t[1..]) else Parsed(false, (), t)
  {
    var t := Skip(s);
    if pattern <= t { MatchPrefix(pattern, t, t, '\0'); }
  }

  predicate NextIs(c: char, s: string) { s != "" && s[0] == c }

  // ---------------------------------------------------------------- strings

  function HexValue(c: char): int {
    if '0' <= c <= '9' then c as int - '0' as int
    else if 'a' <= c <= 'f' then c as int - 'a' as int + 10
    else if 'A' <= c <= 'F' then c as int - 'A' as int + 10
    else -1
  }

  /** `ss >> std::hex >> i`: the longest prefix of hexadecimal digits. */
  function HexPrefix(h: string, acc: nat := 0): nat {
    if h == "" || HexValue(h[0]) < 0 then acc else HexPrefix(h[1..], acc * 16 + HexValue(h[0]))
  }

  /** Past blanks and a sign: the sign, and the rest without a `0x`. */
  function HexStart(h: string): (bool, string) {
    var t := SkipSpaces(h);
    var u := if t != "" && (t[0] == '-' || t[0] == '+') then t[1..] else t;
    (t != "" && t[0] == '-', if |u| >= 2 && u[0] == '0' && (u[1] == 'x' || u[1] == 'X') then u[2..] else u)
  }

  /** What the four characters after `\u` contribute: the value they are converted to, truncated to one byte, or nothing
      when there is no hexadecimal digit to convert. */
  function UnicodePiece(h: string): string {
    var (negative, digits) := HexStart(h);
    if digits == "" || HexValue(digits[0]) < 0 then ""
    else
      var n: int := HexPrefix(digits);
      [((if negative then -n else n) % 256) as char]
  }

  function EscapePiece(delimiter: char, c: char): string {
    match c
    case '\\' => "\\"
    case '/' => "/"
    case 'b' => "\U{08}"
    case 'f' => "\U{0c}"
    case 'n' => "\n"
    case 'r' => "\r"
    case 't' => "\t"
    case _ => if c != delimiter then ['\\', c] else [c]
  }

  /** The body of a string up to its delimiter; running out of input fails with nothing left. */
  function ScanString(delimiter: char, s: string): (r: Parsed<string>)
    ensures |r.rest| <= |s|
    ensures r.ok ==> |r.rest| < |s|
    decreases |s|
  {
    if s == "" then Parsed(false, "", "")
    else if s[0] == delimiter then Parsed(true, "", s[1..])
    else if s[0] != '\\' then Prefixed([s[0]], ScanString(delimiter, s[1..]))
    else if |s| >= 2 && s[1] != 'u' then Prefixed(EscapePiece(delimiter, s[1]), ScanString(delimiter, s[2..]))
    else if |s| >= 6 then Prefixed(UnicodePiece(s[2..6]), ScanString(delimiter, s[6..]))
    else Parsed(false, "", "")
  }

  function Prefixed(piece: string, r: Parsed<string>): Parsed<string> { r.(v := piece + r.v) }

  function ParseString(s: string): (r: Parsed<string>)
    ensures |r.rest| <= |s|
    ensures r.ok ==> |r.rest| < |s|
  {
    var q := Match("\"", s);
    if q.ok then ScanString('"', q.rest)
    else if NextIs('\'', q.rest) then ScanString('\'', q.rest[1..])
    else Parsed(false, "", q.rest)
  }

  // ---------------------------------------------------------------- scalars

  function ParseNumber(s: string): (r: Parsed<Number>)
    ensures |r.rest| <= |s|
  {
    var t := SkipSpaces(s);
    var (l, rest) := TakeLiteral(t);
    if ValidLiteral(l) then Parsed(true, LiteralValue(l), rest) else Parsed(false, Dec(0, 0), t)
  }

  function ParseBool(s: string): (r: Parsed<bool>)
    ensures |r.rest| <= |s|
  {
    var t := Match("true", s);
    if t.ok then Parsed(true, true, t.rest)
    else
      var f := Match("false", t.rest);
      Parsed(f.ok, false, f.rest)
  }

  /** A missing value before a comma counts as null. */
  function ParseNull(s: string): (r: Parsed<()>)
    ensures |r.rest| <= |s|
  {
    var n := Match("null", s);
    if n.ok then n else Parsed(NextIs(',', n.rest), (), n.rest)
  }

  function ParseScalar(s: string): (r: Parsed<Value>)
    ensures |r.rest| <= |s|
  {
    var st := ParseString(s);
    if st.ok then Parsed(true, Str(st.v), st.rest)
    else
      var nu := ParseNumber(st.rest);
      if nu.ok then Parsed(true, Num(nu.v), nu.rest)
      else
        var bo := ParseBool(nu.rest);
        if bo.ok then Parsed(true, Bool(bo.v), bo.rest)
        else
          var nl := ParseNull(bo.rest);
          Parsed(nl.ok, Null, nl.rest)
  }

  // ---------------------------------------------------------------- trees

  function ParseValue(s: string): (r: Parsed<Value>)
    ensures |r.rest| <= |s|
    decreases |s|, 3
  {
    var sc := ParseScalar(s);
    if sc.ok then sc
    else
      var a := if NextIs('[', sc.rest) then ParseArray(sc.rest) else Parsed(false, [], sc.rest);
      if a.ok then Parsed(true, Array(a.v), a.rest)
      else
        var o := ParseObject(a.rest);
        Parsed(o.ok, if o.ok then Object(o.v) else Invalid, o.rest)
  }

  function ParseArray(s: string): (r: Parsed<seq<Value>>)
    ensures |r.rest| <= |s|
    decreases |s|, 2
  {
    var open := Match("[", s);
    if !open.ok then Parsed(false, [], open.rest)
    else
      var close := Match("]", open.rest);
      if close.ok then Parsed(true, [], close.rest) else ParseElements(close.rest, [])
  }

  function ParseElements(s: string, acc: seq<Value>): (r: Parsed<seq<Value>>)
    ensures |r.rest| <= |s|
    decreases |s|, 4
  {
    var v := ParseValue(s);
    if !v.ok then Closed("]", v.rest, acc)
    else
      var comma := Match(",", v.rest);
      if comma.ok then ParseElements(comma.rest, acc + [v.v])
      else Closed("]", comma.rest, acc + [v.v])
  }

  function ParseObject(s: string): (r: Parsed<map<string, Value>>)
    ensures |r.rest| <= |s|
    decreases |s|, 2
  {
    var open := Match("{", s);
    if !open.ok then Parsed(false, map[], open.rest)
    else
      var close := Match("}", open.rest);
      if close.ok then Parsed(true, map[], close.rest) else ParseMembers(close.rest, map[])
  }

  /** Duplicate keys: the later value replaces the earlier one. */
  function ParseMembers(s: string, acc: map<string, Value>): (r: Parsed<map<string, Value>>)
    ensures |r.rest| <= |s|
    decreases |s|, 4
  {
    var key := ParseString(s);
    if !key.ok then
      if NextIs('}', key.rest) then Closed("}", key.rest, acc) else Parsed(false, acc, key.rest)
    else
      var colon := Match(":", key.rest);
      if !colon.ok then Parsed(false, acc, colon.rest)
      else
        var v := ParseValue(colon.rest);
        if !v.ok then Closed("}", v.rest, acc)
        else
          var comma := Match(",", v.rest);
          if comma.ok then ParseMembers(comma.rest, acc[key.v := v.v])
          else Closed("}", comma.rest, acc[key.v := v.v])
  }

  function Closed<T>(bracket: string, s: string, v: T): (r: Parsed<T>)
    ensures |r.rest| <= |s|
  {
    var m := Match(bracket, s);
    Parsed(m.ok, v, m.rest)
  }
}
