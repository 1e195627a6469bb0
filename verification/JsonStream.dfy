/** The parser as it runs: an input stream consumed in place. Each method leaves the stream exactly where the
    function of the same name leaves the remaining input. */
module JsonStream {
  import opened Text
  import opened JsonNumber
  import opened JsonParser

  lemma SuffixAt(text: string, pos: nat, a: string, b: string)
    requires pos <= |text| && a + b == text[pos..]
    ensures |b| <= |text| && b == text[|text| - |b|..]
  {
    assert b == text[pos..][|a|..];
  }

  class Stream {
    const text: string
    var pos: nat

    ghost predicate Valid()
      reads this
    {
      pos <= |text|
    }

    /** The input not yet consumed. */
    ghost function Rest(): string
      requires Valid()
      reads this
    {
      text[pos..]
    }

    constructor (text: string)
      ensures Valid() && Rest() == text
    {
      this.text := text;
      pos := 0;
    }

    /** `input >> std::ws`. */
    method SkipBlanks()
      requires Valid()
      modifies this
      ensures Valid() && Rest() == SkipSpaces(old(Rest()))
    {
      while pos < |text| && IsSpace(text[pos])
        invariant Valid() && SkipSpaces(Rest()) == SkipSpaces(old(Rest()))
      {
        assert Rest()[1..] == text[pos + 1..];
        pos := pos + 1;
      }
    }

    /** Consumes one `//` comment and the blanks after it, or nothing. */
    method ParseComment() returns (found: bool)
      requires Valid()
      modifies this
      ensures Valid() && found == StartsComment(old(Rest()))
      ensures Rest() == if found then SkipSpaces(SkipLine(old(Rest())[2..])) else old(Rest())
    {
      if pos + 1 < |text| && text[pos] == '/' && text[pos + 1] == '/' {
        assert Rest()[2..] == text[pos + 2..];
        pos := pos + 2;
        while pos < |text| && !IsLineEnd(text[pos])
          invariant Valid() && SkipLine(Rest()) == SkipLine(old(Rest())[2..])
        {
          assert Rest()[1..] == text[pos + 1..];
          pos := pos + 1;
        }
        SkipBlanks();
        return true;
      }
      return false;
    }

    /** Everything `match` may pass over before the first character of its pattern. */
    method SkipGap()
      requires Valid()
      modifies this
      ensures Valid() && Rest() == Skip(old(Rest()))
    {
      SkipBlanks();
      var comment := true;
      while comment
        invariant Valid() && Skip(Rest()) == Skip(old(Rest()))
        invariant SkipSpaces(Rest()) == Rest()
        invariant !comment ==> !StartsComment(Rest())
        decreases |text| - pos, comment
      {
        comment := ParseComment();
      }
    }

    /** A mismatch puts the characters read so far back, which fails when a comment was passed over among them. At the end
        of the input `ch` is still the character read last. */
    method Match(pattern: string) returns (ok: bool)
      requires Valid() && pattern != ""
      modifies this
      ensures Valid()
      ensures var m := JsonParser.Match(pattern, old(Rest())); ok == m.ok && Rest() == m.rest
    {
      SkipGap();
      hide Skip, SkipSpaces, SkipLine;
      if pos == |text| { return false; }
      var start, cur, ch := pos, 0, '\0';
      var comments := false;
      ghost var whole := Rest();
      assert pattern[0..] == pattern;
      while cur < |pattern|
        invariant Valid() && cur <= |pattern|
        invariant MatchFrom(pattern[cur..], Rest(), if comments then "" else whole, ch) == MatchFrom(pattern, whole, whole, '\0')
        decreases |text| - pos
      {
        if pos == |text| {
          return pattern[cur..] == [ch];
        }
        ch := text[pos];
        if ch == pattern[cur] {
          assert Rest()[1..] == text[pos + 1..] && pattern[cur..][1..] == pattern[cur + 1..];
          pos := pos + 1;
          cur := cur + 1;
        } else {
          var comment := ParseComment();
          if !comment {
            pos := if comments then |text| else start;
            return false;
          }
          assert ch == '/';
          comments := true;
        }
      }
      assert pattern[cur..] == "";
      return true;
    }

    /** The loop over a string body, with its escapes. */
    method ScanBody(delimiter: char) returns (ok: bool, value: string)
      requires Valid()
      modifies this
      ensures Valid()
      ensures var r := ScanString(delimiter, old(Rest())); ok == r.ok && Rest() == r.rest && (ok ==> value == r.v)
    {
      value := "";
      ghost var r := ScanString(delimiter, Rest());
      assert "" + r.v == r.v;
      while pos < |text|
        invariant Valid()
        invariant Continues(delimiter, Rest(), value, r)
        decreases |text| - pos
      {
        var ch := text[pos];
        if ch == delimiter {
          Advance(1);
          return true, value;
        }
        var piece, width := [ch], 1;
        if ch == '\\' {
          if pos + 1 < |text| && text[pos + 1] != 'u' {
            piece, width := EscapePiece(delimiter, text[pos + 1]), 2;
          } else if pos + 6 <= |text| {
            assert Rest()[2..6] == text[pos + 2..pos + 6];
            piece, width := UnicodePiece(text[pos + 2..pos + 6]), 6;
          } else {
            pos := |text|;
            return false, value;
          }
        }
        Assoc(value, piece, ScanString(delimiter, Rest()[width..]).v);
        Advance(width);
        value := value + piece;
      }
      return false, value;
    }

    method Advance(n: nat)
      requires Valid() && n <= |Rest()|
      modifies this
      ensures Valid() && Rest() == old(Rest())[n..] && pos == old(pos) + n
    {
      assert Rest()[n..] == text[pos + n..];
      pos := pos + n;
    }

    /** With `value` collected, scanning `rest` ends as `r` says. */
    ghost predicate Continues(delimiter: char, rest: string, value: string, r: Parsed<string>) {
      var q := ScanString(delimiter, rest);
      q.ok == r.ok && q.rest == r.rest && value + q.v == r.v
    }

    method ParseString() returns (ok: bool, value: string)
      requires Valid()
      modifies this
      ensures Valid()
      ensures var r := JsonParser.ParseString(old(Rest())); ok == r.ok && Rest() == r.rest && (ok ==> value == r.v)
    {
      var delimiter := '"';
      var quoted := Match("\"");
      if !quoted {
        delimiter := '\'';
        if pos == |text| || text[pos] != delimiter {
          return false, "";
        }
        assert Rest()[1..] == text[pos + 1..];
        pos := pos + 1;
      }
      ok, value := ScanBody(delimiter);
    }

    /** A failed conversion rewinds to where the numeral would have started. */
    method ParseNumber() returns (ok: bool, value: Number)
      requires Valid()
      modifies this
      ensures Valid()
      ensures var r := JsonParser.ParseNumber(old(Rest())); ok == r.ok && Rest() == r.rest && (ok ==> value == r.v)
    {
      SkipBlanks();
      var rollback := pos;
      var (l, rest) := TakeLiteral(text[pos..]);
      TakeLiteralSplits(text[pos..]);
      SuffixAt(text, pos, LiteralText(l), rest);
      hide TakeLiteral, LiteralText, ValidLiteral, LiteralValue, SkipSpaces;
      pos := |text| - |rest|;
      if !ValidLiteral(l) {
        pos := rollback;
        return false, Dec(0, 0);
      }
      return true, LiteralValue(l);
    }

    method ParseBool() returns (ok: bool, value: bool)
      requires Valid()
      modifies this
      ensures Valid()
      ensures var r := JsonParser.ParseBool(old(Rest())); ok == r.ok && Rest() == r.rest && (ok ==> value == r.v)
    {
      value := true;
      ok := Match("true");
      if !ok {
        value := false;
        ok := Match("false");
      }
    }

    method ParseNull() returns (ok: bool)
      requires Valid()
      modifies this
      ensures Valid()
      ensures var r := JsonParser.ParseNull(old(Rest())); ok == r.ok && Rest() == r.rest
    {
      ok := Match("null");
      if !ok {
        ok := pos < |text| && text[pos] == ',';
      }
    }

    method ParseScalar() returns (ok: bool, value: Value)
      requires Valid()
      modifies this
      ensures Valid()
      ensures var r := JsonParser.ParseScalar(old(Rest())); ok == r.ok && Rest() == r.rest && (ok ==> value == r.v)
    {
      hide JsonParser.ParseString, JsonParser.ParseNumber, JsonParser.ParseBool, JsonParser.ParseNull;
      var s;
      ok, s := ParseString();
      if ok { return true, Str(s); }
      var n;
      ok, n := ParseNumber();
      if ok { return true, Num(n); }
      var b;
      ok, b := ParseBool();
      if ok { return true, Bool(b); }
      ok := ParseNull();
      return ok, Null;
    }

    /** Alternatives are tried in turn, each from where the previous one stopped. */
    method ParseValue() returns (ok: bool, value: Value)
      requires Valid()
      modifies this
      ensures Valid()
      ensures var r := JsonParser.ParseValue(old(Rest())); ok == r.ok && Rest() == r.rest && (ok ==> value == r.v)
      decreases |text| - pos, 3
    {
      hide JsonParser.ParseScalar, JsonParser.ParseArray, JsonParser.ParseObject;
      var start := pos;
      ok, value := ParseScalar();
      assert pos >= start;
      if ok { return; }
      if pos < |text| && text[pos] == '[' {
        var vs;
        ok, vs := ParseArray();
        if ok { return true, Array(vs); }
        assert pos >= start;
      }
      var m;
      ok, m := ParseObject();
      if ok { return true, Object(m); }
      return false, Invalid;
    }

    /** `Array::parse`: elements are appended as they are read. */
    method ParseArray() returns (ok: bool, values: seq<Value>)
      requires Valid()
      modifies this
      ensures Valid()
      ensures var r := JsonParser.ParseArray(old(Rest())); ok == r.ok && Rest() == r.rest && (ok ==> values == r.v)
      decreases |text| - pos, 2
    {
      hide JsonParser.ParseValue, JsonParser.Match;
      var start := pos;
      values := [];
      ok := Match("[");
      if !ok { return; }
      assert pos > start;
      ok := Match("]");
      if ok { return; }
      var more := true;
      ghost var r := ParseElements(Rest(), []);
      while more
        invariant Valid() && pos > start
        invariant (if more then ParseElements(Rest(), values) else Closed("]", Rest(), values)) == r
        decreases more, |text| - pos
      {
        var before := pos;
        var v;
        more, v := ParseValue();
        if more {
          values := values + [v];
          more := Match(",");
        }
      }
      ok := Match("]");
    }

    /** `Object::parse`: members are entered as they are read, a duplicate key replacing the earlier value. */
    method ParseObject() returns (ok: bool, members: map<string, Value>)
      requires Valid()
      modifies this
      ensures Valid()
      ensures var r := JsonParser.ParseObject(old(Rest())); ok == r.ok && Rest() == r.rest && (ok ==> members == r.v)
      decreases |text| - pos, 2
    {
      hide JsonParser.ParseValue, JsonParser.Match, JsonParser.ParseString;
      var start := pos;
      members := map[];
      ok := Match("{");
      if !ok { return; }
      assert pos > start;
      ok := Match("}");
      if ok { return; }
      var more := true;
      ghost var r := ParseMembers(Rest(), map[]);
      while more
        invariant Valid() && pos > start
        invariant (if more then ParseMembers(Rest(), members) else Closed("}", Rest(), members)) == r
        decreases more, |text| - pos
      {
        var key;
        ok, key := ParseString();
        if !ok {
          if pos == |text| || text[pos] != '}' { return false, members; }
          break;
        }
        ok := Match(":");
        if !ok { return; }
        var v;
        more, v := ParseValue();
        if more {
          members := members[key := v];
          more := Match(",");
        }
      }
      ok := Match("}");
    }
  }
}
