/** Where the permissive parser stops: the texts it turns down, the texts it accepts although they are none, and what is
    left unread. */
module JsonReject {
  import opened Text
  import opened JsonNumber
  import opened JsonParser
  import opened JsonText

  // ---------------------------------------------------------------- single tokens

  /** The first character of something that is no value. */
  predicate NoValue(s: string) {
    StartsToken(s) && !IsDigit(s[0]) && s[0] !in "+-.\"'tfn[{,"
  }

  lemma NoScalar(g: Gap, s: string)
    requires ValidGap(g) && StartsToken(s) && !IsDigit(s[0]) && s[0] !in "+-.\"'tfn,"
    ensures !ParseScalar(GapText(g) + s).ok && ParseScalar(GapText(g) + s).rest == s
  {
    ParseStringOther(g, s);
    ParseNumberOther(s);
    assert GapText([]) + s == s;
    MatchOther("true", [], s, 0);
    MatchOther("false", [], s, 0);
    MatchOther("null", [], s, 0);
  }

  /** A text that does not start like a value is none, and all of it is left. */
  lemma NothingElse(g: Gap, s: string)
    requires ValidGap(g) && NoValue(s)
    ensures !ParseValue(GapText(g) + s).ok && ParseValue(GapText(g) + s).rest == s
  {
    NoScalar(g, s);
    assert GapText([]) + s == s;
    MatchOther("{", [], s, 0);
  }

  /** A missing value before a comma is null. */
  lemma MissingIsNull(g: Gap, rest: string)
    requires ValidGap(g)
    ensures ParseValue(GapText(g) + ("," + rest)) == Parsed(true, Null, "," + rest)
  {
    var s := "," + rest;
    ParseStringOther(g, s);
    ParseNumberOther(s);
    assert GapText([]) + s == s;
    MatchOther("true", [], s, 0);
    MatchOther("false", [], s, 0);
    MatchOther("null", [], s, 0);
  }

  /** A string whose delimiter never comes is read to the end of the input, and fails. */
  lemma {:induction false} Unterminated(delimiter: char, ps: seq<Piece>)
    requires delimiter in "\"'" && forall p :: p in ps ==> ValidPiece(delimiter, p)
    ensures ScanString(delimiter, PiecesText(ps)).ok == false && ScanString(delimiter, PiecesText(ps)).rest == ""
  {
    if ps != [] {
      var s := PiecesText(ps);
      var t := PiecesText(ps[1..]);
      assert ValidPiece(delimiter, ps[0]);
      Unterminated(delimiter, ps[1..]);
      match ps[0]
      case Plain(c) => assert s[1..] == t;
      case Escaped(c) => assert s[2..] == t;
      case Hex(h) => assert s[6..] == t;
    }
  }

  lemma BareMark(mark: char, sign: Sign, rest: string)
    requires mark in "eE" && (rest != "" ==> !IsDigit(rest[0]) && rest[0] !in "+-")
    ensures TakeExponent([mark] + SignText(sign) + rest) == (Exponent(mark, sign, ""), rest)
  {
    var x := [mark] + SignText(sign) + rest;
    assert x[1..] == SignText(sign) + rest;
    assert TakeSign(x[1..]) == (sign, rest) by { if sign.Unsigned? { assert x[1..] == rest; } }
    assert TakeDigits(rest) == ("", rest);
  }

  lemma TakeMantissa(l: Literal, x: string)
    requires ValidLiteral(l) && l.exponent.NoExponent? && x != "" && !IsDigit(x[0]) && x[0] != '.'
    ensures TakeLiteral(LiteralText(l) + x) == (l.(exponent := TakeExponent(x).0), TakeExponent(x).1)
  {
    hide TakeExponent;
    var f := (if l.point then "." else "") + (l.fraction + x);
    TakeFractionExact(l.point, l.fraction, x);
    assert f != "" && !IsDigit(f[0]) by { if !l.point { assert f == x; } else { assert f[0] == '.'; } }
    TakeDigitsExact(l.whole, f);
    MantissaStart(l.whole, l.point, l.fraction, x);
    TakeSignExact(l.sign, l.whole + f);
    Concat5(SignText(l.sign), l.whole, if l.point then "." else "", l.fraction, "", x);
    assert "" + x == x;
  }

  /** An exponent mark without digits spoils the whole numeral, and reading it leaves the input where it was. */
  lemma BareExponent(l: Literal, mark: char, sign: Sign, rest: string)
    requires ValidLiteral(l) && l.exponent.NoExponent? && mark in "eE" && (rest != "" ==> !IsDigit(rest[0]) && rest[0] !in "+-")
    ensures var s := LiteralText(l) + ([mark] + SignText(sign) + rest); ParseNumber(s) == Parsed(false, Dec(0, 0), s)
  {
    hide TakeLiteral, LiteralText;
    var x := [mark] + SignText(sign) + rest;
    BareMark(mark, sign, rest);
    TakeMantissa(l, x);
    NumeralStart(l, x);
    SkipToken(LiteralText(l) + x);
  }

  lemma NumeralStart(l: Literal, x: string)
    requires ValidLiteral(l)
    ensures StartsToken(LiteralText(l) + x)
  {
    LiteralStart(l);
  }

  // ---------------------------------------------------------------- arrays

  /** The end of the input, or a token that is none of the two characters. */
  predicate Stops(s: string, wanted: string) { s == "" || (StartsToken(s) && s[0] !in wanted) }

  lemma NoMatch(c: char, g: Gap, s: string)
    requires ValidGap(g) && Stops(s, [c]) && !IsSpace(c) && c != '/'
    ensures Match([c], GapText(g) + s) == Parsed(false, (), s)
  {
    if s == "" {
      SkipGap(g, "");
      assert Skip("") == "";
    } else {
      MatchOther([c], g, s, 0);
    }
  }

  function AfterElement(r: string, acc: seq<Value>): Parsed<seq<Value>> {
    var comma := Match(",", r);
    if comma.ok then ParseElements(comma.rest, acc) else Closed("]", comma.rest, acc)
  }

  /** The element loop comes to the end of its last element, whatever follows. */
  lemma {:induction false} ElementsThen(g: Gap, items: seq<Item>, s: string, acc: seq<Value>)
    requires ValidGap(g) && items != [] && forall i :: i in items ==> ValidItem(i)
    requires Follows(GapText(items[|items| - 1].after) + s)
    ensures ParseElements(GapText(g) + ItemsBody(items, s), acc)
         == AfterElement(GapText(items[|items| - 1].after) + s, ItemsMeaning(items, acc))
    decreases items
  {
    hide ParseScalar, Skip;
    var first := items[0];
    assert ValidItem(first);
    var more := ItemsMore(items, s);
    if |items| > 1 { AfterItem(first.after, more); }
    ParseTree(g, first.t, GapText(first.after) + more);
    if |items| == 1 {
      assert items[1..] == [];
    } else {
      assert ValidItem(items[1]);
      MatchToken(",", first.after, GapText(items[1].before) + ItemsBody(items[1..], s));
      ElementsThen(items[1].before, items[1..], s, acc + [Meaning(first.t)]);
    }
  }

  /** Behind an element only a comma or the closing bracket will do: at anything else, and at the end of the input, the
      array fails and leaves it unread. */
  lemma ArrayStops(g: Gap, items: seq<Item>, s: string)
    requires ValidGap(g) && items != [] && (forall i :: i in items ==> ValidItem(i)) && Stops(s, ",]")
    requires Follows(GapText(items[|items| - 1].after) + s)
    ensures var r := ParseArray(GapText(g) + ("[" + (ItemsText(items) + s))); !r.ok && r.rest == s
  {
    hide ParseScalar, Skip, ItemsBody, ParseElements;
    var first := items[0];
    var last := items[|items| - 1];
    assert ValidItem(first) && ValidItem(last);
    var inner := ItemsText(items) + s;
    MatchToken("[", g, inner);
    ItemsSplit(items, s);
    ItemsBodyStart(items, s);
    MatchOther("]", first.before, ItemsBody(items, s), 0);
    assert GapText([]) + ItemsBody(items, s) == ItemsBody(items, s);
    ElementsThen([], items, s, []);
    NoMatch(',', last.after, s);
    assert GapText([]) + s == s;
    NoMatch(']', [], s);
  }

  /** As a value, such a text is what an object right there makes of it: an array broken off before an object is skipped. */
  lemma BrokenArray(g: Gap, items: seq<Item>, s: string)
    requires ValidGap(g) && items != [] && (forall i :: i in items ==> ValidItem(i)) && Stops(s, ",]")
    requires Follows(GapText(items[|items| - 1].after) + s)
    ensures var r := ParseValue(GapText(g) + ("[" + (ItemsText(items) + s))); var o := ParseObject(s);
            r.ok == o.ok && r.rest == o.rest && (r.ok ==> r.v == Object(o.v))
  {
    var u := "[" + (ItemsText(items) + s);
    ParseScalarOther(g, u);
    assert GapText([]) + u == u;
    ArrayStops([], items, s);
    hide ParseScalar, ParseArray, ParseObject;
  }

  // ---------------------------------------------------------------- objects

  lemma {:induction false} MembersThen(g: Gap, members: seq<Member>, s: string, acc: map<string, Value>)
    requires ValidGap(g) && members != [] && forall m :: m in members ==> ValidMember(m)
    requires Follows(GapText(members[|members| - 1].item.after) + s)
    ensures ParseMembers(GapText(g) + MembersBody(members, s), acc)
         == AfterMember(GapText(members[|members| - 1].item.after) + s, MembersMeaning(members, acc))
    decreases members
  {
    hide ParseMembers, ParseValue, Match;
    var m := members[0];
    assert ValidMember(m) && ValidItem(m.item);
    var more := MembersMore(members, s);
    if |members| > 1 { AfterItem(m.item.after, more); }
    ParseTree(m.item.before, m.item.t, GapText(m.item.after) + more);
    MembersStep(g, m, more, acc);
    var acc' := acc[QuotedMeaning(m.key) := Meaning(m.item.t)];
    if |members| == 1 {
      assert members[1..] == [];
    } else {
      assert ValidMember(members[1]);
      MatchToken(",", m.item.after, GapText(members[1].before) + MembersBody(members[1..], s));
      MembersThen(members[1].before, members[1..], s, acc');
    }
  }

  lemma ObjectOpened(g: Gap, members: seq<Member>, s: string)
    requires ValidGap(g) && members != [] && (forall m :: m in members ==> ValidMember(m))
    requires Follows(GapText(members[|members| - 1].item.after) + s)
    ensures ParseObject(GapText(g) + ("{" + (MembersText(members) + s)))
         == AfterMember(GapText(members[|members| - 1].item.after) + s, MembersMeaning(members, map[]))
  {
    hide ParseScalar, Skip, MembersBody, ParseMembers, ParseString;
    var first := members[0];
    assert ValidMember(first);
    MatchToken("{", g, MembersText(members) + s);
    MembersSplit(members, s);
    MembersBodyStart(members, s);
    MatchOther("}", first.before, MembersBody(members, s), 0);
    assert GapText([]) + MembersBody(members, s) == MembersBody(members, s);
    MembersThen([], members, s, map[]);
  }

  /** Behind a member only a comma or the closing bracket will do. */
  lemma ObjectStops(g: Gap, members: seq<Member>, s: string)
    requires ValidGap(g) && members != [] && (forall m :: m in members ==> ValidMember(m)) && Stops(s, ",}")
    requires Follows(GapText(members[|members| - 1].item.after) + s)
    ensures var r := ParseObject(GapText(g) + ("{" + (MembersText(members) + s))); !r.ok && r.rest == s
  {
    hide ParseObject, ParseMembers, MembersText;
    var last := members[|members| - 1];
    assert ValidMember(last) && ValidItem(last.item);
    ObjectOpened(g, members, s);
    NoMatch(',', last.item.after, s);
    assert GapText([]) + s == s;
    NoMatch('}', [], s);
  }

  /** What stands before the next member: the bracket, and the members before it with their commas. */
  function SoFar(members: seq<Member>): string { "{" + (if members == [] then "" else MembersText(members) + ",") }

  /** Up to the next member an object is what its members so far say. */
  lemma NextMember(g: Gap, members: seq<Member>, gap: Gap, s: string)
    requires ValidGap(g) && ValidGap(gap) && StartsToken(s) && s[0] != '}' && forall m :: m in members ==> ValidMember(m)
    ensures ParseObject(GapText(g) + (SoFar(members) + (GapText(gap) + s)))
         == if members == [] then ParseMembers(s, map[]) else ParseMembers(GapText(gap) + s, MembersMeaning(members, map[]))
  {
    hide ParseScalar, ParseString, ParseMembers;
    var inner := GapText(gap) + s;
    if members == [] {
      assert "{" + "" == "{";
      MatchToken("{", g, inner);
      MatchOther("}", gap, s, 0);
    } else {
      hide ParseObject;
      var last := members[|members| - 1];
      assert ValidMember(last) && ValidItem(last.item);
      Assoc("{", MembersText(members) + ",", inner);
      Assoc(MembersText(members), ",", inner);
      AfterItem(last.item.after, "," + inner);
      ObjectOpened(g, members, "," + inner);
      MatchToken(",", last.item.after, inner);
    }
  }

  /** A member whose value is missing before the closing bracket is dropped, and the object is accepted. */
  lemma DanglingMember(g: Gap, members: seq<Member>, gap: Gap, key: Quoted, colon: Gap, value: Gap, rest: string)
    requires ValidGap(g) && ValidGap(gap) && ValidQuoted(key) && ValidGap(colon) && ValidGap(value)
    requires forall m :: m in members ==> ValidMember(m)
    ensures ParseObject(GapText(g) + (SoFar(members)
              + (GapText(gap) + (QuotedText(key) + (GapText(colon) + (":" + (GapText(value) + ("}" + rest))))))))
         == Parsed(true, MembersMeaning(members, map[]), rest)
  {
    hide ParseScalar, Match, ParseString;
    var v := GapText(value) + ("}" + rest);
    var c := GapText(colon) + (":" + v);
    var s := QuotedText(key) + c;
    NextMember(g, members, gap, s);
    if members == [] {
      assert GapText([]) + s == s;
      ParseStringExact([], key, c);
    } else {
      ParseStringExact(gap, key, c);
    }
    MatchToken(":", colon, v);
    ParseValueAtClose(value, "}" + rest);
    MatchBracket("}", rest);
  }

  /** A name without a colon behind it: the object fails, and what stands there is left. */
  lemma MissingColon(g: Gap, members: seq<Member>, gap: Gap, key: Quoted, colon: Gap, s: string)
    requires ValidGap(g) && ValidGap(gap) && ValidQuoted(key) && ValidGap(colon) && Stops(s, ":")
    requires forall m :: m in members ==> ValidMember(m)
    ensures var r := ParseObject(GapText(g) + (SoFar(members) + (GapText(gap) + (QuotedText(key) + (GapText(colon) + s)))));
            !r.ok && r.rest == s
  {
    hide ParseScalar, Match, ParseString, ParseValue;
    var c := GapText(colon) + s;
    NextMember(g, members, gap, QuotedText(key) + c);
    if members == [] {
      assert GapText([]) + (QuotedText(key) + c) == QuotedText(key) + c;
      ParseStringExact([], key, c);
    } else {
      ParseStringExact(gap, key, c);
    }
    NoMatch(':', colon, s);
  }

  /** A name that is no string: the same. */
  lemma NameMustBeString(g: Gap, members: seq<Member>, gap: Gap, s: string)
    requires ValidGap(g) && ValidGap(gap) && StartsToken(s) && s[0] !in "\"'}" && forall m :: m in members ==> ValidMember(m)
    ensures var r := ParseObject(GapText(g) + (SoFar(members) + (GapText(gap) + s))); !r.ok && r.rest == s
  {
    hide ParseScalar, Match, ParseString, ParseValue;
    NextMember(g, members, gap, s);
    assert GapText([]) + s == s;
    ParseStringOther([], s);
    ParseStringOther(gap, s);
  }
}
