/** JSON texts as trees of tokens, with any blanks and `//` comments between tokens, any escapes in strings,
    any member order, duplicate keys, and an optional comma before a closing bracket. The parser reads every
    such text back to the value it denotes. */
module JsonText {
  import opened Text
  import opened JsonNumber
  import opened JsonParser

  datatype Filler = Blank(c: char) | Comment(body: string, end: char)

  predicate ValidFiller(f: Filler) {
    match f
    case Blank(c) => IsSpace(c)
    case Comment(body, end) => IsLineEnd(end) && forall c :: c in body ==> !IsLineEnd(c)
  }

  type Gap = seq<Filler>

  predicate ValidGap(g: Gap) { forall f :: f in g ==> ValidFiller(f) }

  function FillerText(f: Filler): string {
    match f
    case Blank(c) => [c]
    case Comment(body, end) => "//" + body + [end]
  }

  function GapText(g: Gap): string {
    if g == [] then "" else FillerText(g[0]) + GapText(g[1..])
  }

  /** One source character of a string token. */
  datatype Piece = Plain(c: char) | Escaped(c: char) | Hex(h: string)

  datatype Quoted = Quoted(delimiter: char, pieces: seq<Piece>)

  predicate ValidPiece(delimiter: char, p: Piece) {
    match p
    case Plain(c) => c != delimiter && c != '\\'
    case Escaped(c) => c != 'u'
    case Hex(h) => |h| == 4
  }

  predicate ValidQuoted(q: Quoted) {
    q.delimiter in "\"'" && forall p :: p in q.pieces ==> ValidPiece(q.delimiter, p)
  }

  function PieceText(p: Piece): string {
    match p
    case Plain(c) => [c]
    case Escaped(c) => ['\\', c]
    case Hex(h) => "\\u" + h
  }

  function PiecesText(ps: seq<Piece>): string {
    if ps == [] then "" else PieceText(ps[0]) + PiecesText(ps[1..])
  }

  function QuotedText(q: Quoted): string { [q.delimiter] + PiecesText(q.pieces) + [q.delimiter] }

  function PieceMeaning(delimiter: char, p: Piece): string {
    match p
    case Plain(c) => [c]
    case Escaped(c) => EscapePiece(delimiter, c)
    case Hex(h) => UnicodePiece(h)
  }

  function PiecesMeaning(delimiter: char, ps: seq<Piece>): string {
    if ps == [] then "" else PieceMeaning(delimiter, ps[0]) + PiecesMeaning(delimiter, ps[1..])
  }

  function QuotedMeaning(q: Quoted): string { PiecesMeaning(q.delimiter, q.pieces) }

  datatype Item = Item(before: Gap, t: Tree, after: Gap)
  datatype Member = Member(before: Gap, key: Quoted, colon: Gap, item: Item)
  /** What precedes a closing bracket. */
  datatype Tail = Tail(comma: bool, gap: Gap)
  datatype Tree =
    | TNull
    | TBool(b: bool)
    | TNumber(l: Literal)
    | TString(q: Quoted)
    | TArray(items: seq<Item>, tail: Tail)
    | TObject(members: seq<Member>, tail: Tail)

  predicate ValidTail(count: nat, tail: Tail) { ValidGap(tail.gap) && (tail.comma ==> count > 0) }

  predicate ValidItem(i: Item) { ValidGap(i.before) && Valid(i.t) && ValidGap(i.after) }

  predicate ValidMember(m: Member) {
    ValidGap(m.before) && ValidQuoted(m.key) && ValidGap(m.colon) && ValidItem(m.item)
  }

  predicate Valid(t: Tree) {
    match t
    case TNull => true
    case TBool(_) => true
    case TNumber(l) => ValidLiteral(l)
    case TString(q) => ValidQuoted(q)
    case TArray(items, tail) => (forall i :: i in items ==> ValidItem(i)) && ValidTail(|items|, tail)
    case TObject(members, tail) => (forall m :: m in members ==> ValidMember(m)) && ValidTail(|members|, tail)
  }

  function TailText(tail: Tail): string { (if tail.comma then "," else "") + GapText(tail.gap) }

  function TreeText(t: Tree): string {
    match t
    case TNull => "null"
    case TBool(b) => if b then "true" else "false"
    case TNumber(l) => LiteralText(l)
    case TString(q) => QuotedText(q)
    case TArray(items, tail) => "[" + ItemsText(items) + TailText(tail) + "]"
    case TObject(members, tail) => "{" + MembersText(members) + TailText(tail) + "}"
  }

  function ItemText(i: Item): string { GapText(i.before) + TreeText(i.t) + GapText(i.after) }

  function ItemsText(items: seq<Item>): string {
    if items == [] then ""
    else ItemText(items[0]) + (if |items| == 1 then "" else "," + ItemsText(items[1..]))
  }

  function MemberText(m: Member): string {
    GapText(m.before) + QuotedText(m.key) + GapText(m.colon) + ":" + ItemText(m.item)
  }

  function MembersText(members: seq<Member>): string {
    if members == [] then ""
    else MemberText(members[0]) + (if |members| == 1 then "" else "," + MembersText(members[1..]))
  }

  function Meaning(t: Tree): Value
    requires Valid(t)
  {
    match t
    case TNull => Null
    case TBool(b) => Bool(b)
    case TNumber(l) => Num(LiteralValue(l))
    case TString(q) => Str(QuotedMeaning(q))
    case TArray(items, _) => Array(ItemsMeaning(items, []))
    case TObject(members, _) => Object(MembersMeaning(members, map[]))
  }

  function ItemsMeaning(items: seq<Item>, acc: seq<Value>): seq<Value>
    requires forall i :: i in items ==> ValidItem(i)
    decreases items, 0
  {
    if items == [] then acc
    else
      assert ValidItem(items[0]);
      ItemsMeaning(items[1..], acc + [Meaning(items[0].t)])
  }

  /** Members are entered in order of appearance; a later duplicate wins. */
  function MembersMeaning(members: seq<Member>, acc: map<string, Value>): map<string, Value>
    requires forall m :: m in members ==> ValidMember(m)
    decreases members, 0
  {
    if members == [] then acc
    else
      assert ValidMember(members[0]) && ValidItem(members[0].item);
      MembersMeaning(members[1..], acc[QuotedMeaning(members[0].key) := Meaning(members[0].item.t)])
  }

  // ---------------------------------------------------------------- gaps

  /** The first character of a token. */
  predicate StartsToken(s: string) { s != "" && !IsSpace(s[0]) && s[0] != '/' }

  lemma {:induction false} SkipLineExact(body: string, end: char, rest: string)
    requires IsLineEnd(end) && forall c :: c in body ==> !IsLineEnd(c)
    ensures SkipLine(body + [end] + rest) == [end] + rest
  {
    var s := body + [end] + rest;
    if body == "" {
      assert s == [end] + rest;
    } else {
      assert s[0] == body[0] && s[1..] == body[1..] + [end] + rest;
      SkipLineExact(body[1..], end, rest);
    }
  }

  lemma SkipBlank(s: string)
    requires s != "" && IsSpace(s[0])
    ensures Skip(s) == Skip(s[1..])
  {
  }

  lemma {:induction false} SkipGap(g: Gap, s: string)
    requires ValidGap(g)
    ensures Skip(GapText(g) + s) == Skip(s)
  {
    if g == [] {
      assert GapText(g) + s == s;
    } else {
      hide Skip;
      var t := GapText(g[1..]) + s;
      assert GapText(g) + s == FillerText(g[0]) + t;
      SkipGap(g[1..], s);
      assert ValidFiller(g[0]);
      SkipFiller(g[0], t);
    }
  }

  lemma SkipFiller(f: Filler, t: string)
    requires ValidFiller(f)
    ensures Skip(FillerText(f) + t) == Skip(t)
  {
    match f
    case Blank(c) =>
      assert (FillerText(f) + t)[1..] == t;
      SkipBlank(FillerText(f) + t);
    case Comment(body, end) =>
      CommentText(f, t);
      SkipLineExact(body, end, t);
      SkipBlank([end] + t);
      assert ([end] + t)[1..] == t;
  }

  lemma CommentText(f: Filler, t: string)
    requires f.Comment?
    ensures var u := FillerText(f) + t; StartsComment(u) && SkipSpaces(u) == u && u[2..] == f.body + [f.end] + t
  {
    assert FillerText(f) + t == ['/', '/'] + (f.body + [f.end] + t);
  }

  lemma SkipToken(s: string)
    requires StartsToken(s)
    ensures Skip(s) == s && SkipSpaces(s) == s
  {
  }

  lemma MatchToken(pattern: string, g: Gap, rest: string)
    requires ValidGap(g) && StartsToken(pattern)
    ensures Match(pattern, GapText(g) + (pattern + rest)) == Parsed(true, (), rest)
  {
    SkipGap(g, pattern + rest);
    SkipToken(pattern + rest);
    MatchPrefix(pattern, pattern + rest, pattern + rest, '\0');
  }

  lemma {:induction false} MatchPart(a: string, b: string, s: string, whole: string, last: char) returns (now: char)
    ensures MatchFrom(a + b, a + s, whole, last) == MatchFrom(b, s, whole, now)
    ensures now == if a == "" then last else a[|a| - 1]
    decreases |a|
  {
    if a == "" {
      assert a + b == b && a + s == s;
      now := last;
    } else {
      assert (a + b)[1..] == a[1..] + b && (a + s)[1..] == a[1..] + s;
      now := MatchPart(a[1..], b, s, whole, a[0]);
    }
  }

  /** A comment inside a word is passed over too. */
  lemma MatchAcrossComment(a: string, f: Filler, b: string, rest: string)
    requires StartsToken(a) && StartsToken(b) && f.Comment? && ValidFiller(f)
    ensures Match(a + b, a + (FillerText(f) + (b + rest))) == Parsed(true, (), rest)
  {
    hide MatchFrom;
    var t := b + rest;
    var s := FillerText(f) + t;
    SkipToken(a + s);
    var now := MatchPart(a, b, s, a + s, '\0');
    CommentText(f, t);
    SkipLineExact(f.body, f.end, t);
    SkipToken(t);
    assert ([f.end] + t)[1..] == t;
    MatchComment(b, s, a + s, now);
    assert SkipSpaces([f.end] + t) == t;
    MatchPrefix(b, t, "", '/');
  }

  lemma MatchComment(b: string, s: string, whole: string, last: char)
    requires StartsToken(b) && StartsComment(s)
    ensures MatchFrom(b, s, whole, last) == MatchFrom(b, SkipSpaces(SkipLine(s[2..])), "", '/')
  {
  }

  /** A text that differs from the pattern, at its first character or later, with no comment there: the match fails, and
      everything behind the gap is given back. */
  lemma MatchOther(pattern: string, g: Gap, s: string, k: nat)
    requires ValidGap(g) && StartsToken(s) && k < |pattern| && k < |s| && pattern[..k] == s[..k] && pattern[k] != s[k]
    requires !StartsComment(s[k..])
    ensures Match(pattern, GapText(g) + s) == Parsed(false, (), s)
  {
    hide MatchFrom;
    SkipGap(g, s);
    SkipToken(s);
    assert pattern == s[..k] + pattern[k..] && s == s[..k] + s[k..];
    var now := MatchPart(s[..k], pattern[k..], s[k..], s, '\0');
    MatchStops(pattern[k..], s[k..], s, now);
  }

  lemma MatchStops(pattern: string, s: string, whole: string, last: char)
    requires pattern != "" && s != "" && pattern[0] != s[0] && !StartsComment(s)
    ensures MatchFrom(pattern, s, whole, last) == Parsed(false, (), whole)
  {
  }

  /** An input that ends inside the pattern: nothing is left to read, and the match fails, unless just the last character is
      missing and is the same as the one before it. */
  lemma MatchAtEnd(pattern: string, g: Gap, s: string)
    requires ValidGap(g) && StartsToken(s) && s < pattern
    ensures Match(pattern, GapText(g) + s) == Parsed(pattern == s + [s[|s| - 1]], (), "")
  {
    hide MatchFrom;
    SkipGap(g, s);
    SkipToken(s);
    var b := pattern[|s|..];
    assert pattern == s + b && s + "" == s;
    var now := MatchPart(s, b, "", s, '\0');
    MatchNothing(b, s, now);
    assert pattern == s + [now] <==> b == [now] by { if pattern == s + [now] { assert pattern[|s|..] == [now]; } }
  }

  lemma MatchNothing(pattern: string, whole: string, last: char)
    requires pattern != ""
    ensures MatchFrom(pattern, "", whole, last) == Parsed(pattern == [last], (), "")
  {
  }

  /** So "nul" at the end of the input counts as null. */
  lemma NulIsNull()
    ensures ParseNull("nul") == Parsed(true, (), "")
  {
    MatchAtEnd("null", [], "nul");
    assert GapText([]) + "nul" == "nul" && "null" == "nul" + ['l'];
  }

  // ---------------------------------------------------------------- strings

  lemma {:induction false} ScanExact(delimiter: char, ps: seq<Piece>, rest: string)
    requires delimiter in "\"'" && forall p :: p in ps ==> ValidPiece(delimiter, p)
    ensures ScanString(delimiter, PiecesText(ps) + ([delimiter] + rest))
         == Parsed(true, PiecesMeaning(delimiter, ps), rest)
  {
    var s := PiecesText(ps) + ([delimiter] + rest);
    if ps == [] {
      assert s == [delimiter] + rest;
    } else {
      var t := PiecesText(ps[1..]) + ([delimiter] + rest);
      assert s == PieceText(ps[0]) + t;
      ScanExact(delimiter, ps[1..], rest);
      assert ValidPiece(delimiter, ps[0]);
      match ps[0]
      case Plain(c) => assert s[1..] == t;
      case Escaped(c) => assert s[2..] == t;
      case Hex(h) => assert s[6..] == t && s[2..6] == h;
    }
  }

  /** The four characters are converted as the stream converts a hexadecimal number: blanks or a sign may lead, and `0x`
      may stand before the digits. */
  lemma UnicodeForms(a: char, b: char)
    requires HexValue(a) >= 0 && HexValue(b) >= 0
    ensures var n := 16 * HexValue(a) + HexValue(b);
            && UnicodePiece(['0', 'x', a, b]) == UnicodePiece([' ', ' ', a, b]) == UnicodePiece(['+', '0', a, b]) == [n as char]
            && UnicodePiece(['-', '0', a, b]) == [(-n % 256) as char]
  {
    HexStarts(a, b);
    HexPair(a, b);
    hide HexStart, HexPrefix;
  }

  lemma HexStarts(a: char, b: char)
    requires HexValue(a) >= 0 && HexValue(b) >= 0
    ensures HexStart(['0', 'x', a, b]) == HexStart([' ', ' ', a, b]) == (false, [a, b])
    ensures HexStart(['+', '0', a, b]) == (false, ['0', a, b]) && HexStart(['-', '0', a, b]) == (true, ['0', a, b])
  {
    assert ['0', 'x', a, b][2..] == [a, b] && [' ', ' ', a, b][1..] == [' ', a, b] && [' ', a, b][1..] == [a, b];
    assert ['+', '0', a, b][1..] == ['0', a, b] && ['-', '0', a, b][1..] == ['0', a, b];
    assert SkipSpaces([' ', ' ', a, b]) == SkipSpaces([' ', a, b]) == SkipSpaces([a, b]) == [a, b];
  }

  lemma HexPair(a: char, b: char)
    requires HexValue(a) >= 0 && HexValue(b) >= 0
    ensures HexPrefix([a, b]) == HexPrefix(['0', a, b]) == 16 * HexValue(a) + HexValue(b)
  {
    assert [a, b][1..] == [b] && [b][1..] == "" && ['0', a, b][1..] == [a, b];
    assert HexPrefix([a, b]) == HexPrefix([b], HexValue(a)) == HexPrefix("", HexValue(a) * 16 + HexValue(b));
    assert HexPrefix(['0', a, b]) == HexPrefix([a, b], 0);
  }

  lemma ParseStringExact(g: Gap, q: Quoted, rest: string)
    requires ValidGap(g) && ValidQuoted(q)
    ensures ParseString(GapText(g) + (QuotedText(q) + rest)) == Parsed(true, QuotedMeaning(q), rest)
  {
    var body := PiecesText(q.pieces) + ([q.delimiter] + rest);
    ScanExact(q.delimiter, q.pieces, rest);
    assert QuotedText(q) + rest == [q.delimiter] + body;
    if q.delimiter == '"' {
      MatchToken("\"", g, body);
    } else {
      MatchOther("\"", g, [q.delimiter] + body, 0);
    }
  }

  lemma ParseStringOther(g: Gap, s: string)
    requires ValidGap(g) && StartsToken(s) && s[0] !in "\"'"
    ensures ParseString(GapText(g) + s) == Parsed(false, "", s)
  {
    MatchOther("\"", g, s, 0);
  }

  // ---------------------------------------------------------------- scalars

  lemma ParseNumberOther(s: string)
    requires StartsToken(s) && !IsDigit(s[0]) && s[0] !in "+-."
    ensures ParseNumber(s) == Parsed(false, Dec(0, 0), s)
  {
    SkipToken(s);
    assert TakeSign(s) == (Unsigned, s);
    assert TakeDigits(s) == ("", s);
    assert TakeFraction(s) == (false, "", s);
    assert !ValidLiteral(TakeLiteral(s).0);
  }

  predicate Scalar(t: Tree) { !t.TArray? && !t.TObject? }

  lemma LiteralStart(l: Literal)
    requires ValidLiteral(l)
    ensures LiteralText(l) != "" && (IsDigit(LiteralText(l)[0]) || LiteralText(l)[0] in "+-.")
  {
    MantissaStart(l.whole, l.point, l.fraction, ExponentText(l.exponent));
    Concat5(SignText(l.sign), l.whole, if l.point then "." else "", l.fraction, ExponentText(l.exponent), "");
    assert LiteralText(l) + "" == LiteralText(l);
  }

  /** A tree's text starts with a character that no closing bracket, comma or colon can be taken for. */
  lemma TreeStart(t: Tree)
    requires Valid(t)
    ensures StartsToken(TreeText(t)) && TreeText(t)[0] !in "]},:"
  {
    if t.TNumber? {
      LiteralStart(t.l);
      assert forall c :: IsDigit(c) ==> !IsSpace(c) && c != '/' && c !in "]},:";
    }
  }

  lemma ParseScalarExact(g: Gap, t: Tree, rest: string)
    requires ValidGap(g) && Valid(t) && Scalar(t)
    requires t.TNumber? ==> Follows(rest)
    ensures ParseScalar(GapText(g) + (TreeText(t) + rest)) == Parsed(true, Meaning(t), rest)
  {
    var s := TreeText(t) + rest;
    TreeStart(t);
    if t.TString? {
      ParseStringExact(g, t.q, rest);
    } else {
      if t.TNumber? { LiteralStart(t.l); }
      assert s[0] == TreeText(t)[0];
      ParseStringOther(g, s);
      if t.TNumber? {
        SkipToken(s);
        TakeLiteralExact(t.l, rest);
      } else {
        ParseNumberOther(s);
        ParseWordExact(t, rest);
      }
    }
  }

  lemma ParseWordExact(t: Tree, rest: string)
    requires t.TNull? || t.TBool?
    ensures var s := TreeText(t) + rest;
            if t.TNull? then !ParseBool(s).ok && ParseNull(ParseBool(s).rest) == Parsed(true, (), rest)
            else ParseBool(s) == Parsed(true, t.b, rest)
  {
    var s := TreeText(t) + rest;
    assert GapText([]) + s == s;
    if t.TNull? {
      MatchOther("true", [], s, 0);
      MatchOther("false", [], s, 0);
      MatchToken("null", [], rest);
    } else if t.b {
      MatchToken("true", [], rest);
    } else {
      MatchOther("true", [], s, 0);
      MatchToken("false", [], rest);
    }
  }

  /** No scalar starts with an opening bracket or a closing one; the attempt only passes over the gap. */
  lemma ParseScalarOther(g: Gap, s: string)
    requires ValidGap(g) && StartsToken(s) && s[0] in "[{]}"
    ensures ParseScalar(GapText(g) + s).ok == false && ParseScalar(GapText(g) + s).rest == s
  {
    ParseStringOther(g, s);
    ParseNumberOther(s);
    assert GapText([]) + s == s;
    MatchOther("true", [], s, 0);
    MatchOther("false", [], s, 0);
    MatchOther("null", [], s, 0);
  }

  /** At a closing bracket there is no value, and the bracket is left to be read. */
  lemma ParseValueAtClose(g: Gap, s: string)
    requires ValidGap(g) && StartsToken(s) && s[0] in "]}"
    ensures !ParseValue(GapText(g) + s).ok && ParseValue(GapText(g) + s).rest == s
  {
    ParseScalarOther(g, s);
    assert GapText([]) + s == s;
    MatchOther("{", [], s, 0);
  }

  // ---------------------------------------------------------------- trees

  /** The parser accepts every rendering of a value, returns that value and stops right after the text. */
  lemma {:induction false} ParseTree(g: Gap, t: Tree, rest: string)
    requires ValidGap(g) && Valid(t)
    requires t.TNumber? ==> Follows(rest)
    ensures ParseValue(GapText(g) + (TreeText(t) + rest)) == Parsed(true, Meaning(t), rest)
    decreases t, 1
  {
    if Scalar(t) {
      ParseScalarExact(g, t, rest);
    } else {
      var s := TreeText(t) + rest;
      ParseScalarOther(g, s);
      if t.TArray? { ParseArrayTree([], t, rest); } else { ParseObjectTree([], t, rest); }
      assert GapText([]) + s == s;
    }
  }

  /** The text of the elements from the first one's first token on, closed by `close`. */
  function ItemsBody(items: seq<Item>, close: string): string
    requires items != []
    decreases |items|, 1
  {
    TreeText(items[0].t) + (GapText(items[0].after) + ItemsMore(items, close))
  }

  function ItemsMore(items: seq<Item>, close: string): string
    requires items != []
    decreases |items|, 0
  {
    if |items| == 1 then close else "," + (GapText(items[1].before) + ItemsBody(items[1..], close))
  }

  lemma ItemConcat(a: string, b: string, c: string, z: string)
    ensures a + b + c + z == a + (b + (c + z))
  {
  }

  lemma {:induction false} ItemsSplit(items: seq<Item>, close: string)
    requires items != []
    ensures ItemsText(items) + close == GapText(items[0].before) + ItemsBody(items, close)
  {
    var i := items[0];
    ItemConcat(GapText(i.before), TreeText(i.t), GapText(i.after), ItemsMore(items, close));
    if |items| == 1 {
      assert ItemsText(items) == ItemText(i) + "";
      Assoc(ItemText(i), "", close);
      assert "" + close == close;
    } else {
      var t := ItemsText(items[1..]);
      ItemsSplit(items[1..], close);
      assert items[1..][0] == items[1];
      Assoc(",", t, close);
      Assoc(ItemText(i), "," + t, close);
    }
  }

  lemma ItemsBodyStart(items: seq<Item>, close: string)
    requires items != [] && Valid(items[0].t)
    ensures var s := ItemsBody(items, close); StartsToken(s) && s[0] !in "]},:"
  {
    TreeStart(items[0].t);
  }

  lemma MembersBodyStart(members: seq<Member>, close: string)
    requires members != [] && ValidQuoted(members[0].key)
    ensures var s := MembersBody(members, close); StartsToken(s) && s[0] in "\"'"
  {
  }

  /** The bracket that closes a list, with an optional comma and a gap before it. */
  function CloseText(tail: Tail, bracket: string, rest: string): string { TailText(tail) + (bracket + rest) }

  lemma Enclosed(open: string, a: string, b: string, close: string, rest: string)
    ensures open + a + b + close + rest == open + (a + (b + (close + rest)))
  {
  }

  lemma {:induction false} ParseArrayTree(g: Gap, t: Tree, rest: string)
    requires ValidGap(g) && Valid(t) && t.TArray?
    ensures ParseArray(GapText(g) + (TreeText(t) + rest)) == Parsed(true, Meaning(t).vs, rest)
    decreases t, 0
  {
    hide ParseScalar, Skip, ItemsBody, ParseElements;
    var close := CloseText(t.tail, "]", rest);
    var inner := ItemsText(t.items) + close;
    Enclosed("[", ItemsText(t.items), TailText(t.tail), "]", rest);
    MatchToken("[", g, inner);
    if t.items == [] {
      assert inner == close && "" + GapText(t.tail.gap) == GapText(t.tail.gap);
      MatchToken("]", t.tail.gap, rest);
    } else {
      var first := t.items[0];
      assert ValidItem(first);
      ItemsSplit(t.items, close);
      ItemsBodyStart(t.items, close);
      MatchOther("]", first.before, ItemsBody(t.items, close), 0);
      assert GapText([]) + ItemsBody(t.items, close) == ItemsBody(t.items, close);
      ParseItems([], t.items, t.tail, rest, []);
    }
  }

  /** The element loop, entered with `acc` collected. */
  lemma {:induction false} ParseItems(g: Gap, items: seq<Item>, tail: Tail, rest: string, acc: seq<Value>)
    requires ValidGap(g) && items != [] && ValidGap(tail.gap)
    requires forall i :: i in items ==> ValidItem(i)
    ensures ParseElements(GapText(g) + ItemsBody(items, CloseText(tail, "]", rest)), acc)
         == Parsed(true, ItemsMeaning(items, acc), rest)
    decreases items, 0
  {
    hide ParseScalar, Skip;
    var first := items[0];
    assert ValidItem(first);
    var more := ItemsMore(items, CloseText(tail, "]", rest));
    if |items| == 1 { CloseStart(tail, "]", rest); }
    AfterItem(first.after, more);
    ParseTree(g, first.t, GapText(first.after) + more);
    if |items| == 1 {
      AtClose(first.after, tail, "]", rest);
      MatchBracket("]", rest);
      if tail.comma {
        ParseValueAtClose(tail.gap, "]" + rest);
        assert ParseElements(GapText(tail.gap) + ("]" + rest), acc + [Meaning(first.t)])
            == Parsed(true, acc + [Meaning(first.t)], rest);
      } else {
        assert "" + ("]" + rest) == "]" + rest;
      }
      assert items[1..] == [];
    } else {
      assert ValidItem(items[1]);
      var next := GapText(items[1].before) + ItemsBody(items[1..], CloseText(tail, "]", rest));
      MatchToken(",", first.after, next);
      ParseItems(items[1].before, items[1..], tail, rest, acc + [Meaning(first.t)]);
    }
  }

  /** After the last entry: the optional comma is matched, then the bracket. */
  lemma AtClose(g: Gap, tail: Tail, bracket: string, rest: string)
    requires ValidGap(g) && ValidGap(tail.gap) && bracket in ["]", "}"]
    ensures var comma := Match(",", GapText(g) + CloseText(tail, bracket, rest));
            && comma.ok == tail.comma
            && comma.rest == (if tail.comma then GapText(tail.gap) else "") + (bracket + rest)
  {
    var end := bracket + rest;
    if tail.comma {
      Assoc(",", GapText(tail.gap), end);
      MatchToken(",", g, GapText(tail.gap) + end);
    } else {
      assert "" + GapText(tail.gap) == GapText(tail.gap) && "" + end == end;
      GapConcat(g, tail.gap);
      Assoc(GapText(g), GapText(tail.gap), end);
      MatchOther(",", g + tail.gap, end, 0);
    }
  }

  lemma MatchBracket(bracket: string, rest: string)
    requires bracket in ["]", "}"]
    ensures Match(bracket, bracket + rest) == Parsed(true, (), rest)
  {
    assert GapText([]) + (bracket + rest) == bracket + rest;
    MatchToken(bracket, [], rest);
  }

  lemma CloseStart(tail: Tail, bracket: string, rest: string)
    requires ValidGap(tail.gap) && bracket in ["]", "}"]
    ensures var s := CloseText(tail, bracket, rest); s != "" && (IsSpace(s[0]) || s[0] in ",]}/")
  {
    if tail.gap != [] { assert ValidFiller(tail.gap[0]); }
  }

  lemma {:induction false} GapConcat(a: Gap, b: Gap)
    ensures GapText(a + b) == GapText(a) + GapText(b)
  {
    if a == [] {
      assert a + b == b;
    } else {
      assert (a + b)[1..] == a[1..] + b;
      GapConcat(a[1..], b);
    }
  }

  /** What follows an element can never prolong a numeral. */
  lemma AfterItem(g: Gap, more: string)
    requires ValidGap(g) && more != "" && (IsSpace(more[0]) || more[0] in ",]}/")
    ensures Follows(GapText(g) + more)
  {
    if g != [] { assert ValidFiller(g[0]); }
  }

  // ---------------------------------------------------------------- objects

  /** A member's text from its key on, followed by `more`. */
  function MemberBody(m: Member, more: string): string {
    QuotedText(m.key) + (GapText(m.colon) + (":" + (GapText(m.item.before)
      + (TreeText(m.item.t) + (GapText(m.item.after) + more)))))
  }

  function MembersBody(members: seq<Member>, close: string): string
    requires members != []
    decreases |members|, 1
  {
    MemberBody(members[0], MembersMore(members, close))
  }

  function MembersMore(members: seq<Member>, close: string): string
    requires members != []
    decreases |members|, 0
  {
    if |members| == 1 then close else "," + (GapText(members[1].before) + MembersBody(members[1..], close))
  }

  lemma MemberConcat(a: string, b: string, c: string, d: string, e: string, f: string, g: string, z: string)
    ensures a + b + c + d + (e + f + g) + z == a + (b + (c + (d + (e + (f + (g + z))))))
  {
  }

  lemma MemberTextSplit(m: Member, more: string)
    ensures MemberText(m) + more
         == GapText(m.before) + MemberBody(m, more)
  {
    MemberConcat(GapText(m.before), QuotedText(m.key), GapText(m.colon), ":",
                 GapText(m.item.before), TreeText(m.item.t), GapText(m.item.after), more);
  }

  lemma {:induction false} MembersSplit(members: seq<Member>, close: string)
    requires members != []
    ensures MembersText(members) + close == GapText(members[0].before) + MembersBody(members, close)
  {
    var m := members[0];
    MemberTextSplit(m, MembersMore(members, close));
    if |members| == 1 {
      assert MembersText(members) == MemberText(m) + "";
      Assoc(MemberText(m), "", close);
      assert "" + close == close;
    } else {
      var t := MembersText(members[1..]);
      MembersSplit(members[1..], close);
      assert members[1..][0] == members[1];
      Assoc(",", t, close);
      Assoc(MemberText(m), "," + t, close);
    }
  }

  lemma {:induction false} ParseObjectTree(g: Gap, t: Tree, rest: string)
    requires ValidGap(g) && Valid(t) && t.TObject?
    ensures ParseObject(GapText(g) + (TreeText(t) + rest)) == Parsed(true, Meaning(t).m, rest)
    decreases t, 0
  {
    hide ParseScalar, Skip, MembersBody, ParseMembers;
    var close := CloseText(t.tail, "}", rest);
    var inner := MembersText(t.members) + close;
    Enclosed("{", MembersText(t.members), TailText(t.tail), "}", rest);
    MatchToken("{", g, inner);
    if t.members == [] {
      assert inner == close && "" + GapText(t.tail.gap) == GapText(t.tail.gap);
      MatchToken("}", t.tail.gap, rest);
    } else {
      var first := t.members[0];
      assert ValidMember(first);
      MembersSplit(t.members, close);
      MembersBodyStart(t.members, close);
      MatchOther("}", first.before, MembersBody(t.members, close), 0);
      assert GapText([]) + MembersBody(t.members, close) == MembersBody(t.members, close);
      ParseMembersTree([], t.members, t.tail, rest, map[]);
    }
  }

  /** One member up to what follows its value. */
  lemma ParseMember(g: Gap, m: Member, more: string)
    requires ValidGap(g) && ValidMember(m) && ValidItem(m.item)
    requires ParseValue(GapText(m.item.before) + (TreeText(m.item.t) + (GapText(m.item.after) + more)))
          == Parsed(true, Meaning(m.item.t), GapText(m.item.after) + more)
    ensures var key := ParseString(GapText(g) + MemberBody(m, more));
            && key.ok && key.v == QuotedMeaning(m.key)
            && Match(":", key.rest).ok
            && ParseValue(Match(":", key.rest).rest) == Parsed(true, Meaning(m.item.t), GapText(m.item.after) + more)
  {
    var value := GapText(m.item.before) + (TreeText(m.item.t) + (GapText(m.item.after) + more));
    ParseStringExact(g, m.key, GapText(m.colon) + (":" + value));
    MatchToken(":", m.colon, value);
  }

  /** One turn of the member loop. */
  function AfterMember(r: string, acc: map<string, Value>): Parsed<map<string, Value>> {
    var comma := Match(",", r);
    if comma.ok then ParseMembers(comma.rest, acc) else Closed("}", comma.rest, acc)
  }

  lemma MembersStep(g: Gap, m: Member, more: string, acc: map<string, Value>)
    requires ValidGap(g) && ValidMember(m) && ValidItem(m.item)
    requires ParseValue(GapText(m.item.before) + (TreeText(m.item.t) + (GapText(m.item.after) + more)))
          == Parsed(true, Meaning(m.item.t), GapText(m.item.after) + more)
    ensures ParseMembers(GapText(g) + MemberBody(m, more), acc)
         == AfterMember(GapText(m.item.after) + more, acc[QuotedMeaning(m.key) := Meaning(m.item.t)])
  {
    hide ParseScalar, ParseString, Match;
    ParseMember(g, m, more);
  }

  /** The member loop after its last member. */
  lemma MembersEnd(g: Gap, tail: Tail, rest: string, acc: map<string, Value>)
    requires ValidGap(g) && ValidGap(tail.gap)
    ensures AfterMember(GapText(g) + CloseText(tail, "}", rest), acc) == Parsed(true, acc, rest)
  {
    hide ParseScalar, ParseString, Match;
    AtClose(g, tail, "}", rest);
    MatchBracket("}", rest);
    if tail.comma {
      ParseStringOther(tail.gap, "}" + rest);
    } else {
      assert "" + ("}" + rest) == "}" + rest;
    }
  }

  lemma {:induction false} ParseMembersTree(g: Gap, members: seq<Member>, tail: Tail, rest: string, acc: map<string, Value>)
    requires ValidGap(g) && members != [] && ValidGap(tail.gap)
    requires forall m :: m in members ==> ValidMember(m)
    ensures ParseMembers(GapText(g) + MembersBody(members, CloseText(tail, "}", rest)), acc)
         == Parsed(true, MembersMeaning(members, acc), rest)
    decreases members, 0
  {
    hide ParseMembers, ParseValue, Match;
    var m := members[0];
    assert ValidMember(m) && ValidItem(m.item);
    var close := CloseText(tail, "}", rest);
    var more := MembersMore(members, close);
    if |members| == 1 { CloseStart(tail, "}", rest); }
    AfterItem(m.item.after, more);
    ParseTree(m.item.before, m.item.t, GapText(m.item.after) + more);
    MembersStep(g, m, more, acc);
    var acc' := acc[QuotedMeaning(m.key) := Meaning(m.item.t)];
    if |members| == 1 {
      MembersEnd(m.item.after, tail, rest, acc');
      assert members[1..] == [];
    } else {
      assert ValidMember(members[1]);
      var next := GapText(members[1].before) + MembersBody(members[1..], close);
      MatchToken(",", m.item.after, next);
      ParseMembersTree(members[1].before, members[1..], tail, rest, acc');
    }
  }
}
