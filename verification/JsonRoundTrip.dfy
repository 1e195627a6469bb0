/** What the parser reads back from `json()`. */
module JsonRoundTrip {
  import opened Text
  import opened JsonNumber
  import opened JsonParser
  import opened JsonText
  import opened JsonPrinter

  // ---------------------------------------------------------------- strings

  function PieceOf(c: char): Piece {
    match c
    case '"' => Escaped('"')
    case '\\' => Escaped('\\')
    case '/' => Escaped('/')
    case '\U{08}' => Escaped('b')
    case '\U{0c}' => Escaped('f')
    case '\n' => Escaped('n')
    case '\r' => Escaped('r')
    case '\t' => Escaped('t')
    case _ => if c as int < 32 then Hex("00" + HexByte(c as int)) else Plain(c)
  }

  lemma HexPrefixFour(h: string)
    requires |h| == 4 && forall i :: 0 <= i < 4 ==> HexValue(h[i]) >= 0
    ensures HexPrefix(h) == ((HexValue(h[0]) * 16 + HexValue(h[1])) * 16 + HexValue(h[2])) * 16 + HexValue(h[3])
  {
    var a := HexValue(h[0]);
    var b := a * 16 + HexValue(h[1]);
    var c := b * 16 + HexValue(h[2]);
    var d := c * 16 + HexValue(h[3]);
    assert HexPrefix(h, 0) == HexPrefix(h[1..], a);
    assert HexPrefix(h[1..], a) == HexPrefix(h[2..], b) by { assert h[1..][1..] == h[2..]; }
    assert HexPrefix(h[2..], b) == HexPrefix(h[3..], c) by { assert h[2..][1..] == h[3..]; }
    assert HexPrefix(h[3..], c) == HexPrefix("", d) by { assert h[3..][1..] == ""; }
  }

  lemma ControlPiece(c: char)
    requires c as int < 32
    ensures UnicodePiece("00" + HexByte(c as int)) == [c]
  {
    var h := "00" + HexByte(c as int);
    HexPrefixFour(h);
  }

  /** The escape table writes each character as one piece that reads back as that character. */
  lemma EscapePieceExact(c: char)
    ensures ValidPiece('"', PieceOf(c))
    ensures PieceText(PieceOf(c)) == EscapeChar(c)
    ensures PieceMeaning('"', PieceOf(c)) == [c]
  {
    if PieceOf(c).Hex? { ControlPiece(c); }
  }

  function PiecesOf(s: string): seq<Piece> {
    if s == "" then [] else [PieceOf(s[0])] + PiecesOf(s[1..])
  }

  function QuotedOf(s: string): Quoted { Quoted('"', PiecesOf(s)) }

  lemma {:induction false} EscapeStringExact(s: string)
    ensures ValidQuoted(QuotedOf(s))
    ensures PiecesText(PiecesOf(s)) == EscapeString(s)
    ensures QuotedMeaning(QuotedOf(s)) == s
  {
    if s != "" {
      EscapePieceExact(s[0]);
      EscapeStringExact(s[1..]);
      assert s == [s[0]] + s[1..];
      assert PiecesOf(s)[1..] == PiecesOf(s[1..]);
    }
  }

  // ---------------------------------------------------------------- the printed text as a tree

  function Blanks(s: string): Gap { seq(|s|, i requires 0 <= i < |s| => Blank(s[i])) }

  lemma {:induction false} BlanksText(s: string)
    requires forall c :: c in s ==> IsSpace(c)
    ensures ValidGap(Blanks(s)) && GapText(Blanks(s)) == s
  {
    if s != "" {
      assert Blanks(s)[1..] == Blanks(s[1..]);
      BlanksText(s[1..]);
      assert s == [s[0]] + s[1..];
    }
  }

  /** A line break and the indentation of the next line. */
  function Indent(depth: nat): string { "\n" + Tabs(depth) }

  function ClosingTail(empty: bool, depth: nat): Tail {
    Tail(false, Blanks((if empty then "" else " ") + Indent(depth)))
  }

  ghost function TreeOf(depth: nat, v: Value): Tree
    decreases v, 1
  {
    match v
    case Null => TNull
    case Invalid => TNull
    case Bool(b) => TBool(b)
    case Num(n) => TNumber(GeneralLiteral(Rounded(n, PRECISION), PRECISION))
    case Str(s) => TString(QuotedOf(s))
    case Array(vs) => TArray(ItemsOf(depth + 1, vs), ClosingTail(vs == [], depth))
    case Object(m) => TObject(MembersOf(depth + 1, v, SortedKeys(m.Keys)), ClosingTail(m == map[], depth))
  }

  ghost function ItemsOf(depth: nat, vs: seq<Value>): (r: seq<Item>)
    ensures |r| == |vs|
    decreases vs, 0
  {
    if vs == [] then []
    else [Item(Blanks(Indent(depth)), TreeOf(depth, vs[0]), [])] + ItemsOf(depth, vs[1..])
  }

  ghost function MembersOf(depth: nat, o: Value, keys: seq<string>): (r: seq<Member>)
    requires o.Object? && forall k :: k in keys ==> k in o.m
    ensures |r| == |keys|
    decreases o, 0, |keys|
  {
    if keys == [] then []
    else
      assert keys[0] in o.m;
      [Member(Blanks(Indent(depth)), QuotedOf(keys[0]), [],
              Item(Blanks(" "), TreeOf(depth, o.m[keys[0]]), []))] + MembersOf(depth, o, keys[1..])
  }

  /** No member anywhere has an empty name. */
  ghost predicate NoEmptyKeys(v: Value) {
    match v
    case Array(vs) => forall e :: e in vs ==> NoEmptyKeys(e)
    case Object(m) => forall k :: k in m ==> k != "" && NoEmptyKeys(m[k])
    case _ => true
  }

  /** What printing keeps: numbers at the printer's precision, and null for a value never set. */
  ghost function Kept(v: Value): Value
    decreases v
  {
    match v
    case Invalid => Null
    case Num(n) => Num(Rounded(n, PRECISION))
    case Array(vs) => Array(seq(|vs|, i requires 0 <= i < |vs| => Kept(vs[i])))
    case Object(m) => Object(map k | k in m :: Kept(m[k]))
    case _ => v
  }

  lemma GapsValid(depth: nat, empty: bool)
    ensures ValidGap(Blanks(Indent(depth))) && GapText(Blanks(Indent(depth))) == Indent(depth)
    ensures ValidGap(ClosingTail(empty, depth).gap)
    ensures GapText(ClosingTail(empty, depth).gap) == (if empty then "" else " ") + Indent(depth)
    ensures ValidGap(Blanks(" ")) && GapText(Blanks(" ")) == " "
  {
    BlanksText(Indent(depth));
    BlanksText((if empty then "" else " ") + Indent(depth));
    BlanksText(" ");
  }

  // ---------------------------------------------------------------- meaning

  lemma {:induction false} TreeMeaning(depth: nat, v: Value)
    ensures Valid(TreeOf(depth, v)) && Meaning(TreeOf(depth, v)) == Kept(v)
    decreases v, 3
  {
    hide Rounded, GeneralLiteral, ValidLiteral, LiteralValue, ItemsOf, MembersOf, PiecesOf, PiecesMeaning;
    match v
    case Num(n) => GeneralLiteralValue(Rounded(n, PRECISION), PRECISION);
    case Str(s) => EscapeStringExact(s);
    case Array(vs) => ArrayMeaning(depth, v);
    case Object(m) => ObjectMeaning(depth, v);
    case _ =>
  }

  lemma {:induction false} ArrayMeaning(depth: nat, v: Value)
    requires v.Array?
    ensures Valid(TreeOf(depth, v)) && Meaning(TreeOf(depth, v)) == Kept(v)
    decreases v, 2
  {
    hide ItemsOf, ItemsMeaning, Indent, Kept, KeptElements, TreeOf, ClosingTail, GapText;
    GapsValid(depth, v.vs == []);
    ItemsMean(depth + 1, v.vs, []);
    TreeOfArray(depth, v);
    KeptOfArray(v);
    ClosingTailValid(v.vs == [], depth, |v.vs|);
  }

  lemma {:induction false} ObjectMeaning(depth: nat, v: Value)
    requires v.Object?
    ensures Valid(TreeOf(depth, v)) && Meaning(TreeOf(depth, v)) == Kept(v)
    decreases v, 2
  {
    hide MembersOf, MembersMeaning, Indent, Kept, KeptMembers, TreeOf, ClosingTail, GapText;
    GapsValid(depth, v.m == map[]);
    MembersMean(depth + 1, v, SortedKeys(v.m.Keys), map[]);
    TreeOfObject(depth, v);
    KeptOfObject(v);
    ClosingTailValid(v.m == map[], depth, |SortedKeys(v.m.Keys)|);
  }

  lemma ClosingTailValid(empty: bool, depth: nat, count: nat)
    ensures ValidTail(count, ClosingTail(empty, depth))
  {
    GapsValid(depth, empty);
  }

  ghost function KeptElements(vs: seq<Value>): seq<Value> { seq(|vs|, i requires 0 <= i < |vs| => Kept(vs[i])) }

  lemma KeptElementsStep(vs: seq<Value>, acc: seq<Value>)
    ensures vs == [] ==> acc == acc + KeptElements(vs)
    ensures vs != [] ==> acc + [Kept(vs[0])] + KeptElements(vs[1..]) == acc + KeptElements(vs)
  {
    hide Kept;
  }

  lemma KeptOfArray(v: Value)
    requires v.Array?
    ensures Kept(v) == Array([] + KeptElements(v.vs))
  {
  }

  lemma KeptOfObject(v: Value)
    requires v.Object?
    ensures Kept(v) == Object(map[] + KeptMembers(v, SortedKeys(v.m.Keys)))
  {
    hide SortedKeys;
    var keys := SortedKeys(v.m.Keys);
    assert forall k :: k in keys <==> k in v.m;
    assert Kept(v).m == KeptMembers(v, keys);
    assert map[] + KeptMembers(v, keys) == KeptMembers(v, keys);
  }

  lemma {:induction false} ItemsMean(depth: nat, vs: seq<Value>, acc: seq<Value>)
    ensures var items := ItemsOf(depth, vs);
            && (forall i :: i in items ==> ValidItem(i))
            && ItemsMeaning(items, acc) == acc + KeptElements(vs)
    decreases vs, 0
  {
    hide Kept, KeptElements, Indent, Blanks;
    if vs == [] {
      KeptElementsStep(vs, acc);
    } else {
      GapsValid(depth, true);
      TreeMeaning(depth, vs[0]);
      ItemsMean(depth, vs[1..], acc + [Kept(vs[0])]);
      KeptElementsStep(vs, acc);
      assert ItemsOf(depth, vs)[1..] == ItemsOf(depth, vs[1..]);
    }
  }

  ghost function KeptMembers(o: Value, keys: seq<string>): map<string, Value>
    requires o.Object? && forall k :: k in keys ==> k in o.m
  {
    map k | k in keys :: Kept(o.m[k])
  }

  lemma KeptStep(o: Value, keys: seq<string>, acc: map<string, Value>)
    requires o.Object? && keys != [] && forall k :: k in keys ==> k in o.m
    ensures keys[0] in o.m
    ensures acc[keys[0] := Kept(o.m[keys[0]])] + KeptMembers(o, keys[1..]) == acc + KeptMembers(o, keys)
  {
    assert keys[0] in keys;
    assert forall k :: k in keys <==> k == keys[0] || k in keys[1..];
  }

  lemma {:induction false} MembersMean(depth: nat, o: Value, keys: seq<string>, acc: map<string, Value>)
    requires o.Object? && forall k :: k in keys ==> k in o.m
    ensures var members := MembersOf(depth, o, keys);
            && (forall m :: m in members ==> ValidMember(m))
            && MembersMeaning(members, acc) == acc + KeptMembers(o, keys)
    decreases o, 0, |keys|
  {
    hide Kept, PiecesOf, PiecesMeaning, Blanks, Indent;
    if keys != [] {
      var k := keys[0];
      assert k in o.m;
      GapsValid(depth, true);
      EscapeStringExact(k);
      TreeMeaning(depth, o.m[k]);
      var members := MembersOf(depth, o, keys);
      assert members[1..] == MembersOf(depth, o, keys[1..]);
      MembersMean(depth, o, keys[1..], acc[k := Kept(o.m[k])]);
      KeptStep(o, keys, acc);
    }
  }

  // ---------------------------------------------------------------- text

  lemma LastComma(s: string)
    requires |s| > 0
    ensures RemoveLastComma(s + ",\n") == s + " \n"
  {
    var t := s + ",\n";
    assert t[|t| - 2] == ',' && t[|t| - 2 := ' '] == s + " \n";
  }

  lemma ContainerText(head: string, open: string, tags: string, inner: string, depth: nat, close: string, empty: bool)
    requires |open| == 1 && open != ","
    requires if empty then tags == "" && inner == "" else "\n" + tags == inner + ",\n"
    ensures Container(head, open, tags, depth, close)
         == head + (open + inner + TailText(ClosingTail(empty, depth)) + close) + ",\n"
  {
    hide Tabs, RemoveLastComma;
    GapsValid(depth, empty);
    if empty {
      var s := head + (open + "\n") + tags;
      assert s == head + open + "\n" && s[|s| - 2] == open[0];
      NoLastComma(s);
      EmptyConcat(head, open, Tabs(depth), close);
    } else {
      BracketConcat(head, open, tags, inner, Tabs(depth), close);
      LastComma(head + open + inner);
    }
  }

  lemma NoLastComma(s: string)
    requires |s| >= 2 && s[|s| - 2] != ','
    ensures RemoveLastComma(s) == s
  {
  }

  lemma EmptyConcat(head: string, open: string, tabs: string, close: string)
    ensures head + (open + "\n") + "" + tabs + close + ",\n"
         == head + (open + "" + ("" + ("" + ("\n" + tabs))) + close) + ",\n"
  {
  }

  lemma BracketConcat(head: string, open: string, tags: string, inner: string, tabs: string, close: string)
    requires "\n" + tags == inner + ",\n"
    ensures head + (open + "\n") + tags == head + open + inner + ",\n"
    ensures head + open + inner + " \n" + tabs + close + ",\n"
         == head + (open + inner + ("" + (" " + ("\n" + tabs))) + close) + ",\n"
  {
    assert head + (open + "\n") + tags == head + open + ("\n" + tags);
  }

  lemma QuoteConcat(head: string, e: string)
    ensures head + "\"" + e + "\"" + ",\n" == head + (['"'] + e + ['"']) + ",\n"
  {
  }

  /** With no empty member name below it, a value is printed as the text of its tree. */
  lemma {:induction false} TagText(depth: nat, name: string, v: Value)
    requires NoEmptyKeys(v)
    ensures Tag(depth, name, v) == Head(depth, name) + TreeText(TreeOf(depth, v)) + ",\n"
    decreases v, 3
  {
    match v
    case Array(vs) => ArrayTagText(depth, name, v);
    case Object(m) => ObjectTagText(depth, name, v);
    case _ => ScalarTagText(depth, name, v);
  }

  lemma ScalarTagText(depth: nat, name: string, v: Value)
    requires !v.Array? && !v.Object?
    ensures Tag(depth, name, v) == Head(depth, name) + TreeText(TreeOf(depth, v)) + ",\n"
  {
    hide Head, EscapeString, GeneralLiteral, Rounded, LiteralText;
    if v.Str? {
      EscapeStringExact(v.s);
      QuoteConcat(Head(depth, name), EscapeString(v.s));
    }
  }

  lemma {:induction false} ArrayTagText(depth: nat, name: string, v: Value)
    requires NoEmptyKeys(v) && v.Array?
    ensures Tag(depth, name, v) == Head(depth, name) + TreeText(TreeOf(depth, v)) + ",\n"
    decreases v, 2
  {
    hide Head, Container, ElementTags, ItemsOf, TailText, ItemsText, ClosingTail, TreeOf;
    if v.vs == [] { EmptyLists(depth + 1, v); } else { ElementTagsText(depth + 1, v.vs); }
    ContainerText(Head(depth, name), "[", ElementTags(depth + 1, v.vs), ItemsText(ItemsOf(depth + 1, v.vs)), depth, "]", v.vs == []);
    assert TreeOf(depth, v) == TArray(ItemsOf(depth + 1, v.vs), ClosingTail(v.vs == [], depth)) by { TreeOfArray(depth, v); }
  }

  lemma NoKeys(m: map<string, Value>)
    ensures m == map[] <==> SortedKeys(m.Keys) == []
  {
    if SortedKeys(m.Keys) == [] {
      assert m.Keys == {};
    }
  }

  lemma TreeOfArray(depth: nat, v: Value)
    requires v.Array?
    ensures TreeOf(depth, v) == TArray(ItemsOf(depth + 1, v.vs), ClosingTail(v.vs == [], depth))
  {
  }

  lemma TreeOfObject(depth: nat, v: Value)
    requires v.Object?
    ensures TreeOf(depth, v) == TObject(MembersOf(depth + 1, v, SortedKeys(v.m.Keys)), ClosingTail(v.m == map[], depth))
  {
  }

  lemma {:induction false} ObjectTagText(depth: nat, name: string, v: Value)
    requires NoEmptyKeys(v) && v.Object?
    ensures Tag(depth, name, v) == Head(depth, name) + TreeText(TreeOf(depth, v)) + ",\n"
    decreases v, 2
  {
    hide Head, Container, MemberTags, MembersOf, TailText, MembersText, ClosingTail, TreeOf;
    var keys := SortedKeys(v.m.Keys);
    NoKeys(v.m);
    if keys == [] { EmptyLists(depth + 1, v); } else { MemberTagsText(depth + 1, v, keys); }
    ContainerText(Head(depth, name), "{", MemberTags(depth + 1, v, keys), MembersText(MembersOf(depth + 1, v, keys)), depth, "}", v.m == map[]);
    TreeOfObject(depth, v);
  }

  lemma EmptyLists(depth: nat, o: Value)
    ensures ElementTags(depth, []) == "" && ItemsText(ItemsOf(depth, [])) == ""
    ensures o.Object? ==> MemberTags(depth, o, []) == "" && MembersText(MembersOf(depth, o, [])) == ""
  {
  }

  lemma JoinLast(g: string, h: string, t: string)
    requires "\n" + h == g
    ensures "\n" + (h + t + ",\n" + "") == g + t + ",\n"
  {
    assert "\n" + (h + t + ",\n" + "") == ("\n" + h) + (t + ",\n");
  }

  lemma JoinMore(g: string, h: string, t: string, tags: string, inner: string)
    requires "\n" + h == g && "\n" + tags == inner + ",\n"
    ensures "\n" + (h + t + ",\n" + tags) == g + t + ("," + inner) + ",\n"
  {
    assert "\n" + (h + t + ",\n" + tags) == ("\n" + h) + (t + ("," + ("\n" + tags)));
    assert g + t + ("," + inner) + ",\n" == g + (t + ("," + (inner + ",\n")));
  }

  lemma {:induction false} ElementTagsText(depth: nat, vs: seq<Value>)
    requires vs != [] && forall e :: e in vs ==> NoEmptyKeys(e)
    ensures "\n" + ElementTags(depth, vs) == ItemsText(ItemsOf(depth, vs)) + ",\n"
    decreases vs, 0
  {
    GapsValid(depth, true);
    TagText(depth, "", vs[0]);
    var items := ItemsOf(depth, vs);
    var t := TreeText(TreeOf(depth, vs[0]));
    assert Head(depth, "") == Tabs(depth);
    assert ItemText(items[0]) == Indent(depth) + t by {
      assert GapText([]) == "";
    }
    if |vs| == 1 {
      JoinLast(Indent(depth), Tabs(depth), t);
      assert ItemsText(items) == ItemText(items[0]) + "";
      assert ElementTags(depth, vs[1..]) == "";
    } else {
      ElementTagsText(depth, vs[1..]);
      assert items[1..] == ItemsOf(depth, vs[1..]);
      JoinMore(Indent(depth), Tabs(depth), t, ElementTags(depth, vs[1..]), ItemsText(items[1..]));
    }
  }

  lemma MemberHead(depth: nat, key: string, t: string)
    requires key != ""
    ensures Head(depth, key) + t == Tabs(depth) + (QuotedText(QuotedOf(key)) + (":" + (" " + t)))
  {
    EscapeStringExact(key);
    var e := EscapeString(key);
    assert "\"" + e + "\"" + ":" + " " + t == ("\"" + e + "\"") + (":" + (" " + t));
    Assoc(Tabs(depth), "\"" + e + "\"" + ":" + " ", t);
  }

  lemma MemberTextFlat(g: string, q: string, t: string)
    ensures g + q + "" + ":" + (" " + t + "") == g + (q + (":" + (" " + t)))
  {
  }

  lemma {:induction false} MemberTagsText(depth: nat, o: Value, keys: seq<string>)
    requires o.Object? && keys != [] && NoEmptyKeys(o) && forall k :: k in keys ==> k in o.m
    ensures "\n" + MemberTags(depth, o, keys) == MembersText(MembersOf(depth, o, keys)) + ",\n"
    decreases o, 0, |keys|
  {
    var k := keys[0];
    assert k in o.m && k != "";
    GapsValid(depth, true);
    TagText(depth, k, o.m[k]);
    var members := MembersOf(depth, o, keys);
    var t := TreeText(TreeOf(depth, o.m[k]));
    var body := QuotedText(QuotedOf(k)) + (":" + (" " + t));
    MemberHead(depth, k, t);
    assert MemberText(members[0]) == Indent(depth) + body by {
      assert GapText([]) == "";
      MemberTextFlat(Indent(depth), QuotedText(QuotedOf(k)), t);
    }
    if |keys| == 1 {
      JoinLast(Indent(depth), Tabs(depth), body);
      assert MembersText(members) == MemberText(members[0]) + "";
      assert MemberTags(depth, o, keys[1..]) == "";
    } else {
      MemberTagsText(depth, o, keys[1..]);
      assert members[1..] == MembersOf(depth, o, keys[1..]);
      JoinMore(Indent(depth), Tabs(depth), body, MemberTags(depth, o, keys[1..]), MembersText(members[1..]));
    }
  }

  // ---------------------------------------------------------------- the round trip

  lemma NoHead()
    ensures Head(0, "") == ""
  {
  }

  /** `json()` of a value is its tree's text, a blank and a line break. */
  lemma JsonIsTreeText(v: Value)
    requires NoEmptyKeys(v)
    ensures Json(v) == TreeText(TreeOf(0, v)) + " \n"
  {
    hide Head, TreeOf, TreeText, Tag, RemoveLastComma, Kept;
    var t := TreeText(TreeOf(0, v));
    NoHead();
    TagText(0, "", v);
    assert "" + t == t;
    TreeMeaning(0, v);
    TreeStart(TreeOf(0, v));
    LastComma(t);
  }

  /** Whatever was printed, the parser reads back what printing keeps. */
  lemma ParseJson(v: Value)
    requires NoEmptyKeys(v)
    ensures ParseValue(Json(v)) == Parsed(true, Kept(v), " \n")
  {
    JsonIsTreeText(v);
    TreeMeaning(0, v);
    ParseTree([], TreeOf(0, v), " \n");
    assert GapText([]) + (TreeText(TreeOf(0, v)) + " \n") == Json(v);
  }
}
