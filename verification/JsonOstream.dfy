/** `operator<<`: the one-line printer, and exactly when the parser reads its output back unchanged. */
module JsonOstream {
  import opened Text
  import opened JsonNumber
  import opened JsonParser
  import opened JsonText
  import opened JsonPrinter
  import opened JsonRoundTrip
  import opened JsonFaithful

  // ---------------------------------------------------------------- the printer

  /** `char` is signed: a byte of 128 or more compares below 32 and is written as a negative `int`. */
  function StreamChar(c: char): string {
    if c as int >= 128 then "\\uffffff" + HexByte(c as int) else EscapeChar(c)
  }

  function StreamString(s: string): string {
    if s == "" then "" else StreamChar(s[0]) + StreamString(s[1..])
  }

  /** The stream's default precision. */
  const STREAM_PRECISION: nat := 6

  ghost function StreamText(v: Value): string
    decreases v, 1
  {
    match v
    case Num(n) => NumberText(n, STREAM_PRECISION)
    case Str(s) => "\"" + StreamString(s) + "\""
    case Bool(b) => if b then "true" else "false"
    case Null => "null"
    case Object(m) => "{" + StreamMembers(v, SortedKeys(m.Keys)) + "}"
    case Array(vs) => "[" + StreamElements(vs) + "]"
    case Invalid => ""
  }

  ghost function StreamElements(vs: seq<Value>): string
    decreases vs, 0
  {
    if vs == [] then "" else StreamText(vs[0]) + (if |vs| == 1 then "" else ", " + StreamElements(vs[1..]))
  }

  ghost function StreamMembers(o: Value, keys: seq<string>): string
    requires o.Object? && forall k :: k in keys ==> k in o.m
    decreases o, 0, |keys|
  {
    if keys == [] then ""
    else
      assert keys[0] in o.m;
      "\"" + StreamString(keys[0]) + "\"" + ": " + StreamText(o.m[keys[0]])
      + (if |keys| == 1 then "" else ", " + StreamMembers(o, keys[1..]))
  }

  // ---------------------------------------------------------------- what is read back

  /** Four hexadecimal digits of the negative number are taken as one byte, 255; the rest stays as text. */
  function Garbled(s: string): string {
    if s == "" then ""
    else (if s[0] as int >= 128 then "\U{ff}ff" + HexByte(s[0] as int) else [s[0]]) + Garbled(s[1..])
  }

  predicate SevenBit(s: string) { forall c :: c in s ==> c as int < 128 }

  lemma {:induction false} GarbledLength(s: string)
    ensures |Garbled(s)| >= |s|
    ensures SevenBit(s) ==> Garbled(s) == s
    ensures !SevenBit(s) ==> |Garbled(s)| > |s| && !SevenBit(Garbled(s))
  {
    if s != "" {
      GarbledLength(s[1..]);
      assert s == [s[0]] + s[1..];
      assert s[0] in s;
      var g := Garbled(s);
      var rest := Garbled(s[1..]);
      if s[0] as int >= 128 {
        assert g[0] in g && g[0] as int >= 128;
      } else {
        assert g == [s[0]] + rest;
        assert forall c :: c in s <==> c == s[0] || c in s[1..];
        if !SevenBit(rest) {
          var c :| c in rest && c as int >= 128;
          assert c in g;
        }
      }
    }
  }

  /** The value that comes back from the printed line. */
  ghost function Echo(v: Value): Value
    decreases v, 1
  {
    match v
    case Num(n) => Num(Rounded(n, STREAM_PRECISION))
    case Str(s) => Str(Garbled(s))
    case Array(vs) => Array(seq(|vs|, i requires 0 <= i < |vs| => Echo(vs[i])))
    case Object(m) => Object(EchoMembers(v, SortedKeys(m.Keys), map[]))
    case _ => v
  }

  ghost function EchoMembers(o: Value, keys: seq<string>, acc: map<string, Value>): map<string, Value>
    requires o.Object? && forall k :: k in keys ==> k in o.m
    decreases o, 0, |keys|
  {
    if keys == [] then acc
    else
      assert keys[0] in o.m;
      EchoMembers(o, keys[1..], acc[Garbled(keys[0]) := Echo(o.m[keys[0]])])
  }

  ghost predicate AllSevenBit(v: Value) {
    match v
    case Str(s) => SevenBit(s)
    case Array(vs) => forall e :: e in vs ==> AllSevenBit(e)
    case Object(m) => forall k :: k in m ==> SevenBit(k) && AllSevenBit(m[k])
    case _ => true
  }

  // ---------------------------------------------------------------- when nothing changes

  lemma {:induction false} EchoKeys(o: Value, keys: seq<string>, acc: map<string, Value>)
    requires o.Object? && forall k :: k in keys ==> k in o.m
    ensures forall k :: k in keys ==> Garbled(k) in EchoMembers(o, keys, acc)
    ensures forall k :: k in acc ==> k in EchoMembers(o, keys, acc)
    decreases |keys|
  {
    if keys != [] {
      assert keys[0] in o.m;
      EchoKeys(o, keys[1..], acc[Garbled(keys[0]) := Echo(o.m[keys[0]])]);
      forall k | k in keys ensures Garbled(k) in EchoMembers(o, keys, acc) {
        if k != keys[0] { assert k in keys[1..]; }
      }
    }
  }

  ghost function EchoMap(o: Value, keys: seq<string>): map<string, Value>
    requires o.Object? && forall k :: k in keys ==> k in o.m
  {
    map k | k in keys :: Echo(o.m[k])
  }

  lemma EchoMapStep(o: Value, keys: seq<string>, acc: map<string, Value>)
    requires o.Object? && forall k :: k in keys ==> k in o.m
    ensures keys == [] ==> acc == acc + EchoMap(o, keys)
    ensures keys != [] ==> keys[0] in o.m && acc[keys[0] := Echo(o.m[keys[0]])] + EchoMap(o, keys[1..]) == acc + EchoMap(o, keys)
  {
    hide Echo;
    if keys != [] {
      assert keys[0] in keys;
      assert forall k :: k in keys <==> k == keys[0] || k in keys[1..];
    }
  }

  /** With 7-bit names nothing collides: every member comes back under its own name. */
  lemma {:induction false} EchoSevenBit(o: Value, keys: seq<string>, acc: map<string, Value>)
    requires o.Object? && forall k :: k in keys ==> k in o.m && SevenBit(k)
    ensures EchoMembers(o, keys, acc) == acc + EchoMap(o, keys)
    decreases |keys|
  {
    hide Echo, EchoMap, Garbled;
    EchoMapStep(o, keys, acc);
    if keys != [] {
      GarbledLength(keys[0]);
      EchoSevenBit(o, keys[1..], acc[keys[0] := Echo(o.m[keys[0]])]);
    }
  }

  lemma EchoOfSevenBit(o: Value)
    requires o.Object? && forall k :: k in o.m ==> SevenBit(k)
    ensures Echo(o).Object? && Echo(o).m.Keys == o.m.Keys
    ensures forall k :: k in o.m ==> Echo(o).m[k] == Echo(o.m[k])
  {
    hide SortedKeys, SevenBit;
    var keys := SortedKeys(o.m.Keys);
    EchoSevenBit(o, keys, map[]);
    assert map[] + EchoMap(o, keys) == EchoMap(o, keys);
  }

  lemma {:induction false} LongestExists(ks: set<string>)
    requires ks != {}
    ensures exists k :: k in ks && forall j :: j in ks ==> |j| <= |k|
    decreases |ks|
  {
    var x :| x in ks;
    if ks == {x} {
      assert x in ks && forall j :: j in ks ==> |j| <= |x|;
    } else {
      LongestExists(ks - {x});
      var y :| y in ks - {x} && forall j :: j in ks - {x} ==> |j| <= |y|;
      var z := if |x| <= |y| then y else x;
      assert z in ks && forall j :: j in ks ==> |j| <= |z|;
    }
  }

  lemma GarbledName(o: Value, k: string)
    requires o.Object? && Echo(o) == o && k in o.m
    ensures Garbled(k) in o.m
  {
    hide Garbled, SortedKeys;
    assert k in SortedKeys(o.m.Keys);
    EchoKeys(o, SortedKeys(o.m.Keys), map[]);
  }

  /** If the member names come back as the same set, none of them was garbled. */
  lemma SameNamesAreSevenBit(o: Value)
    requires o.Object? && Echo(o) == o
    ensures forall k :: k in o.m ==> SevenBit(k)
  {
    hide Echo, SevenBit, Garbled;
    var bad := set k | k in o.m && !SevenBit(k);
    if bad != {} {
      LongestExists(bad);
      var k :| k in bad && forall j :: j in bad ==> |j| <= |k|;
      GarbledName(o, k);
      GarbledLength(k);
      assert false;
    }
    forall k | k in o.m ensures SevenBit(k) { assert k !in bad; }
  }

  lemma {:induction false} EchoExactly(v: Value)
    requires NeverInvalid(v)
    ensures Echo(v) == v <==> Intact(v, STREAM_PRECISION) && AllSevenBit(v)
    decreases v
  {
    hide Rounded, Digits, SortedKeys;
    match v
    case Num(n) => RoundedExact(n, STREAM_PRECISION);
    case Str(s) => GarbledLength(s);
    case Array(vs) => EchoArrayExactly(v);
    case Object(m) => EchoObjectExactly(v);
    case _ =>
  }

  lemma {:induction false} EchoArrayExactly(v: Value)
    requires NeverInvalid(v) && v.Array?
    ensures Echo(v) == v <==> Intact(v, STREAM_PRECISION) && AllSevenBit(v)
    decreases v, 0
  {
    var vs := v.vs;
    forall i | 0 <= i < |vs| ensures Echo(vs[i]) == vs[i] <==> Intact(vs[i], STREAM_PRECISION) && AllSevenBit(vs[i]) {
      EchoExactly(vs[i]);
    }
    if Echo(v) == v {
      forall e | e in vs ensures Intact(e, STREAM_PRECISION) && AllSevenBit(e) {
        var i :| 0 <= i < |vs| && vs[i] == e;
        assert Echo(v).vs[i] == Echo(vs[i]);
      }
    }
    if Intact(v, STREAM_PRECISION) && AllSevenBit(v) {
      assert forall i :: 0 <= i < |vs| ==> vs[i] in vs;
      assert Echo(v).vs == vs;
    }
  }

  lemma {:induction false} EchoObjectExactly(v: Value)
    requires NeverInvalid(v) && v.Object?
    ensures Echo(v) == v <==> Intact(v, STREAM_PRECISION) && AllSevenBit(v)
    decreases v, 0
  {
    hide SortedKeys, Echo, SevenBit;
    var m := v.m;
    forall k | k in m ensures Echo(m[k]) == m[k] <==> Intact(m[k], STREAM_PRECISION) && AllSevenBit(m[k]) {
      EchoExactly(m[k]);
    }
    if Echo(v) == v { SameNamesAreSevenBit(v); }
    if forall k :: k in m ==> SevenBit(k) {
      EchoOfSevenBit(v);
      if Intact(v, STREAM_PRECISION) && AllSevenBit(v) { assert Echo(v).m == m; }
    }
  }

  // ---------------------------------------------------------------- the printed line as a tree

  function StreamPieces(s: string): seq<Piece> {
    if s == "" then []
    else
      (if s[0] as int >= 128 then
         [Hex("ffff"), Plain('f'), Plain('f'), Plain(HexByte(s[0] as int)[0]), Plain(HexByte(s[0] as int)[1])]
       else [PieceOf(s[0])])
      + StreamPieces(s[1..])
  }

  lemma {:induction false} PiecesConcat(a: seq<Piece>, b: seq<Piece>)
    ensures PiecesText(a + b) == PiecesText(a) + PiecesText(b)
    ensures PiecesMeaning('"', a + b) == PiecesMeaning('"', a) + PiecesMeaning('"', b)
  {
    hide PieceText, PieceMeaning;
    if a == [] {
      assert a + b == b;
      assert "" + PiecesText(b) == PiecesText(b) && "" + PiecesMeaning('"', b) == PiecesMeaning('"', b);
    } else {
      assert (a + b)[1..] == a[1..] + b;
      PiecesConcat(a[1..], b);
      Assoc(PieceText(a[0]), PiecesText(a[1..]), PiecesText(b));
      Assoc(PieceMeaning('"', a[0]), PiecesMeaning('"', a[1..]), PiecesMeaning('"', b));
    }
  }

  lemma OnePiece(p: Piece)
    ensures PiecesText([p]) == PieceText(p) && PiecesMeaning('"', [p]) == PieceMeaning('"', p)
  {
    assert [p][1..] == [];
  }

  lemma FourFs()
    ensures UnicodePiece("ffff") == "\U{ff}"
  {
    HexPrefixFour("ffff");
  }

  lemma HighByte(h: string)
    requires |h| == 2 && h[0] != '"' && h[0] != '\\' && h[1] != '"' && h[1] != '\\'
    ensures var ps := [Hex("ffff"), Plain('f'), Plain('f'), Plain(h[0]), Plain(h[1])];
            && PiecesText(ps) == "\\uffffff" + h
            && PiecesMeaning('"', ps) == "\U{ff}ff" + h
            && forall p :: p in ps ==> ValidPiece('"', p)
  {
    var ps := [Hex("ffff"), Plain('f'), Plain('f'), Plain(h[0]), Plain(h[1])];
    FourFs();
    hide UnicodePiece, PiecesText, PiecesMeaning;
    assert ps == [Hex("ffff")] + ([Plain('f')] + ([Plain('f')] + ([Plain(h[0])] + [Plain(h[1])])));
    PiecesConcat([Hex("ffff")], [Plain('f')] + ([Plain('f')] + ([Plain(h[0])] + [Plain(h[1])])));
    PiecesConcat([Plain('f')], [Plain('f')] + ([Plain(h[0])] + [Plain(h[1])]));
    PiecesConcat([Plain('f')], [Plain(h[0])] + [Plain(h[1])]);
    PiecesConcat([Plain(h[0])], [Plain(h[1])]);
    OnePiece(Hex("ffff"));
    OnePiece(Plain('f'));
    OnePiece(Plain(h[0]));
    OnePiece(Plain(h[1]));
  }

  lemma {:induction false} StreamStringExact(s: string)
    ensures ValidQuoted(Quoted('"', StreamPieces(s)))
    ensures PiecesText(StreamPieces(s)) == StreamString(s)
    ensures PiecesMeaning('"', StreamPieces(s)) == Garbled(s)
  {
    hide HexByte;
    if s != "" {
      StreamStringExact(s[1..]);
      if s[0] as int >= 128 {
        var h := HexByte(s[0] as int);
        HexByteChars(s[0] as int);
        HighByte(h);
        PiecesConcat([Hex("ffff"), Plain('f'), Plain('f'), Plain(h[0]), Plain(h[1])], StreamPieces(s[1..]));
      } else {
        EscapePieceExact(s[0]);
        OnePiece(PieceOf(s[0]));
        PiecesConcat([PieceOf(s[0])], StreamPieces(s[1..]));
      }
    }
  }

  lemma HexByteChars(i: nat)
    ensures forall j :: 0 <= j < 2 ==> HexByte(i)[j] != '"' && HexByte(i)[j] != '\\'
  {
  }

  const NO_TAIL := Tail(false, [])

  function Spacing(first: bool): Gap { if first then [] else [Blank(' ')] }

  ghost function StreamTree(v: Value): Tree
    requires NeverInvalid(v)
    decreases v, 1
  {
    match v
    case Null => TNull
    case Bool(b) => TBool(b)
    case Num(n) => TNumber(GeneralLiteral(Rounded(n, STREAM_PRECISION), STREAM_PRECISION))
    case Str(s) => TString(Quoted('"', StreamPieces(s)))
    case Array(vs) => TArray(StreamItems(vs, true), NO_TAIL)
    case Object(m) => TObject(StreamMemberTrees(v, SortedKeys(m.Keys), true), NO_TAIL)
  }

  ghost function StreamItems(vs: seq<Value>, first: bool): (r: seq<Item>)
    requires forall e :: e in vs ==> NeverInvalid(e)
    ensures |r| == |vs|
    decreases vs, 0
  {
    if vs == [] then [] else [Item(Spacing(first), StreamTree(vs[0]), [])] + StreamItems(vs[1..], false)
  }

  ghost function StreamMemberTrees(o: Value, keys: seq<string>, first: bool): (r: seq<Member>)
    requires o.Object? && NeverInvalid(o) && forall k :: k in keys ==> k in o.m
    ensures |r| == |keys|
    decreases o, 0, |keys|
  {
    if keys == [] then []
    else
      assert keys[0] in o.m;
      [Member(Spacing(first), Quoted('"', StreamPieces(keys[0])), [], Item([Blank(' ')], StreamTree(o.m[keys[0]]), []))]
      + StreamMemberTrees(o, keys[1..], false)
  }

  lemma SpacingText(first: bool)
    ensures ValidGap(Spacing(first)) && GapText(Spacing(first)) == if first then "" else " "
    ensures ValidGap([Blank(' ')]) && GapText([Blank(' ')]) == " " && GapText([]) == ""
  {
    assert GapText([Blank(' ')]) == FillerText(Blank(' ')) + GapText([]);
  }

  lemma {:induction false} StreamTreeExact(v: Value)
    requires NeverInvalid(v)
    ensures var t := StreamTree(v); Valid(t) && TreeText(t) == StreamText(v) && Meaning(t) == Echo(v)
    decreases v, 3
  {
    hide Rounded, GeneralLiteral, ValidLiteral, LiteralValue, LiteralText, StreamPieces, SortedKeys, StreamString, Garbled;
    match v
    case Num(n) => GeneralLiteralValue(Rounded(n, STREAM_PRECISION), STREAM_PRECISION);
    case Str(s) => StreamStringExact(s);
    case Array(vs) => StreamArrayExact(v);
    case Object(m) => StreamObjectExact(v);
    case _ =>
  }

  ghost function EchoElements(vs: seq<Value>): seq<Value> { seq(|vs|, i requires 0 <= i < |vs| => Echo(vs[i])) }

  lemma EchoElementsStep(vs: seq<Value>, acc: seq<Value>)
    ensures vs == [] ==> acc == acc + EchoElements(vs)
    ensures vs != [] ==> acc + [Echo(vs[0])] + EchoElements(vs[1..]) == acc + EchoElements(vs)
  {
    hide Echo;
  }

  lemma NoTailText(open: string, inner: string, close: string)
    ensures open + inner + TailText(NO_TAIL) + close == open + inner + close
    ensures forall n: nat :: ValidTail(n, NO_TAIL)
  {
    assert TailText(NO_TAIL) == "";
  }

  lemma {:induction false} StreamArrayExact(v: Value)
    requires NeverInvalid(v) && v.Array?
    ensures var t := StreamTree(v); Valid(t) && TreeText(t) == StreamText(v) && Meaning(t) == Echo(v)
    decreases v, 2
  {
    hide TailText, StreamItems, StreamElements, ItemsText, ItemsMeaning;
    StreamItemsExact(v.vs, true, []);
    NoTailText("[", ItemsText(StreamItems(v.vs, true)), "]");
    assert "" + StreamElements(v.vs) == StreamElements(v.vs);
    assert [] + EchoElements(v.vs) == EchoElements(v.vs);
  }

  /** The separator's blank is the gap before the next element. */
  lemma {:induction false} StreamItemsExact(vs: seq<Value>, first: bool, acc: seq<Value>)
    requires forall e :: e in vs ==> NeverInvalid(e)
    ensures var items := StreamItems(vs, first);
            && (forall i :: i in items ==> ValidItem(i))
            && ItemsText(items) == (if first || vs == [] then "" else " ") + StreamElements(vs)
            && ItemsMeaning(items, acc) == acc + EchoElements(vs)
    decreases vs, 0
  {
    hide Echo, EchoElements, StreamTree, TreeText, StreamText, Spacing;
    EchoElementsStep(vs, acc);
    if vs != [] {
      SpacingText(first);
      StreamTreeExact(vs[0]);
      StreamItemsExact(vs[1..], false, acc + [Echo(vs[0])]);
      var items := StreamItems(vs, first);
      assert items[1..] == StreamItems(vs[1..], false);
      assert ItemText(items[0]) == GapText(Spacing(first)) + StreamText(vs[0]);
      ElementConcat(GapText(Spacing(first)), StreamText(vs[0]), StreamElements(vs[1..]));
    }
  }

  lemma ElementConcat(g: string, t: string, more: string)
    ensures g + t + "" == g + (t + "")
    ensures g + t + ("," + (" " + more)) == g + (t + (", " + more))
  {
  }

  lemma {:induction false} StreamObjectExact(v: Value)
    requires NeverInvalid(v) && v.Object?
    ensures var t := StreamTree(v); Valid(t) && TreeText(t) == StreamText(v) && Meaning(t) == Echo(v)
    decreases v, 2
  {
    hide TailText, StreamMemberTrees, StreamMembers, MembersText, MembersMeaning, SortedKeys, EchoMembers;
    var keys := SortedKeys(v.m.Keys);
    StreamMembersExact(v, keys, true, map[]);
    NoTailText("{", MembersText(StreamMemberTrees(v, keys, true)), "}");
    assert "" + StreamMembers(v, keys) == StreamMembers(v, keys);
  }

  lemma {:induction false} StreamMembersExact(o: Value, keys: seq<string>, first: bool, acc: map<string, Value>)
    requires o.Object? && NeverInvalid(o) && forall k :: k in keys ==> k in o.m
    ensures var members := StreamMemberTrees(o, keys, first);
            && (forall m :: m in members ==> ValidMember(m))
            && MembersText(members) == (if first || keys == [] then "" else " ") + StreamMembers(o, keys)
            && MembersMeaning(members, acc) == EchoMembers(o, keys, acc)
    decreases o, 0, |keys|
  {
    hide Echo, StreamTree, TreeText, StreamText, Spacing, StreamPieces, StreamString, Garbled, PiecesText, PiecesMeaning;
    if keys != [] {
      var k := keys[0];
      assert k in o.m;
      SpacingText(first);
      StreamStringExact(k);
      StreamTreeExact(o.m[k]);
      StreamMembersExact(o, keys[1..], false, acc[Garbled(k) := Echo(o.m[k])]);
      var members := StreamMemberTrees(o, keys, first);
      assert members[1..] == StreamMemberTrees(o, keys[1..], false);
      assert MemberText(members[0]) == GapText(Spacing(first)) + (['"'] + StreamString(k) + ['"']) + "" + ":"
                                       + (" " + StreamText(o.m[k]) + "");
      StreamMemberConcat(GapText(Spacing(first)), StreamString(k), StreamText(o.m[k]), StreamMembers(o, keys[1..]));
    }
  }

  lemma StreamMemberConcat(g: string, k: string, t: string, more: string)
    ensures (g + (['"'] + k + ['"']) + "" + ":" + (" " + t + "")) + "" == g + ("\"" + k + "\"" + ": " + t + "")
    ensures (g + (['"'] + k + ['"']) + "" + ":" + (" " + t + "")) + ("," + (" " + more))
         == g + ("\"" + k + "\"" + ": " + t + (", " + more))
  {
    var m := "\"" + k + "\"" + ": " + t;
    assert g + (['"'] + k + ['"']) + "" + ":" + (" " + t + "") == g + m;
  }

  // ---------------------------------------------------------------- the round trip

  /** The parser reads back the echo of what was written. */
  lemma ParseStream(v: Value, rest: string)
    requires NeverInvalid(v) && Follows(rest)
    ensures ParseValue(StreamText(v) + rest) == Parsed(true, Echo(v), rest)
  {
    hide ParseValue, StreamText, Echo, TreeText;
    StreamTreeExact(v);
    ParseTree([], StreamTree(v), rest);
    assert GapText([]) + (TreeText(StreamTree(v)) + rest) == StreamText(v) + rest;
  }

  /** Reading back what `operator<<` wrote gives the same value exactly when every part was set, no number
      needs more than six digits, and every character of every string and name is below 128. */
  lemma StreamRoundTripExactly(v: Value)
    ensures var r := ParseValue(StreamText(v));
            (r.ok && r.v == v) <==> Intact(v, STREAM_PRECISION) && AllSevenBit(v)
  {
    hide ParseValue, StreamText, Echo;
    ParsedIsSet(StreamText(v));
    IntactIsSet(v, STREAM_PRECISION);
    if NeverInvalid(v) {
      ParseStream(v, "");
      assert StreamText(v) + "" == StreamText(v);
      EchoExactly(v);
    }
  }

  /** A seventh digit is lost: 1234567 is written as 1.23457e+06. */
  lemma SeventhDigitIsLost()
    ensures var v := Num(Dec(1234567, 0)); var r := ParseValue(StreamText(v)); !(r.ok && r.v == v)
  {
    hide ParseValue, StreamText, NatText;
    SevenDigits();
    StreamRoundTripExactly(Num(Dec(1234567, 0)));
  }

  lemma SevenDigits()
    ensures Digits(Dec(1234567, 0)) > 6
  {
    hide NatText;
    assert Pow10(6) == 10 * Pow10(5) && Pow10(5) == 10 * Pow10(4) && Pow10(4) == 10 * Pow10(3);
    assert Pow10(3) == 10 * Pow10(2) && Pow10(2) == 10 * Pow10(1) && Pow10(1) == 10 * Pow10(0);
    NatTextLength(1234567, 6);
  }

  /** A byte of 128 or more does not come back as itself. */
  lemma HighByteIsLost(c: char)
    requires 128 <= c as int < 256
    ensures var v := Str([c]); var r := ParseValue(StreamText(v)); !(r.ok && r.v == v)
  {
    hide ParseValue, StreamText;
    assert c in [c];
    StreamRoundTripExactly(Str([c]));
  }
}
