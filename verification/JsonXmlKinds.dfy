/** Opening tags of the XML formats spelled out, and the kind of a value read off its element. */
module JsonXmlKinds {
  import opened Text
  import opened JsonNumber
  import opened JsonParser
  import opened JsonPrinter
  import opened JsonXml

  function KindOf(v: Value): Kind {
    match v
    case Null => NullKind case Invalid => NullKind case Bool(_) => BoolKind case Array(_) => ArrayKind
    case Str(_) => StringKind case Object(_) => ObjectKind case Num(_) => NumberKind
  }

  function KindByWord(word: string): Kind {
    if word == "json:boolean" then BoolKind else if word == "json:array" then ArrayKind
    else if word == "json:string" then StringKind else if word == "json:object" then ObjectKind
    else if word == "json:number" then NumberKind else NullKind
  }

  function KindByLetter(c: char): Kind {
    match c
    case 'b' => BoolKind case 'a' => ArrayKind case 's' => StringKind case 'o' => ObjectKind case 'n' => NumberKind
    case _ => NullKind
  }

  /** The kind of a value from its opening tag: the letter behind `j son="`; the element's name; the word in `type="..."`
      behind the name. */
  function ReadKind(format: Format, tag: string): Kind {
    match format
    case JXML => if |tag| > 7 then KindByLetter(tag[7]) else NullKind
    case JXMLex => if |tag| > 7 then KindByLetter(tag[7]) else NullKind
    case JSONx => KindByWord(NameOf(tag))
    case TaggedXML =>
      var more := Split(' ', tag);
      if more.Malformed? || !("type=\"" <= more.rest) then NullKind
      else
        var word := Split('"', more.rest[6..]);
        if word.Malformed? then NullKind else KindByWord(word.v)
  }

  lemma WordsDiffer(k: Kind)
    ensures KindByWord(KindName(k)) == k && |KindLetter(k)| == 1 && KindByLetter(KindLetter(k)[0]) == k
    ensures '"' !in KindName(k) && ' ' !in KindName(k)
  {
  }

  lemma KindInHead(format: Format, k: Kind, name: string, text: string, more: string)
    requires more == "" || more[0] == ' '
    ensures ReadKind(format, TagHead(format, k, name, text) + more) == k
  {
    WordsDiffer(k);
    match format
    case JXML => LetterInHead(format, k, name, text, more);
    case JXMLex => LetterInHead(format, k, name, text, more);
    case JSONx => NameInHead(k, name, text, more);
    case TaggedXML => TypeInHead(k, name, text, more);
  }

  lemma LetterInHead(format: Format, k: Kind, name: string, text: string, more: string)
    requires format.JXML? || format.JXMLex?
    ensures var h := TagHead(format, k, name, text) + more; |h| > 7 && KindLetter(k) != "" && h[7] == KindLetter(k)[0]
  {
    hide EscapeString, EscapeAttribute;
    WordsDiffer(k);
    HeadSplit(format, k, name, text);
    var l := KindLetter(k);
    if format.JXML? {
      var e := if name == "" then "" else ":" + EscapeString(name);
      assert ("j" + (" son=\"" + l + e + "\"") + more)[7] == l[0];
    } else {
      var e := if name == "" then "" else ":" + EscapeString(name) + "\" " + EscapeAttribute(name) + "=\"" + EscapeString(text);
      assert ("j" + (" son=\"" + l + e + "\"") + more)[7] == l[0];
    }
  }

  lemma NameInHead(k: Kind, name: string, text: string, more: string)
    requires more == "" || more[0] == ' '
    ensures NameOf(TagHead(JSONx, k, name, text) + more) == KindName(k)
  {
    hide EscapeString, KindName;
    WordsDiffer(k);
    var m := if name == "" then "" else " name=\"" + EscapeString(name) + "\"";
    Assoc(KindName(k), m, more);
    NameExact(KindName(k), m + more);
  }

  lemma TypeInHead(k: Kind, name: string, text: string, more: string)
    ensures ReadKind(TaggedXML, TagHead(TaggedXML, k, name, text) + more) == k
  {
    hide EscapeString, EscapeAttribute, KindName, KindByWord;
    WordsDiffer(k);
    var n := ElementName(TaggedXML, k, name);
    NameIsPlain(TaggedXML, k, name);
    var e := if name == "" then "" else " name=\"" + EscapeString(name) + "\"";
    var w := KindName(k) + (['"'] + (e + more));
    var h := TagHead(TaggedXML, k, name, text) + more;
    TypeConcat(n, KindName(k), e, more);
    SplitExact(' ', n, "type=\"" + w);
    assert ("type=\"" + w)[..6] == "type=\"" && ("type=\"" + w)[6..] == w;
    SplitExact('"', KindName(k), e + more);
  }

  lemma TypeConcat(n: string, w: string, e: string, more: string)
    ensures n + " type=\"" + w + "\"" + e + more == n + ([' '] + ("type=\"" + (w + (['"'] + (e + more)))))
  {
  }

  /** In every format the kind of a value can be read off its element. */
  lemma KindShows(format: Format, depth: nat, name: string, v: Value, attributes: string)
    requires PlainAttributes(attributes)
    ensures ReadKind(format, Shape(format, depth, name, v, attributes).tag) == KindOf(v)
  {
    hide TagHead, ReadKind, NumberText, EscapeTag, SortedKeys, Layout;
    var k := KindOf(v);
    var text := match v
      case Bool(b) => if b then "true" else "false"
      case Str(s) => EscapeTag(s)
      case Num(n) => NumberText(n, PRECISION)
      case _ => "";
    var shown := if format.JXMLex? then text else "";
    KindInHead(format, k, name, shown, "");
    KindInHead(format, k, name, "", " /");
    KindInHead(format, k, name, "", attributes);
    assert TagHead(format, k, name, shown) + "" == TagHead(format, k, name, shown);
  }

  // ---------------------------------------------------------------- tags spelled out

  lemma TypedConcat(a: string, e: string)
    ensures a + " type=\"" + "json:string" + "\"" + (" name=\"" + e + "\"") == a + " type=\"json:string\" name=\"" + e + "\""
    ensures a + " type=\"" + "json:string" + "\"" + "" == a + " type=\"json:string\""
  {
    assert " type=\"" + "json:string" + "\"" + " name=\"" == " type=\"json:string\" name=\"";
    assert " type=\"" + "json:string" + "\"" == " type=\"json:string\"";
  }

  lemma LetterConcat(e: string)
    ensures "j son=\"" + "s" + ":" + e + "\"" == "j son=\"s:" + e + "\""
    ensures "j son=\"" + "s" + "\"" == "j son=\"s\""
  {
  }

  lemma WordConcat(e: string)
    ensures "json:string" + (" name=\"" + e + "\"") == "json:string name=\"" + e + "\""
  {
  }

  /** The opening tag of a string element in the four formats, with and without a name. */
  lemma HeadsExactly(name: string, text: string)
    requires name != ""
    ensures TagHead(JXML, StringKind, name, text) == "j son=\"s:" + EscapeString(name) + "\""
    ensures TagHead(JXMLex, StringKind, name, text)
         == "j son=\"s:" + EscapeString(name) + "\" " + EscapeAttribute(name) + "=\"" + EscapeString(text) + "\""
    ensures TagHead(JSONx, StringKind, name, text) == "json:string name=\"" + EscapeString(name) + "\""
    ensures TagHead(TaggedXML, StringKind, name, text)
         == EscapeAttribute(name) + " type=\"json:string\" name=\"" + EscapeString(name) + "\""
  {
    hide EscapeString, EscapeAttribute;
    LetterConcat(EscapeString(name));
    WordConcat(EscapeString(name));
    TypedConcat(EscapeAttribute(name), EscapeString(name));
    assert "j son=\"" + "s" + ":" + EscapeString(name) + "\" " == "j son=\"s:" + EscapeString(name) + "\" ";
  }

  lemma UnnamedHeadsExactly(text: string)
    ensures TagHead(JXML, StringKind, "", text) == "j son=\"s\"" == TagHead(JXMLex, StringKind, "", text)
    ensures TagHead(JSONx, StringKind, "", text) == "json:string"
    ensures TagHead(TaggedXML, StringKind, "", text) == "JsonItem type=\"json:string\""
  {
    LetterConcat("");
    TypedConcat("JsonItem", "");
    assert "JsonItem" + " type=\"json:string\"" == "JsonItem type=\"json:string\"";
  }

  /** In an attribute's or element's name ASCII letters and digits stand for themselves, and everything else is `_`. */
  lemma {:induction false} AttributeExactly(s: string, i: nat)
    requires i < |s|
    ensures var c := s[i] as int;
            EscapeAttribute(s)[i] == if 48 <= c <= 57 || 65 <= c <= 90 || 97 <= c <= 122 then s[i] else '_'
  {
    if i > 0 {
      AttributeExactly(s[1..], i - 1);
    }
  }

  // ---------------------------------------------------------------- a document spelled out

  function Sample(k: string, s: string): Value { Object(map[k := Array([Str(s)])]) }

  lemma LeafLine(format: Format, s: string)
    ensures XmlTag(format, 2, "", Str(s), "")
         == "\t\t<" + TagHead(format, StringKind, "", if format.JXMLex? then EscapeTag(s) else "") + ">" + EscapeTag(s)
            + CloseTag(format, StringKind, "") + "\n"
  {
    hide TagHead, CloseTag, EscapeTag;
    assert Tabs(2) == "\t\t";
    var c, t, x := TagHead(format, StringKind, "", if format.JXMLex? then EscapeTag(s) else ""), EscapeTag(s), CloseTag(format, StringKind, "");
    assert "\t\t" + ("<" + c + "" + ">" + t + x) + "\n" == "\t\t<" + c + ">" + t + x + "\n";
  }

  lemma ArrayLines(format: Format, k: string, v: Value)
    ensures XmlTag(format, 1, k, Array([v]), "")
         == "\t<" + TagHead(format, ArrayKind, k, "") + ">\n" + XmlTag(format, 2, "", v, "") + "\t" + CloseTag(format, ArrayKind, k) + "\n"
  {
    OneElement(format, 2, v);
    hide TagHead, CloseTag, XmlElements;
    assert Tabs(1) == "\t";
    assert XmlBody(format, 1, k, Array([v]), "")
        == "<" + TagHead(format, ArrayKind, k, "") + "" + ">" + "\n" + XmlTag(format, 2, "", v, "") + "\t" + CloseTag(format, ArrayKind, k);
    ArrayConcat(TagHead(format, ArrayKind, k, ""), XmlTag(format, 2, "", v, ""), CloseTag(format, ArrayKind, k));
  }

  lemma ArrayConcat(b: string, l: string, y: string)
    ensures "\t" + ("<" + b + "" + ">" + "\n" + l + "\t" + y) + "\n" == "\t<" + b + ">\n" + l + "\t" + y + "\n"
  {
  }

  lemma ObjectLines(format: Format, o: Value, k: string, attributes: string)
    requires o.Object? && o.m.Keys == {k}
    ensures XmlTag(format, 0, "", o, attributes)
         == "<" + TagHead(format, ObjectKind, "", "") + attributes + ">\n" + XmlTag(format, 1, k, o.m[k], "")
            + CloseTag(format, ObjectKind, "") + "\n"
  {
    OneKey(k);
    OneMember(format, 1, o, k);
    hide TagHead, CloseTag, XmlMembers, SortedKeys;
    assert Tabs(0) == "";
    var l := XmlTag(format, 1, k, o.m[k], "");
    assert XmlBody(format, 0, "", o, attributes)
        == "<" + TagHead(format, ObjectKind, "", "") + attributes + ">" + "\n" + l + "" + CloseTag(format, ObjectKind, "");
    ObjectConcat(TagHead(format, ObjectKind, "", ""), attributes, l, CloseTag(format, ObjectKind, ""));
  }

  lemma ObjectConcat(a: string, at: string, l: string, z: string)
    ensures "" + ("<" + a + at + ">" + "\n" + l + "" + z) + "\n" == "<" + a + at + ">\n" + l + z + "\n"
  {
  }

  /** An element to a line, indented by tabs, the closing tag of a container on a line of its own; a scalar on one line. */
  lemma XmlSampleText(format: Format, header: string, attributes: string, k: string, s: string)
    ensures Xml(format, header, attributes, Sample(k, s))
         == header + ("<" + TagHead(format, ObjectKind, "", "") + attributes + ">\n"
                      + ("\t<" + TagHead(format, ArrayKind, k, "") + ">\n"
                         + ("\t\t<" + TagHead(format, StringKind, "", if format.JXMLex? then EscapeTag(s) else "") + ">"
                            + EscapeTag(s) + CloseTag(format, StringKind, "") + "\n")
                         + "\t" + CloseTag(format, ArrayKind, k) + "\n")
                      + CloseTag(format, ObjectKind, "") + "\n")
  {
    hide TagHead, CloseTag, EscapeTag;
    var o := Sample(k, s);
    assert o.m.Keys == {k} && o.m[k] == Array([Str(s)]);
    ObjectLines(format, o, k, attributes);
    ArrayLines(format, k, Str(s));
    LeafLine(format, s);
  }

  lemma OneElement(format: Format, depth: nat, v: Value)
    ensures XmlElements(format, depth, [v]) == XmlTag(format, depth, "", v)
  {
    hide XmlTag;
    assert [v][1..] == [];
    assert XmlElements(format, depth, []) == "";
  }

  lemma OneMember(format: Format, depth: nat, o: Value, k: string)
    requires o.Object? && k in o.m
    ensures XmlMembers(format, depth, o, [k]) == XmlTag(format, depth, k, o.m[k])
  {
    hide XmlTag;
    assert [k][1..] == [];
    assert XmlMembers(format, depth, o, []) == "";
  }

  // ---------------------------------------------------------------- contents

  /** What an element holds: the word of a boolean, a string behind its entities, the numeral of a number to nineteen digits,
      nothing for null, one child for every element or member. */
  lemma ContentShows(format: Format, depth: nat, name: string, v: Value, attributes: string)
    ensures var e := Shape(format, depth, name, v, attributes);
            match v
            case Bool(b) => e.kids == [] && e.text == if b then "true" else "false"
            case Str(s) => e.kids == [] && Unescape(e.text) == s
            case Num(n) =>
              && e.kids == [] && ValidLiteral(TakeLiteral(e.text).0) && TakeLiteral(e.text).1 == ""
              && LiteralValue(TakeLiteral(e.text).0) == Rounded(n, 19)
            case Array(vs) =>
              |e.kids| == |vs| && forall i :: 0 <= i < |vs| ==> e.kids[i] == Shape(format, depth + 1, "", vs[i], "")
            case Object(m) =>
              var keys := SortedKeys(m.Keys);
              |e.kids| == |keys| && forall i :: 0 <= i < |keys| ==> e.kids[i] == Shape(format, depth + 1, keys[i], m[keys[i]], "")
            case _ => e == Element(TagHead(format, NullKind, name, "") + " /", "", [])
  {
    hide TagHead, NumberText, EscapeTag, SortedKeys, Layout, ValidLiteral, LiteralValue, TakeLiteral;
    match v
    case Str(s) => TextExact(s);
    case Num(n) =>
      NumberRoundTrip(n, 19, "");
      assert NumberText(n, 19) + "" == NumberText(n, 19);
    case Array(vs) => KidsInOrder(format, depth + 1, vs);
    case Object(m) => MembersInOrder(format, depth + 1, v, SortedKeys(m.Keys));
    case _ =>
  }

  lemma {:induction false} KidsInOrder(format: Format, depth: nat, vs: seq<Value>)
    ensures forall i :: 0 <= i < |vs| ==> ElementShapes(format, depth, vs)[i] == Shape(format, depth, "", vs[i], "")
    decreases |vs|
  {
    hide Shape;
    if vs != [] { KidsInOrder(format, depth, vs[1..]); }
  }

  lemma {:induction false} MembersInOrder(format: Format, depth: nat, o: Value, keys: seq<string>)
    requires o.Object? && forall k :: k in keys ==> k in o.m
    ensures forall i :: 0 <= i < |keys| ==> MemberShapes(format, depth, o, keys)[i] == Shape(format, depth, keys[i], o.m[keys[i]], "")
    decreases |keys|
  {
    hide Shape;
    if keys != [] { MembersInOrder(format, depth, o, keys[1..]); }
  }
}
