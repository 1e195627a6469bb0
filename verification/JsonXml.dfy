/** The four XML printers, read back by a small reference reader that looks only at angle brackets. */
module JsonXml {
  import opened Text
  import opened JsonNumber
  import opened JsonParser
  import opened JsonPrinter

  // ---------------------------------------------------------------- the printers

  datatype Format = JSONx | JXML | JXMLex | TaggedXML

  datatype Kind = NullKind | BoolKind | ArrayKind | StringKind | ObjectKind | NumberKind

  predicate IsAlphanumeric(c: char) { IsDigit(c) || 'a' <= c <= 'z' || 'A' <= c <= 'Z' }

  function EscapeAttribute(s: string): (r: string)
    ensures |r| == |s|
    ensures forall c :: c in r ==> IsAlphanumeric(c) || c == '_'
  {
    if s == "" then "" else [if IsAlphanumeric(s[0]) then s[0] else '_'] + EscapeAttribute(s[1..])
  }

  function EscapeMarkup(c: char): string {
    match c
    case '<' => "&lt;"
    case '>' => "&gt;"
    case '&' => "&amp;"
    case _ => [c]
  }

  function EscapeTag(s: string): string {
    if s == "" then "" else EscapeMarkup(s[0]) + EscapeTag(s[1..])
  }

  function KindLetter(k: Kind): string {
    match k
    case NullKind => "0" case BoolKind => "b" case ArrayKind => "a"
    case StringKind => "s" case ObjectKind => "o" case NumberKind => "n"
  }

  function KindName(k: Kind): string {
    match k
    case NullKind => "json:null" case BoolKind => "json:boolean" case ArrayKind => "json:array"
    case StringKind => "json:string" case ObjectKind => "json:object" case NumberKind => "json:number"
  }

  /** The part of the opening tag before the caller's attributes. */
  function TagHead(format: Format, k: Kind, name: string, text: string): string {
    match format
    case JXML =>
      if name == "" then "j son=\"" + KindLetter(k) + "\""
      else "j son=\"" + KindLetter(k) + ":" + EscapeString(name) + "\""
    case JXMLex =>
      if name == "" then "j son=\"" + KindLetter(k) + "\""
      else "j son=\"" + KindLetter(k) + ":" + EscapeString(name) + "\" "
           + EscapeAttribute(name) + "=\"" + EscapeString(text) + "\""
    case JSONx =>
      KindName(k) + (if name == "" then "" else " name=\"" + EscapeString(name) + "\"")
    case TaggedXML =>
      (if name == "" then "JsonItem" else EscapeAttribute(name)) + " type=\"" + KindName(k) + "\""
      + (if name == "" then "" else " name=\"" + EscapeString(name) + "\"")
  }

  function OpenTag(format: Format, k: Kind, name: string, attributes: string, text: string): string {
    "<" + TagHead(format, k, name, text) + attributes + ">"
  }

  function CloseTag(format: Format, k: Kind, name: string): string {
    match format
    case JXML => "</j>"
    case JXMLex => "</j>"
    case JSONx => "</" + KindName(k) + ">"
    case TaggedXML => "</" + (if name == "" then "JsonItem" else EscapeAttribute(name)) + ">"
  }

  /** Scalars repeat their text as an attribute in one format only. */
  function Leaf(format: Format, k: Kind, name: string, text: string): string {
    OpenTag(format, k, name, "", if format.JXMLex? then text else "") + text + CloseTag(format, k, name)
  }

  ghost function XmlTag(format: Format, depth: nat, name: string, v: Value, attributes: string := ""): string
    decreases v, 1
  {
    Tabs(depth) + XmlBody(format, depth, name, v, attributes) + "\n"
  }

  ghost function XmlBody(format: Format, depth: nat, name: string, v: Value, attributes: string): string
    decreases v, 0
  {
    match v
    case Null => OpenTag(format, NullKind, name, " /", "")
    case Invalid => OpenTag(format, NullKind, name, " /", "")
    case Bool(b) => Leaf(format, BoolKind, name, if b then "true" else "false")
    case Str(s) => Leaf(format, StringKind, name, EscapeTag(s))
    case Num(n) => Leaf(format, NumberKind, name, NumberText(n, PRECISION))
    case Array(vs) =>
      OpenTag(format, ArrayKind, name, attributes, "") + "\n" + XmlElements(format, depth + 1, vs)
      + Tabs(depth) + CloseTag(format, ArrayKind, name)
    case Object(m) =>
      OpenTag(format, ObjectKind, name, attributes, "") + "\n" + XmlMembers(format, depth + 1, v, SortedKeys(m.Keys))
      + Tabs(depth) + CloseTag(format, ObjectKind, name)
  }

  ghost function XmlElements(format: Format, depth: nat, vs: seq<Value>): string
    decreases vs, 0
  {
    if vs == [] then "" else XmlTag(format, depth, "", vs[0]) + XmlElements(format, depth, vs[1..])
  }

  ghost function XmlMembers(format: Format, depth: nat, o: Value, keys: seq<string>): string
    requires o.Object? && forall k :: k in keys ==> k in o.m
    decreases o, 0, 0, |keys|
  {
    if keys == [] then ""
    else
      assert keys[0] in o.m;
      XmlTag(format, depth, keys[0], o.m[keys[0]]) + XmlMembers(format, depth, o, keys[1..])
  }

  // ---------------------------------------------------------------- the reference reader

  /** An element: all of its opening tag between the brackets, its own character data, its child elements. */
  datatype Element = Element(tag: string, text: string, kids: seq<Element>)

  datatype Read<+T> = Read(v: T, rest: string) | Malformed

  /** Splits at the first occurrence of `c`, dropping it. */
  function Split(c: char, s: string): (r: Read<string>)
    ensures r.Read? ==> |r.rest| < |s| && s == r.v + [c] + r.rest && c !in r.v
  {
    if s == "" then Malformed
    else if s[0] == c then Read("", s[1..])
    else
      var t := Split(c, s[1..]);
      if t.Malformed? then Malformed
      else
        assert s == [s[0]] + s[1..];
        Read([s[0]] + t.v, t.rest)
  }

  /** A tag's name ends at its first blank. */
  function NameOf(tag: string): string {
    if tag == "" || tag[0] == ' ' then "" else [tag[0]] + NameOf(tag[1..])
  }

  /** One element, from its opening bracket through the matching closing tag. */
  function ReadElement(s: string): (r: Read<Element>)
    ensures r.Read? ==> |r.rest| < |s|
    decreases |s|, 0
  {
    if s == "" || s[0] != '<' then Malformed
    else
      var open := Split('>', s[1..]);
      if open.Malformed? || open.v == "" || open.v[0] == '/' || '<' in open.v then Malformed
      else if open.v[|open.v| - 1] == '/' then Read(Element(open.v, "", []), open.rest)
      else
        var content := ReadContent(open.rest, NameOf(open.v));
        if content.Malformed? then Malformed else Read(Element(open.v, content.v.0, content.v.1), content.rest)
  }

  /** Character data and child elements up to the closing tag, whose name must match. */
  function ReadContent(s: string, name: string): (r: Read<(string, seq<Element>)>)
    ensures r.Read? ==> |r.rest| < |s|
    decreases |s|, 1
  {
    if s == "" || s[0] == '>' then Malformed
    else if s[0] != '<' then
      var more := ReadContent(s[1..], name);
      if more.Malformed? then Malformed else Read(([s[0]] + more.v.0, more.v.1), more.rest)
    else if |s| >= 2 && s[1] == '/' then
      var close := Split('>', s[2..]);
      if close.Malformed? || close.v != name then Malformed else Read(("", []), close.rest)
    else
      var kid := ReadElement(s);
      if kid.Malformed? then Malformed
      else
        var more := ReadContent(kid.rest, name);
        if more.Malformed? then Malformed else Read((more.v.0, [kid.v] + more.v.1), more.rest)
  }

  // ---------------------------------------------------------------- the shape of the value

  predicate NoBrackets(s: string) { '<' !in s && '>' !in s }

  ghost predicate PlainNames(v: Value) {
    match v
    case Array(vs) => forall e :: e in vs ==> PlainNames(e)
    case Object(m) => forall k :: k in m ==> NoBrackets(k) && PlainNames(m[k])
    case _ => true
  }

  function Repeat(n: nat, s: string): string { if n == 0 then "" else s + Repeat(n - 1, s) }

  /** The blanks a container writes around its children. */
  function Layout(depth: nat, count: nat): string { "\n" + Repeat(count, Tabs(depth + 1) + "\n") + Tabs(depth) }

  function LeafShape(format: Format, k: Kind, name: string, text: string): Element {
    Element(TagHead(format, k, name, if format.JXMLex? then text else ""), text, [])
  }

  ghost function Shape(format: Format, depth: nat, name: string, v: Value, attributes: string): Element
    decreases v, 0
  {
    match v
    case Null => Element(TagHead(format, NullKind, name, "") + " /", "", [])
    case Invalid => Element(TagHead(format, NullKind, name, "") + " /", "", [])
    case Bool(b) => LeafShape(format, BoolKind, name, if b then "true" else "false")
    case Str(s) => LeafShape(format, StringKind, name, EscapeTag(s))
    case Num(n) => LeafShape(format, NumberKind, name, NumberText(n, PRECISION))
    case Array(vs) =>
      Element(TagHead(format, ArrayKind, name, "") + attributes, Layout(depth, |vs|), ElementShapes(format, depth + 1, vs))
    case Object(m) =>
      var keys := SortedKeys(m.Keys);
      Element(TagHead(format, ObjectKind, name, "") + attributes, Layout(depth, |keys|), MemberShapes(format, depth + 1, v, keys))
  }

  ghost function ElementShapes(format: Format, depth: nat, vs: seq<Value>): (r: seq<Element>)
    ensures |r| == |vs|
    decreases vs, 0
  {
    if vs == [] then [] else [Shape(format, depth, "", vs[0], "")] + ElementShapes(format, depth, vs[1..])
  }

  ghost function MemberShapes(format: Format, depth: nat, o: Value, keys: seq<string>): (r: seq<Element>)
    requires o.Object? && forall k :: k in keys ==> k in o.m
    ensures |r| == |keys|
    decreases o, 0, |keys|
  {
    if keys == [] then []
    else
      assert keys[0] in o.m;
      [Shape(format, depth, keys[0], o.m[keys[0]], "")] + MemberShapes(format, depth, o, keys[1..])
  }

  // ---------------------------------------------------------------- tags

  lemma {:induction false} SplitExact(c: char, a: string, rest: string)
    requires c !in a
    ensures Split(c, a + ([c] + rest)) == Read(a, rest)
  {
    var s := a + ([c] + rest);
    if a == "" {
      assert s == [c] + rest;
    } else {
      assert s[0] == a[0] && a[0] in a;
      assert s[1..] == a[1..] + ([c] + rest);
      SplitExact(c, a[1..], rest);
      assert [a[0]] + a[1..] == a;
    }
  }

  lemma {:induction false} NameExact(name: string, more: string)
    requires ' ' !in name && (more == "" || more[0] == ' ')
    ensures NameOf(name + more) == name
  {
    if name == "" {
      assert name + more == more;
    } else {
      assert name[0] in name;
      assert (name + more)[1..] == name[1..] + more;
      NameExact(name[1..], more);
    }
  }

  lemma {:induction false} EscapeStringPlain(s: string)
    requires NoBrackets(s)
    ensures NoBrackets(EscapeString(s))
  {
    if s != "" {
      assert s[0] in s;
      EscapeStringPlain(s[1..]);
      assert NoBrackets(EscapeChar(s[0]));
    }
  }

  lemma {:induction false} EscapeTagPlain(s: string)
    ensures NoBrackets(EscapeTag(s))
  {
    if s != "" {
      EscapeTagPlain(s[1..]);
      assert NoBrackets(EscapeMarkup(s[0]));
    }
  }

  function ElementName(format: Format, k: Kind, name: string): string {
    match format
    case JXML => "j"
    case JXMLex => "j"
    case JSONx => KindName(k)
    case TaggedXML => if name == "" then "JsonItem" else EscapeAttribute(name)
  }

  lemma CloseTagName(format: Format, k: Kind, name: string)
    ensures CloseTag(format, k, name) == "</" + ElementName(format, k, name) + ">"
  {
  }

  /** What an opening tag holds after its name. */
  function HeadMore(format: Format, k: Kind, name: string, text: string): string {
    match format
    case JXML => " son=\"" + KindLetter(k) + (if name == "" then "" else ":" + EscapeString(name)) + "\""
    case JXMLex =>
      " son=\"" + KindLetter(k) + (if name == "" then "" else
        ":" + EscapeString(name) + "\" " + EscapeAttribute(name) + "=\"" + EscapeString(text)) + "\""
    case JSONx => if name == "" then "" else " name=\"" + EscapeString(name) + "\""
    case TaggedXML =>
      " type=\"" + KindName(k) + (if name == "" then "" else "\"" + (" name=\"" + EscapeString(name))) + "\""
  }

  lemma HeadSplit(format: Format, k: Kind, name: string, text: string)
    ensures TagHead(format, k, name, text) == ElementName(format, k, name) + HeadMore(format, k, name, text)
  {
    hide EscapeString, EscapeAttribute, KindLetter, KindName;
    match format
    case JXML => JxmlHead(KindLetter(k), EscapeString(name));
    case JXMLex => JxmlexHead(KindLetter(k), EscapeString(name), EscapeAttribute(name), EscapeString(text));
      JxmlHead(KindLetter(k), "");
    case JSONx =>
    case TaggedXML =>
  }

  lemma JxmlHead(l: string, e: string)
    ensures "j son=\"" + l + "\"" == "j" + (" son=\"" + l + "" + "\"")
    ensures "j son=\"" + l + ":" + e + "\"" == "j" + (" son=\"" + l + (":" + e) + "\"")
  {
  }

  lemma JxmlexHead(l: string, e: string, a: string, t: string)
    ensures "j son=\"" + l + ":" + e + "\" " + a + "=\"" + t + "\""
         == "j" + (" son=\"" + l + (":" + e + "\" " + a + "=\"" + t) + "\"")
  {
    var m := ":" + e + "\" " + a + "=\"" + t;
    assert "j son=\"" + l + ":" + e + "\" " + a + "=\"" + t + "\"" == "j son=\"" + l + m + "\"";
  }

  lemma NameIsPlain(format: Format, k: Kind, name: string)
    ensures var n := ElementName(format, k, name); n != "" && n[0] != '/' && n[|n| - 1] != '/' && ' ' !in n && NoBrackets(n)
  {
    var n := ElementName(format, k, name);
    if format.TaggedXML? && name != "" {
      assert n[0] in n && n[|n| - 1] in n;
    }
  }

  lemma PlainPair(a: string, b: string)
    requires NoBrackets(a) && NoBrackets(b)
    ensures NoBrackets(a + b)
  {
  }

  lemma MoreIsPlain(format: Format, k: Kind, name: string, text: string)
    requires NoBrackets(name) && NoBrackets(text)
    ensures var m := HeadMore(format, k, name, text);
            NoBrackets(m) && (m != "" ==> m[0] == ' ' && m[|m| - 1] == '"')
  {
    hide EscapeString, EscapeAttribute, NoBrackets, KindLetter, KindName;
    EscapeStringPlain(name);
    EscapeStringPlain(text);
    LiteralsPlain(k, name);
    match format
    case JXML =>
      var e := if name == "" then "" else ":" + EscapeString(name);
      PlainPair(":", EscapeString(name));
      PlainPair(" son=\"", KindLetter(k));
      PlainPair(" son=\"" + KindLetter(k), e);
      PlainPair(" son=\"" + KindLetter(k) + e, "\"");
    case JXMLex =>
      PlainPair(":", EscapeString(name));
      PlainPair(":" + EscapeString(name), "\" ");
      PlainPair(":" + EscapeString(name) + "\" ", EscapeAttribute(name));
      PlainPair(":" + EscapeString(name) + "\" " + EscapeAttribute(name), "=\"");
      PlainPair(":" + EscapeString(name) + "\" " + EscapeAttribute(name) + "=\"", EscapeString(text));
      var e := if name == "" then "" else ":" + EscapeString(name) + "\" " + EscapeAttribute(name) + "=\"" + EscapeString(text);
      PlainPair(" son=\"", KindLetter(k));
      PlainPair(" son=\"" + KindLetter(k), e);
      PlainPair(" son=\"" + KindLetter(k) + e, "\"");
    case JSONx =>
      PlainPair(" name=\"", EscapeString(name));
      PlainPair(" name=\"" + EscapeString(name), "\"");
    case TaggedXML =>
      PlainPair(" name=\"", EscapeString(name));
      PlainPair("\"", " name=\"" + EscapeString(name));
      var e := if name == "" then "" else "\"" + (" name=\"" + EscapeString(name));
      PlainPair(" type=\"", KindName(k));
      PlainPair(" type=\"" + KindName(k), e);
      PlainPair(" type=\"" + KindName(k) + e, "\"");
  }

  lemma LiteralsPlain(k: Kind, name: string)
    ensures NoBrackets(":") && NoBrackets(" son=\"") && NoBrackets("\"") && NoBrackets("\" ") && NoBrackets("=\"")
    ensures NoBrackets(" name=\"") && NoBrackets(" type=\"") && NoBrackets("")
    ensures NoBrackets(KindLetter(k)) && NoBrackets(KindName(k)) && NoBrackets(EscapeAttribute(name))
  {
    assert forall c :: c in EscapeAttribute(name) ==> c != '<' && c != '>';
  }

  /** An opening tag has no bracket inside, is no closing tag, and begins with the name its closing tag repeats. */
  lemma HeadExact(format: Format, k: Kind, name: string, text: string)
    requires NoBrackets(name) && NoBrackets(text)
    ensures var h := TagHead(format, k, name, text);
            && NoBrackets(h) && h != "" && h[0] != '/' && h[|h| - 1] != '/'
            && NameOf(h) == ElementName(format, k, name)
  {
    hide TagHead, HeadMore, ElementName, EscapeAttribute, EscapeString;
    HeadSplit(format, k, name, text);
    NameIsPlain(format, k, name);
    MoreIsPlain(format, k, name, text);
    NameExact(ElementName(format, k, name), HeadMore(format, k, name, text));
  }

  /** Attributes the caller may add to the root: a blank, then no bracket and no final slash. */
  predicate PlainAttributes(a: string) { NoBrackets(a) && (a != "" ==> a[0] == ' ' && a[|a| - 1] != '/') }

  lemma FullHead(format: Format, k: Kind, name: string, text: string, attributes: string)
    requires NoBrackets(name) && NoBrackets(text) && PlainAttributes(attributes)
    ensures var h := TagHead(format, k, name, text) + attributes;
            && NoBrackets(h) && h != "" && h[0] != '/' && h[|h| - 1] != '/'
            && NameOf(h) == ElementName(format, k, name)
  {
    hide TagHead, HeadMore, ElementName, EscapeAttribute, EscapeString;
    HeadExact(format, k, name, text);
    HeadSplit(format, k, name, text);
    NameIsPlain(format, k, name);
    MoreIsPlain(format, k, name, text);
    Assoc(ElementName(format, k, name), HeadMore(format, k, name, text), attributes);
    NameExact(ElementName(format, k, name), HeadMore(format, k, name, text) + attributes);
  }

  // ---------------------------------------------------------------- reading back

  /** Reading `<head>`, content, `</name>`. */
  lemma ReadOpen(head: string, content: string, text: string, kids: seq<Element>, rest: string)
    requires NoBrackets(head) && head != "" && head[0] != '/' && head[|head| - 1] != '/'
    requires ReadContent(content, NameOf(head)) == Read((text, kids), rest)
    ensures ReadElement("<" + head + ">" + content) == Read(Element(head, text, kids), rest)
  {
    var s := "<" + head + ">" + content;
    assert s[1..] == head + (['>'] + content);
    SplitExact('>', head, content);
  }

  lemma ReadEmpty(head: string, rest: string)
    requires NoBrackets(head) && head != "" && head[0] != '/'
    ensures ReadElement("<" + (head + " /") + ">" + rest) == Read(Element(head + " /", "", []), rest)
  {
    var h := head + " /";
    var s := "<" + h + ">" + rest;
    assert s[1..] == h + (['>'] + rest);
    SplitExact('>', h, rest);
  }

  lemma ReadClose(name: string, rest: string)
    requires NoBrackets(name)
    ensures ReadContent("</" + name + ">" + rest, name) == Read(("", []), rest)
  {
    var s := "</" + name + ">" + rest;
    assert s[2..] == name + (['>'] + rest);
    SplitExact('>', name, rest);
  }

  /** Character data without brackets is passed over and recorded. */
  lemma {:induction false} ReadText(t: string, s: string, name: string)
    requires NoBrackets(t)
    ensures var r := ReadContent(s, name);
            ReadContent(t + s, name) == if r.Malformed? then Malformed else Read((t + r.v.0, r.v.1), r.rest)
  {
    if t == "" {
      assert t + s == s;
      assert ReadContent(s, name).Read? ==> "" + ReadContent(s, name).v.0 == ReadContent(s, name).v.0;
    } else {
      assert t[0] in t && (t + s)[0] == t[0] && (t + s)[1..] == t[1..] + s;
      ReadText(t[1..], s, name);
      assert t == [t[0]] + t[1..];
      var r := ReadContent(s, name);
      if r.Read? { Assoc([t[0]], t[1..], r.v.0); }
    }
  }

  lemma LeafExact(format: Format, k: Kind, name: string, text: string, rest: string)
    requires NoBrackets(name) && NoBrackets(text)
    ensures ReadElement(Leaf(format, k, name, text) + rest) == Read(LeafShape(format, k, name, text), rest)
  {
    hide TagHead, ElementName, CloseTag, ReadContent, ReadElement;
    var extra := if format.JXMLex? then text else "";
    var n := ElementName(format, k, name);
    FullHead(format, k, name, extra, "");
    NameIsPlain(format, k, name);
    CloseTagName(format, k, name);
    ReadClose(n, rest);
    ReadText(text, "</" + n + ">" + rest, n);
    var head := TagHead(format, k, name, extra);
    assert head + "" == head && text + "" == text;
    ReadOpen(head, text + ("</" + n + ">" + rest), text, [], rest);
    LeafConcat(head, text, CloseTag(format, k, name), rest);
  }

  lemma LeafConcat(head: string, text: string, close: string, rest: string)
    ensures "<" + head + "" + ">" + text + close + rest == "<" + head + ">" + (text + (close + rest))
  {
  }

  lemma ContainerOpen(format: Format, k: Kind, name: string, attributes: string, inner: string, depth: nat,
                      text: string, kids: seq<Element>, rest: string)
    requires NoBrackets(name) && PlainAttributes(attributes)
    requires var n := ElementName(format, k, name);
             ReadContent(inner + (Tabs(depth) + ("</" + n + ">" + rest)), n) == Read((text, kids), rest)
    ensures ReadElement(OpenTag(format, k, name, attributes, "") + "\n" + inner + Tabs(depth) + CloseTag(format, k, name) + rest)
         == Read(Element(TagHead(format, k, name, "") + attributes, "\n" + text, kids), rest)
  {
    hide TagHead, ElementName, CloseTag, ReadContent, ReadElement, Tabs;
    var n := ElementName(format, k, name);
    FullHead(format, k, name, "", attributes);
    CloseTagName(format, k, name);
    var body := inner + (Tabs(depth) + ("</" + n + ">" + rest));
    ReadText("\n", body, n);
    ReadOpen(TagHead(format, k, name, "") + attributes, "\n" + body, "\n" + text, kids, rest);
    ContainerConcat(TagHead(format, k, name, ""), attributes, inner, Tabs(depth), CloseTag(format, k, name), rest);
  }

  lemma ContainerConcat(head: string, a: string, inner: string, tabs: string, close: string, rest: string)
    ensures "<" + head + a + ">" + "\n" + inner + tabs + close + rest
         == "<" + (head + a) + ">" + ("\n" + (inner + (tabs + (close + rest))))
  {
    assert "<" + head + a + ">" == "<" + (head + a) + ">";
  }

  lemma TabsPlain(depth: nat)
    ensures NoBrackets(Tabs(depth)) && NoBrackets("\n") && NoBrackets(Tabs(depth) + "\n")
  {
  }

  /** Each printer writes one balanced element, whatever follows it, and its tree of elements has the shape of
      the value: the same children in the same order, every opening tag as written, string text only as character
      data. */
  lemma {:induction false} ReadBody(format: Format, depth: nat, name: string, v: Value, attributes: string, rest: string)
    requires PlainNames(v) && NoBrackets(name) && PlainAttributes(attributes)
    ensures ReadElement(XmlBody(format, depth, name, v, attributes) + rest)
         == Read(Shape(format, depth, name, v, attributes), rest)
    decreases v, 2
  {
    hide TagHead, ReadElement, ReadContent, Leaf, LeafShape, XmlElements, XmlMembers, EscapeTag, NumberText, SortedKeys, Layout;
    match v
    case Null => NullExact(format, name, rest);
    case Invalid => NullExact(format, name, rest);
    case Bool(b) => LeafExact(format, BoolKind, name, if b then "true" else "false", rest);
    case Str(s) =>
      EscapeTagPlain(s);
      LeafExact(format, StringKind, name, EscapeTag(s), rest);
    case Num(n) =>
      NumberPlain(n);
      LeafExact(format, NumberKind, name, NumberText(n, PRECISION), rest);
    case Array(vs) =>
      var n := ElementName(format, ArrayKind, name);
      var end := Tabs(depth) + ("</" + n + ">" + rest);
      ContainerEnd(format, ArrayKind, name, depth, rest);
      ReadElements(format, depth + 1, vs, end, n, Tabs(depth), rest);
      ContainerOpen(format, ArrayKind, name, attributes, XmlElements(format, depth + 1, vs), depth,
                    Repeat(|vs|, Tabs(depth + 1) + "\n") + Tabs(depth), ElementShapes(format, depth + 1, vs), rest);
      LayoutText(depth, |vs|);
    case Object(m) =>
      var keys := SortedKeys(m.Keys);
      var n := ElementName(format, ObjectKind, name);
      var end := Tabs(depth) + ("</" + n + ">" + rest);
      ContainerEnd(format, ObjectKind, name, depth, rest);
      ReadMembers(format, depth + 1, v, keys, end, n, Tabs(depth), rest);
      ContainerOpen(format, ObjectKind, name, attributes, XmlMembers(format, depth + 1, v, keys), depth,
                    Repeat(|keys|, Tabs(depth + 1) + "\n") + Tabs(depth), MemberShapes(format, depth + 1, v, keys), rest);
      LayoutText(depth, |keys|);
  }

  lemma LayoutText(depth: nat, count: nat)
    ensures "\n" + (Repeat(count, Tabs(depth + 1) + "\n") + Tabs(depth)) == Layout(depth, count)
  {
    Assoc("\n", Repeat(count, Tabs(depth + 1) + "\n"), Tabs(depth));
  }

  lemma NumberPlain(n: Number)
    ensures NoBrackets(NumberText(n, PRECISION))
  {
    var l := GeneralLiteral(Rounded(n, PRECISION), PRECISION);
    GeneralLiteralValue(Rounded(n, PRECISION), PRECISION);
    LiteralPlain(l);
  }

  lemma LiteralPlain(l: Literal)
    requires ValidLiteral(l)
    ensures NoBrackets(LiteralText(l))
  {
    assert forall c :: IsDigit(c) ==> c != '<' && c != '>';
    assert NoBrackets(SignText(l.sign));
    assert NoBrackets(ExponentText(l.exponent)) by {
      if l.exponent.Exponent? {
        assert NoBrackets([l.exponent.mark]);
        PlainPair([l.exponent.mark], SignText(l.exponent.sign));
        PlainPair([l.exponent.mark] + SignText(l.exponent.sign), l.exponent.digits);
      }
    }
    var p := if l.point then "." else "";
    PlainPair(SignText(l.sign), l.whole);
    PlainPair(SignText(l.sign) + l.whole, p);
    PlainPair(SignText(l.sign) + l.whole + p, l.fraction);
    PlainPair(SignText(l.sign) + l.whole + p + l.fraction, ExponentText(l.exponent));
  }

  lemma NullExact(format: Format, name: string, rest: string)
    requires NoBrackets(name)
    ensures ReadElement(OpenTag(format, NullKind, name, " /", "") + rest)
         == Read(Element(TagHead(format, NullKind, name, "") + " /", "", []), rest)
  {
    hide TagHead, ReadElement;
    var h := TagHead(format, NullKind, name, "");
    HeadExact(format, NullKind, name, "");
    ReadEmpty(h, rest);
    assert "<" + h + " /" + ">" + rest == "<" + (h + " /") + ">" + rest;
  }

  /** The indentation and closing tag that end a container. */
  lemma ContainerEnd(format: Format, k: Kind, name: string, depth: nat, rest: string)
    requires NoBrackets(name)
    ensures var n := ElementName(format, k, name);
            ReadContent(Tabs(depth) + ("</" + n + ">" + rest), n) == Read((Tabs(depth), []), rest)
  {
    hide ReadContent, Tabs, ElementName;
    var n := ElementName(format, k, name);
    TabsPlain(depth);
    NameIsPlain(format, k, name);
    ReadClose(n, rest);
    ReadText(Tabs(depth), "</" + n + ">" + rest, n);
    assert Tabs(depth) + "" == Tabs(depth);
  }

  /** One child, on a line of its own, in front of content already read. */
  lemma ReadChild(depth: nat, body: string, e: Element, more: string, name: string, text: string, kids: seq<Element>, rest: string)
    requires body != "" && body[0] == '<' && (|body| >= 2 ==> body[1] != '/')
    requires |body| >= 2
    requires ReadElement(body + ("\n" + more)) == Read(e, "\n" + more)
    requires ReadContent(more, name) == Read((text, kids), rest)
    ensures ReadContent(Tabs(depth) + body + "\n" + more, name)
         == Read((Tabs(depth) + "\n" + text, [e] + kids), rest)
  {
    hide ReadElement, Tabs;
    TabsPlain(depth);
    ReadText("\n", more, name);
    var s := body + ("\n" + more);
    assert s[0] == '<' && s[1] == body[1];
    assert ReadContent(s, name) == Read(("\n" + text, [e] + kids), rest);
    ReadText(Tabs(depth), s, name);
    assert Tabs(depth) + body + "\n" + more == Tabs(depth) + s;
    Assoc(Tabs(depth), "\n", text);
  }

  /** Every element's text starts with an opening tag. */
  lemma BodyStart(format: Format, depth: nat, name: string, v: Value, attributes: string)
    requires NoBrackets(name)
    ensures var b := XmlBody(format, depth, name, v, attributes); |b| >= 2 && b[0] == '<' && b[1] != '/'
  {
    hide TagHead, CloseTag, EscapeTag, NumberText, SortedKeys, XmlElements, XmlMembers;
    var k := match v
      case Null => NullKind case Invalid => NullKind case Bool(_) => BoolKind case Str(_) => StringKind
      case Num(_) => NumberKind case Array(_) => ArrayKind case Object(_) => ObjectKind;
    EveryHead(format, k, name);
  }

  lemma EveryHead(format: Format, k: Kind, name: string)
    ensures forall text :: var h := TagHead(format, k, name, text); h != "" && h[0] != '/'
  {
    hide TagHead, ElementName, HeadMore;
    NameIsPlain(format, k, name);
    forall text ensures var h := TagHead(format, k, name, text); h != "" && h[0] != '/' {
      HeadSplit(format, k, name, text);
    }
  }

  lemma {:induction false} ReadElements(format: Format, depth: nat, vs: seq<Value>, end: string, name: string, text: string, rest: string)
    requires forall e :: e in vs ==> PlainNames(e)
    requires ReadContent(end, name) == Read((text, []), rest)
    ensures ReadContent(XmlElements(format, depth, vs) + end, name)
         == Read((Repeat(|vs|, Tabs(depth) + "\n") + text, ElementShapes(format, depth, vs)), rest)
    decreases vs, 1
  {
    hide ReadElement, ReadContent, XmlBody, Shape, Tabs;
    if vs == [] {
      assert "" + end == end && "" + text == text;
    } else {
      var more := XmlElements(format, depth, vs[1..]) + end;
      ReadElements(format, depth, vs[1..], end, name, text, rest);
      ReadBody(format, depth, "", vs[0], "", "\n" + more);
      BodyStart(format, depth, "", vs[0], "");
      ReadChild(depth, XmlBody(format, depth, "", vs[0], ""), Shape(format, depth, "", vs[0], ""), more, name,
                Repeat(|vs| - 1, Tabs(depth) + "\n") + text, ElementShapes(format, depth, vs[1..]), rest);
      Assoc(XmlTag(format, depth, "", vs[0]), XmlElements(format, depth, vs[1..]), end);
      Assoc(Tabs(depth) + "\n", Repeat(|vs| - 1, Tabs(depth) + "\n"), text);
    }
  }

  lemma {:induction false} ReadMembers(format: Format, depth: nat, o: Value, keys: seq<string>, end: string, name: string, text: string, rest: string)
    requires o.Object? && PlainNames(o) && forall k :: k in keys ==> k in o.m
    requires ReadContent(end, name) == Read((text, []), rest)
    ensures ReadContent(XmlMembers(format, depth, o, keys) + end, name)
         == Read((Repeat(|keys|, Tabs(depth) + "\n") + text, MemberShapes(format, depth, o, keys)), rest)
    decreases o, 1, |keys|
  {
    hide ReadElement, ReadContent, XmlBody, Shape, Tabs;
    if keys == [] {
      assert "" + end == end && "" + text == text;
    } else {
      var k := keys[0];
      assert k in o.m;
      var more := XmlMembers(format, depth, o, keys[1..]) + end;
      ReadMembers(format, depth, o, keys[1..], end, name, text, rest);
      ReadBody(format, depth, k, o.m[k], "", "\n" + more);
      BodyStart(format, depth, k, o.m[k], "");
      ReadChild(depth, XmlBody(format, depth, k, o.m[k], ""), Shape(format, depth, k, o.m[k], ""), more, name,
                Repeat(|keys| - 1, Tabs(depth) + "\n") + text, MemberShapes(format, depth, o, keys[1..]), rest);
      Assoc(XmlTag(format, depth, k, o.m[k]), XmlMembers(format, depth, o, keys[1..]), end);
      Assoc(Tabs(depth) + "\n", Repeat(|keys| - 1, Tabs(depth) + "\n"), text);
    }
  }

  /** `Object::xml` and `Array::xml`: the caller's header, then the root with the caller's attributes. */
  ghost function Xml(format: Format, header: string, attributes: string, v: Value): string {
    header + XmlTag(format, 0, "", v, attributes)
  }

  // ---------------------------------------------------------------- names with brackets

  ghost predicate PlainTags(e: Element) { NoBrackets(e.tag) && forall k :: k in e.kids ==> PlainTags(k) }

  /** The reader never takes a bracket into a tag. */
  lemma {:induction false} ReadPlainTags(s: string)
    ensures var r := ReadElement(s); r.Read? ==> PlainTags(r.v)
    decreases |s|, 0
  {
    if s != "" && s[0] == '<' {
      var open := Split('>', s[1..]);
      if open.Read? && !(open.v == "" || open.v[0] == '/' || '<' in open.v || open.v[|open.v| - 1] == '/') {
        ReadPlainContent(open.rest, NameOf(open.v));
      }
    }
  }

  lemma {:induction false} ReadPlainContent(s: string, name: string)
    ensures var r := ReadContent(s, name); r.Read? ==> forall k :: k in r.v.1 ==> PlainTags(k)
    decreases |s|, 1
  {
    if s == "" || s[0] == '>' {
    } else if s[0] != '<' {
      ReadPlainContent(s[1..], name);
    } else if !(|s| >= 2 && s[1] == '/') {
      ReadPlainTags(s);
      var kid := ReadElement(s);
      if kid.Read? { ReadPlainContent(kid.rest, name); }
    }
  }

  lemma {:induction false} EscapeKeepsBrackets(s: string, c: char)
    requires c == '<' || c == '>'
    ensures c in s ==> c in EscapeString(s)
  {
    if s != "" {
      assert EscapeChar(c) == [c];
      EscapeKeepsBrackets(s[1..], c);
      assert s == [s[0]] + s[1..];
    }
  }

  /** Every format writes the name, brackets and all, into the opening tag. */
  lemma HeadParts(format: Format, k: Kind, name: string, text: string) returns (a: string, b: string)
    requires name != ""
    ensures TagHead(format, k, name, text) == a + EscapeString(name) + b
  {
    hide EscapeString, EscapeAttribute, KindName, KindLetter;
    var e := EscapeString(name);
    match format
    case JXML => a, b := "j son=\"" + KindLetter(k) + ":", "\"";
    case JXMLex =>
      a, b := "j son=\"" + KindLetter(k) + ":", "\" " + EscapeAttribute(name) + "=\"" + EscapeString(text) + "\"";
      SevenParts(a + e, "\" ", EscapeAttribute(name), "=\"", EscapeString(text), "\"");
    case JSONx =>
      a, b := KindName(k) + " name=\"", "\"";
      FourParts(KindName(k), " name=\"", e, "\"");
    case TaggedXML =>
      var start := EscapeAttribute(name) + " type=\"" + KindName(k) + "\"";
      a, b := start + " name=\"", "\"";
      FourParts(start, " name=\"", e, "\"");
  }

  lemma FourParts(a: string, b: string, c: string, d: string)
    ensures a + (b + c + d) == a + b + c + d
  {
  }

  lemma SevenParts(a: string, b: string, c: string, d: string, e: string, f: string)
    ensures a + b + c + d + e + f == a + (b + c + d + e + f)
  {
  }

  lemma HeadShowsName(format: Format, k: Kind, name: string, text: string)
    requires NoBrackets(TagHead(format, k, name, text))
    ensures NoBrackets(name)
  {
    hide EscapeString, TagHead;
    if name != "" {
      var a, b := HeadParts(format, k, name, text);
      var e := EscapeString(name);
      assert forall c :: c in e ==> c in a + e + b;
      EscapeKeepsBrackets(name, '<');
      EscapeKeepsBrackets(name, '>');
    }
  }

  lemma {:induction false} ShapeShowsNames(format: Format, depth: nat, name: string, v: Value, attributes: string)
    requires PlainTags(Shape(format, depth, name, v, attributes))
    ensures NoBrackets(name) && PlainNames(v)
    decreases v, 2
  {
    hide TagHead, Layout, SortedKeys;
    var tag := Shape(format, depth, name, v, attributes).tag;
    match v
    case Null => HeadIn(format, NullKind, name, "", " /");
    case Invalid => HeadIn(format, NullKind, name, "", " /");
    case Bool(b) => HeadIn(format, BoolKind, name, if format.JXMLex? then if b then "true" else "false" else "", "");
    case Str(s) => HeadIn(format, StringKind, name, if format.JXMLex? then EscapeTag(s) else "", "");
    case Num(n) => HeadIn(format, NumberKind, name, if format.JXMLex? then NumberText(n, PRECISION) else "", "");
    case Array(vs) =>
      HeadIn(format, ArrayKind, name, "", attributes);
      ElementsShowNames(format, depth + 1, vs);
    case Object(m) =>
      HeadIn(format, ObjectKind, name, "", attributes);
      MembersShowNames(format, depth + 1, v, SortedKeys(m.Keys));
      assert forall k :: k in m ==> k in SortedKeys(m.Keys);
  }

  lemma HeadIn(format: Format, k: Kind, name: string, text: string, more: string)
    ensures TagHead(format, k, name, text) + "" == TagHead(format, k, name, text)
    ensures NoBrackets(TagHead(format, k, name, text) + more) ==> NoBrackets(name)
  {
    hide TagHead;
    var h := TagHead(format, k, name, text);
    assert forall c :: c in h ==> c in h + more;
    if NoBrackets(h + more) { HeadShowsName(format, k, name, text); }
  }

  lemma {:induction false} ElementsShowNames(format: Format, depth: nat, vs: seq<Value>)
    requires forall e :: e in ElementShapes(format, depth, vs) ==> PlainTags(e)
    ensures forall e :: e in vs ==> PlainNames(e)
    decreases vs, 1
  {
    hide Shape, PlainTags, PlainNames;
    if vs != [] {
      var shapes := ElementShapes(format, depth, vs);
      assert shapes[0] in shapes && shapes[1..] == ElementShapes(format, depth, vs[1..]);
      ShapeShowsNames(format, depth, "", vs[0], "");
      ElementsShowNames(format, depth, vs[1..]);
      assert forall e :: e in vs ==> e == vs[0] || e in vs[1..];
    }
  }

  lemma {:induction false} MembersShowNames(format: Format, depth: nat, o: Value, keys: seq<string>)
    requires o.Object? && forall k :: k in keys ==> k in o.m
    requires forall e :: e in MemberShapes(format, depth, o, keys) ==> PlainTags(e)
    ensures forall k :: k in keys ==> NoBrackets(k) && k in o.m && PlainNames(o.m[k])
    decreases o, 1, |keys|
  {
    hide Shape, PlainTags, PlainNames, NoBrackets;
    if keys != [] {
      assert keys[0] in o.m;
      var shapes := MemberShapes(format, depth, o, keys);
      assert shapes[0] in shapes && shapes[1..] == MemberShapes(format, depth, o, keys[1..]);
      ShapeShowsNames(format, depth, keys[0], o.m[keys[0]], "");
      MembersShowNames(format, depth, o, keys[1..]);
      assert forall k :: k in keys ==> k == keys[0] || k in keys[1..];
    }
  }

  /** After its header a document is one balanced element of the value's shape and a line break, exactly when no
      member name anywhere has an angle bracket. */
  lemma ReadXmlExactly(format: Format, header: string, attributes: string, v: Value)
    requires PlainAttributes(attributes)
    ensures ReadElement(Xml(format, header, attributes, v)[|header|..]) == Read(Shape(format, 0, "", v, attributes), "\n")
        <==> PlainNames(v)
  {
    hide ReadElement, XmlBody, Shape, PlainNames, PlainTags;
    var body := XmlBody(format, 0, "", v, attributes);
    assert Tabs(0) + body + "\n" == body + "\n";
    assert (header + (body + "\n"))[|header|..] == body + "\n";
    if PlainNames(v) {
      ReadBody(format, 0, "", v, attributes, "\n");
    } else if ReadElement(body + "\n") == Read(Shape(format, 0, "", v, attributes), "\n") {
      ReadPlainTags(body + "\n");
      ShapeShowsNames(format, 0, "", v, attributes);
      assert false;
    }
  }

  // ---------------------------------------------------------------- the text inside

  /** Undoes the three entities. */
  function Unescape(s: string): string
    decreases |s|
  {
    if s == "" then ""
    else if "&lt;" <= s then "<" + Unescape(s[4..])
    else if "&gt;" <= s then ">" + Unescape(s[4..])
    else if "&amp;" <= s then "&" + Unescape(s[5..])
    else [s[0]] + Unescape(s[1..])
  }

  /** A string element's character data denotes exactly the string. */
  lemma {:induction false} TextExact(s: string)
    ensures Unescape(EscapeTag(s)) == s
  {
    if s != "" {
      TextExact(s[1..]);
      var t := EscapeTag(s[1..]);
      assert s == [s[0]] + s[1..];
      match s[0]
      case '<' => assert ("&lt;" + t)[4..] == t;
      case '>' => assert ("&gt;" + t)[4..] == t && ("&gt;" + t)[1] == 'g';
      case '&' => assert ("&amp;" + t)[5..] == t && ("&amp;" + t)[1] == 'a';
      case _ => assert ([s[0]] + t)[1..] == t && ([s[0]] + t)[0] != '&';
    }
  }
}
